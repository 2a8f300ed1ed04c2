/** Who is given an identity or a certificate, said in terms of the request and the broker's state alone
    (internal/brokerapi/handlers.go, internal/brokerapi/server.go, internal/agentca/agentca.go). */
module BrokerAnswers {
  import opened GoStrings
  import opened Lifetime
  import opened Broker
  import T = Tokens
  import R = Registry
  import D = Deadline
  import G = GoDuration
  import C = CertStore
  import CsrCheck

  const THIRTY_DAYS := 2_592_000_000_000_000

  /** The lifetime of an agent of this name: its own, else the broker's. */
  function SpanOf(c: Setup, w: World, name: string): Span {
    if name in w.memory.config.agents && !w.memory.config.agents[name].identityLifetime.Unset?
    then w.memory.config.agents[name].identityLifetime
    else c.lifetime
  }

  /** An identity of this name can be signed at this moment: the CA is not over and would not be outlived. */
  predicate CanBeSigned(c: Setup, w: World, name: string, csr: Csr, at: int) {
    var span := SpanOf(c, w, name);
    var l := if span.Of? && span.d > 0 then span.d else THIRTY_DAYS;
    && name != "" && csr.Csr? && csr.signed && at < c.caEnd
    && (span.Forever? || D.WholeSeconds(at + l) <= c.caEnd)
  }

  /** Exactly one identity more, of this name, for this key. */
  predicate OneMore(w: World, v: World, name: string, csr: Csr, via: Via) {
    && |v.issued| == |w.issued| + 1 && v.issued[..|w.issued|] == w.issued && csr.Csr?
    && var x := v.issued[|w.issued|]; x.name == name && x.key == csr.key && x.via == via
  }

  lemma GrantExactly(c: Setup, w: World, action: string, name: string, csr: Csr, via: Via,
                     now: int, signedAt: int, fault: bool)
    requires csr.Csr?
    ensures var v := Grant(c, w, action, name, csr, via, now, signedAt, fault);
            && v.tokens == w.tokens
            && (if CanBeSigned(c, w, name, csr, signedAt) then OneMore(w, v, name, csr, via) else v.issued == w.issued)
  {
    assert LifetimeFor(c, w.memory, name) == SpanOf(c, w, name);
  }

  // ---------- enrolment ----------

  /** The token is pending under its id, unspent, and presented with its secret at its broker in its time. */
  predicate RightToken(c: Setup, w: World, q: EnrolRequest) {
    var token := T.ParseToken(q.token);
    && token.Some? && q.csr.Csr?
    && var (id, secret) := token.value;
       && T.SafeId(id) && id in w.tokens.pending
       && var rec := w.tokens.pending[id];
          && rec.redeemedAt.None? && rec.secretHash == T.Sha256(secret)
          && (c.caFingerprint == "" || rec.caFingerprint == c.caFingerprint)
          && rec.notBefore <= q.now <= rec.notAfter
  }

  /** An enrolment is answered with an identity exactly when the token is right, its agent configured and not
      revoked, and the identity can be signed; a right token is spent either way, any other is not. */
  lemma EnrolExactly(c: Setup, w: World, q: EnrolRequest)
    requires forall id | id in w.tokens.redeemed :: w.tokens.redeemed[id].Spent()
    ensures var v := EnrolSpec(c, w, q);
            if !RightToken(c, w, q) then v.issued == w.issued && v.tokens == w.tokens
            else
              var id := T.ParseToken(q.token).value.0;
              var name := w.tokens.pending[id].agentName;
              && v.tokens.pending == w.tokens.pending - {id}
              && id in v.tokens.redeemed && v.tokens.redeemed[id].redeemedAt == Some(q.now)
              && (if name in w.memory.config.agents && !R.IsRevoked(w.memory.states, name)
                     && CanBeSigned(c, w, name, q.csr, q.signedAt)
                  then OneMore(w, v, name, q.csr, ByToken(id)) else v.issued == w.issued)
  {
    hide T.ParseToken, T.SafeId, R.IsRevoked, Grant, CanBeSigned;
    var token := T.ParseToken(q.token);
    if token.Some? && q.csr.Csr? {
      var (id, secret) := token.value;
      var (f, rec) := T.RedeemSpec(w.tokens, T.Request(id, secret, c.caFingerprint, q.caller, q.now));
      assert rec.Ok? <==> RightToken(c, w, q);
      if rec.Ok? {
        var v := w.(tokens := f);
        SignedAlike(c, w, v, rec.value.agentName, q.csr, q.signedAt);
        GrantExactly(c, v, "enrol", rec.value.agentName, q.csr, ByToken(id), q.now, q.signedAt, q.fault);
      }
    }
  }

  lemma SignedAlike(c: Setup, w: World, v: World, name: string, csr: Csr, at: int)
    requires v.memory == w.memory
    ensures CanBeSigned(c, v, name, csr, at) == CanBeSigned(c, w, name, csr, at)
  {
  }

  // ---------- a device key ----------

  /** A host that proves to hold a device key is given an identity exactly when some agent is configured with
      that key, is not revoked, the request is for another key, and the identity can be signed. */
  lemma IdentityRequestExactly(c: Setup, w: World, agents: seq<R.Agent>, q: IdentityRequest)
    requires R.AddAgents(agents) == Ok(w.memory.config)
    ensures var v := IdentityRequestSpec(c, w, q);
            && (forall a | a in agents && q.device.Some? && R.HasKey(a, R.Canonical(q.device.value.fingerprint)) ::
                  if !R.IsRevoked(w.memory.states, a.name) && q.csr.Csr? && q.csr.key != q.device.value.key
                     && CanBeSigned(c, w, a.name, q.csr, q.signedAt)
                  then OneMore(w, v, a.name, q.csr, ByDeviceKey(q.device.value.fingerprint))
                  else v.issued == w.issued)
            && (q.device.None? || (forall a | a in agents :: !R.HasKey(a, R.Canonical(q.device.value.fingerprint))) ==>
                  v.issued == w.issued)
            && v.tokens == w.tokens
  {
    hide R.Canonical, R.AddAgents, R.IsRevoked, Grant, CanBeSigned, R.HasKey;
    if q.device.Some? {
      var fp := q.device.value.fingerprint;
      FoundByKey(w.memory, agents, fp);
      var found := FindByKey(w.memory, fp);
      if found.Some? && q.csr.Csr? {
        GrantExactly(c, w, "identity-request", found.value.name, q.csr, ByDeviceKey(fp), q.now, q.signedAt, q.fault);
      }
    }
  }

  lemma FoundByKey(m: R.Memory, agents: seq<R.Agent>, fp: string)
    requires R.AddAgents(agents) == Ok(m.config)
    ensures forall a :: FindByKey(m, fp) == Some(a) <==> a in agents && R.HasKey(a, R.Canonical(fp))
    ensures FindByKey(m, fp).None? ==> forall a | a in agents :: !R.HasKey(a, R.Canonical(fp))
  {
    hide R.Canonical, R.AddAgents, R.HasKey;
    forall a ensures FindByKey(m, fp) == Some(a) <==> a in agents && R.HasKey(a, R.Canonical(fp)) {
      R.OneKeyOneAgent(agents, fp, a);
    }
  }

  // ---------- the holder of an identity ----------

  /** The name of an agent as it should be: in small letters, with no white space around it. */
  predicate PlainName(n: string) {
    n != "" && NoCapitals(n) && Trimmed(n)
  }

  /** The p-th identity was signed for n and is valid at this moment. */
  predicate Holds(w: World, p: nat, n: string, at: int) {
    p < |w.issued| && w.issued[p].name == n && w.issued[p].cert.notBefore <= at <= w.issued[p].cert.notAfter
  }

  lemma GateForHolder(w: World, p: nat, n: string, at: int)
    requires p < |w.issued| && w.issued[p].name == n && PlainName(n)
    ensures PassGate(w, Some(p), at).Through? <==> Holds(w, p, n, at) && !R.IsRevoked(w.memory.states, n)
    ensures PassGate(w, Some(p), at).Through? ==> PassGate(w, Some(p), at).name == n
  {
    hide R.NormaliseName, R.IsRevoked;
    R.NormalNameStays(n);
  }

  /** Who holds an identity signed for n is given another for n exactly while the first is valid, n is not
      revoked, and it can be signed. */
  lemma RenewExactly(c: Setup, w: World, q: RenewRequest, p: nat, n: string)
    requires q.presented == Some(p) && p < |w.issued| && w.issued[p].name == n && PlainName(n)
    ensures var v := RenewSpec(c, w, q);
            && v.tokens == w.tokens
            && (if Holds(w, p, n, q.checkedAt) && !R.IsRevoked(w.memory.states, n)
                   && CanBeSigned(c, w, n, q.csr, q.signedAt)
                then OneMore(w, v, n, q.csr, ByRenewal(p)) else v.issued == w.issued)
  {
    hide PassGate, R.IsRevoked, Grant, CanBeSigned, PlainName;
    GateForHolder(w, p, n, q.checkedAt);
    if q.csr.Csr? {
      GrantExactly(c, w, "renew-identity", n, q.csr, ByRenewal(p), q.now, q.signedAt, q.fault);
    } else {
      assert !CanBeSigned(c, w, n, q.csr, q.signedAt) by { Unreadable(c, w, n, q.csr, q.signedAt); }
    }
  }

  lemma Unreadable(c: Setup, w: World, name: string, csr: Csr, at: int)
    requires csr.Unreadable?
    ensures !CanBeSigned(c, w, name, csr, at)
  {
  }

  /** The same holder is handed a certificate exactly while the identity is valid, n is configured, not
      revoked and has the certificate in its list, and a matching pair is stored: the chain and, in the
      share mode only, the private key of that very pair. */
  lemma DeliveredToHolder(w: World, certs: C.Disk, q: FetchRequest, p: nat, n: string)
    requires q.presented == Some(p) && p < |w.issued| && w.issued[p].name == n && PlainName(n)
    ensures var d := FetchSpec(w, certs, q).1;
            && (d.Some? <==> && Holds(w, p, n, q.checkedAt) && n in w.memory.config.agents
                             && !R.IsRevoked(w.memory.states, n)
                             && q.cert in w.memory.config.agents[n].certificates
                             && C.ValidName(q.cert) && q.cert in certs.chains && q.cert in certs.keys
                             && certs.chains[q.cert].key == certs.keys[q.cert])
            && (d.Some? ==> && d.value.chain == certs.chains[q.cert]
                            && d.value.key == if w.memory.config.agents[n].mode == "share"
                                              then Some(certs.keys[q.cert]) else None)
  {
    hide PassGate, R.IsRevoked, PlainName, C.ValidName;
    GateForHolder(w, p, n, q.checkedAt);
  }

  /** What the broker remembers of an answer: of one that gave nothing, nothing; of a delivery, that this agent
      was heard of and had this certificate now, in memory and, unless saving fails, on the disk. */
  predicate Remembered(w: World, v: World, given: bool, n: string, cert: string, now: int, fault: bool) {
    if !given then v.memory == w.memory && v.file == w.file
    else
      && n in v.memory.states && cert in v.memory.states[n].lastDelivered
      && v.memory.states[n].lastSeen == now && v.memory.states[n].lastDelivered[cert] == now
      && v.memory.states[n].revokedAt == None
      && (n in w.memory.states ==> v.memory.states[n].identityExpires == w.memory.states[n].identityExpires)
      && v.memory.states - {n} == w.memory.states - {n} && v.memory.config == w.memory.config
      && v.file == if fault then w.file else R.Saved(v.memory.states)
  }

  lemma DeliveriesRemembered(w: World, certs: C.Disk, q: FetchRequest, p: nat, n: string)
    requires q.presented == Some(p) && p < |w.issued| && w.issued[p].name == n && PlainName(n)
    ensures var (v, d) := FetchSpec(w, certs, q); Remembered(w, v, d.Some?, n, q.cert, q.now, q.fault)
  {
    hide PassGate, PlainName, C.ValidName;
    GateForHolder(w, p, n, q.checkedAt);
  }

  lemma IssuesRemembered(c: Setup, w: World, canIssue: bool, answer: Option<C.Chain>, q: IssueRequest, p: nat, n: string)
    requires q.presented == Some(p) && p < |w.issued| && w.issued[p].name == n && PlainName(n)
    ensures var (v, d) := IssueSpec(c, w, canIssue, answer, q); Remembered(w, v, d.Some?, n, q.cert, q.now, q.fault)
  {
    hide PassGate, PlainName, CsrCheck.Accepts;
    GateForHolder(w, p, n, q.checkedAt);
  }

  /** And a certificate is obtained for its request exactly while the identity is valid, n is configured for
      the issue mode, not revoked and has the certificate in its list, the request is signed, and its plain
      names are the configured ones. */
  lemma IssuedToHolder(c: Setup, w: World, canIssue: bool, answer: Option<C.Chain>, q: IssueRequest, p: nat, n: string)
    requires q.presented == Some(p) && p < |w.issued| && w.issued[p].name == n && PlainName(n)
    requires q.csr.Csr? && q.cert in c.specs
    requires forall m | m in q.csr.asks.dnsNames || m in c.specs[q.cert] :: CsrCheck.PlainName(m)
    requires q.csr.asks.commonName == "" || CsrCheck.PlainName(q.csr.asks.commonName)
    ensures var d := IssueSpec(c, w, canIssue, answer, q).1; var asks := q.csr.asks;
            && (d.Some? <==> && Holds(w, p, n, q.checkedAt) && n in w.memory.config.agents
                             && !R.IsRevoked(w.memory.states, n)
                             && q.cert in w.memory.config.agents[n].certificates
                             && w.memory.config.agents[n].mode == "issue"
                             && canIssue && q.csr.signed && asks.others == [] && answer.Some?
                             && (forall m :: m in c.specs[q.cert] <==>
                                             m in asks.dnsNames || (m != "" && m == asks.commonName)))
            && (d.Some? ==> d == answer)
  {
    hide PassGate, R.IsRevoked, PlainName, CsrCheck.PlainName, CsrCheck.Accepts;
    GateForHolder(w, p, n, q.checkedAt);
    CsrCheck.PlainNamesExactly(q.csr.asks, c.specs[q.cert]);
  }

  /** A default broker: nothing configured for the lifetime of the agent or of all, and a CA that lasts. Every
      right enrolment of an agent that is configured and not revoked is answered with an identity of thirty
      days. */
  lemma DefaultBrokerEnrols(c: Setup, w: World, q: EnrolRequest)
    requires c.lifetime == Unset && c.caEnd % G.SECOND == 0 && RightToken(c, w, q) && q.csr.signed
    requires forall id | id in w.tokens.redeemed :: w.tokens.redeemed[id].Spent()
    requires var name := w.tokens.pending[T.ParseToken(q.token).value.0].agentName;
             && name != "" && name in w.memory.config.agents && w.memory.config.agents[name].identityLifetime == Unset
             && !R.IsRevoked(w.memory.states, name) && q.signedAt + THIRTY_DAYS <= c.caEnd
    ensures var v := EnrolSpec(c, w, q);
            && |v.issued| == |w.issued| + 1
            && v.issued[|w.issued|].cert.notAfter == D.WholeSeconds(q.signedAt + THIRTY_DAYS)
  {
    hide T.ParseToken, T.SafeId, R.IsRevoked, EnrolSpec;
    EnrolExactly(c, w, q);
    EnrolGrants(c, w, q);
  }

  lemma EnrolGrants(c: Setup, w: World, q: EnrolRequest)
    requires EnrolSpec(c, w, q).issued != w.issued && c.caEnd % G.SECOND == 0
    ensures T.ParseToken(q.token).Some? && q.csr.Csr? && T.ParseToken(q.token).value.0 in w.tokens.pending
    ensures var name := w.tokens.pending[T.ParseToken(q.token).value.0].agentName;
            var v := EnrolSpec(c, w, q);
            |v.issued| > |w.issued|
            && var end := v.issued[|w.issued|].cert.notAfter;
               end == match SpanOf(c, w, name)
                      case Forever => c.caEnd
                      case Unset => D.WholeSeconds(q.signedAt + THIRTY_DAYS)
                      case Of(d) => D.WholeSeconds(q.signedAt + if d > 0 then d else THIRTY_DAYS)
  {
    hide T.ParseToken, T.SafeId, T.Verify, R.IsRevoked, Grant;
    var (id, secret) := T.ParseToken(q.token).value;
    var (f, rec) := T.RedeemSpec(w.tokens, T.Request(id, secret, c.caFingerprint, q.caller, q.now));
    var v := w.(tokens := f);
    GrantRemembers(c, v, "enrol", rec.value.agentName, q.csr, ByToken(id), q.now, q.signedAt, q.fault);
  }
}
