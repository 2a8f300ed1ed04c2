/** Whole runs of the broker: where every identity comes from, what each token bought, and what a
    revocation stops (internal/brokerapi/handlers.go, internal/brokerapi/server.go). */
module BrokerRuns {
  import opened GoStrings
  import opened Broker
  import T = Tokens
  import R = Registry
  import D = Deadline
  import G = GoDuration
  import C = CertStore
  import CsrCheck

  /** A request, or something done to the broker's state: by the operator, by another process that
      writes the same files, or by a restart with some configuration. */
  datatype Act =
    | Enrol(enrol: EnrolRequest)
    | AskWithKey(ask: IdentityRequest)
    | Renew(renew: RenewRequest)
    | Fetch(certs: C.Disk, fetch: FetchRequest)
    | Issue(canIssue: bool, answer: Option<C.Chain>, issue: IssueRequest)
    | PutToken(order: T.Order)
    | PruneTokens(cutoff: int)
    | Admin(op: R.Op, fault: bool)
    | FileReplaced(file: R.File)
    | Restart(agents: seq<R.Agent>)

  /** A restart that fails leaves no broker to ask; what follows it is the next that succeeds. */
  function Step(c: Setup, w: World, a: Act): World {
    match a
    case Enrol(q) => EnrolSpec(c, w, q)
    case AskWithKey(q) => IdentityRequestSpec(c, w, q)
    case Renew(q) => RenewSpec(c, w, q)
    case Fetch(certs, q) => FetchSpec(w, certs, q).0
    case Issue(canIssue, answer, q) => IssueSpec(c, w, canIssue, answer, q).0
    case PutToken(order) =>
      var rec := T.NewRecord(order);
      w.(tokens := if rec.Ok? then T.PutSpec(w.tokens, rec.value).0 else w.tokens, acts := w.acts + 1)
    case PruneTokens(cutoff) => w.(tokens := T.PruneSpec(w.tokens, cutoff), acts := w.acts + 1)
    case Admin(op, fault) =>
      var s := R.Apply(w.memory.states, op);
      w.(memory := w.memory.(states := s),
         file := if R.Saves(w.memory.states, op) && !fault then R.Saved(s) else w.file, acts := w.acts + 1)
    case FileReplaced(file) => w.(file := file, acts := w.acts + 1)
    case Restart(agents) =>
      var m := R.OpenSpec(agents, w.file);
      w.(memory := if m.Ok? then m.value else w.memory, acts := w.acts + 1)
  }

  function Begin(m: R.Memory, file: R.File): World {
    World(T.EMPTY, m, file, [], [], 0)
  }

  function Run(c: Setup, m: R.Memory, file: R.File, h: seq<Act>): World {
    if h == [] then Begin(m, file) else Step(c, Run(c, m, file, h[..|h| - 1]), h[|h| - 1])
  }

  // ---------- one act ----------

  /** The maps of a configuration belong together. */
  ghost predicate Coherent(m: R.Memory) {
    && (forall n | n in m.config.agents :: m.config.agents[n].name == n)
    && (forall k | k in m.config.byKey ::
          m.config.byKey[k] in m.config.agents && R.HasKey(m.config.agents[m.config.byKey[k]], k))
  }

  /** And every pending token is filed under its own id. */
  ghost predicate Sane(w: World) {
    Coherent(w.memory) && forall id | id in w.tokens.pending :: w.tokens.pending[id].id == id
  }

  lemma OpenedCoherent(agents: seq<R.Agent>, file: R.File)
    requires R.OpenSpec(agents, file).Ok?
    ensures Coherent(R.OpenSpec(agents, file).value)
  {
    hide R.Canonical, R.HasKey;
    R.AcceptsExactly(agents);
    var c := R.OpenSpec(agents, file).value.config;
    forall n | n in c.agents ensures c.agents[n].name == n {
      var i :| 0 <= i < |agents| && agents[i].name == n;
      assert R.Found(c, agents[i]);
    }
    forall k | k in c.byKey ensures c.byKey[k] in c.agents && R.HasKey(c.agents[c.byKey[k]], k) {
      var i :| 0 <= i < |agents| && R.HasKey(agents[i], k);
      KeyFound(c, agents[i], k);
    }
  }

  lemma KeyFound(c: R.Config, a: R.Agent, k: string)
    requires R.Found(c, a) && R.HasKey(a, k)
    ensures k in c.byKey && c.byKey[k] == a.name && c.agents[c.byKey[k]] == a
  {
  }

  /** A pending token of that agent, and the right secret presented to the right broker in its time. */
  predicate Redeems(c: Setup, f: T.Files, q: EnrolRequest, id: string, name: string) {
    var token := T.ParseToken(q.token);
    && id in f.pending && f.pending[id].agentName == name && !f.pending[id].Spent()
    && token.Some? && token.value.0 == id
    && T.Presents(T.Request(id, token.value.1, c.caFingerprint, q.caller, q.now), f.pending[id])
  }

  predicate ValidAt(x: Identity, now: int) {
    x.cert.notBefore <= now <= x.cert.notAfter
  }

  /** The act carries a signed request for the key. */
  predicate AsksFor(a: Act, key: nat) {
    match a
    case Enrol(q) => q.csr.Csr? && q.csr.signed && q.csr.key == key
    case AskWithKey(q) => q.csr.Csr? && q.csr.signed && q.csr.key == key
    case Renew(q) => q.csr.Csr? && q.csr.signed && q.csr.key == key
    case _ => false
  }

  /** Why an act may have an identity signed in a world: it asks for its key, the name is not revoked, and
      an agent of that name is configured whose token it redeems or whose device key it proves to hold,
      with an identity key that is another; or it presents an identity of that name, up to the normal
      form, which is valid at the time. */
  predicate Justified(c: Setup, w: World, a: Act, x: Identity) {
    && x.step == w.acts && x.cert.notAfter <= c.caEnd && AsksFor(a, x.key) && !R.IsRevoked(w.memory.states, x.name)
    && match x.via
       case ByToken(id) =>
         x.name in w.memory.config.agents && a.Enrol? && Redeems(c, w.tokens, a.enrol, id, x.name)
       case ByDeviceKey(fp) =>
         && x.name in w.memory.config.agents && R.HasKey(w.memory.config.agents[x.name], R.Canonical(fp))
         && a.AskWithKey? && a.ask.device.Some? && a.ask.device.value.fingerprint == fp
         && a.ask.device.value.key != x.key
       case ByRenewal(p) =>
         && a.Renew? && a.renew.presented == Some(p) && p < |w.issued| && ValidAt(w.issued[p], a.renew.checkedAt)
         && x.name == R.NormaliseName(w.issued[p].name) != ""
  }

  lemma GrantJustified(c: Setup, w: World, action: string, name: string, csr: Csr, via: Via,
                       now: int, signedAt: int, fault: bool)
    requires csr.Csr? && c.caEnd % G.SECOND == 0
    ensures var v := Grant(c, w, action, name, csr, via, now, signedAt, fault);
            && v.tokens == w.tokens && v.memory.config == w.memory.config && v.acts == w.acts + 1
            && (v.issued == w.issued
                || (exists x: Identity :: v.issued == w.issued + [x] && x.name == name && x.via == via && x.key == csr.key
                                          && csr.signed && x.step == w.acts && x.cert.notAfter <= c.caEnd))
  {
    var cert := Sign(c, w, name, csr, signedAt);
    if cert.Some? {
      D.NeverOutlivesCA(c.caEnd, LifetimeFor(c, w.memory, name), signedAt);
      var x := Identity(name, csr.key, cert.value, via, w.acts);
      assert Grant(c, w, action, name, csr, via, now, signedAt, fault).issued == w.issued + [x];
    }
  }

  /** What an act can add to the list of identities: nothing, or one that it justifies. */
  ghost predicate GrowsJustly(c: Setup, w: World, a: Act, v: World) {
    v.issued == w.issued || exists x :: v.issued == w.issued + [x] && Justified(c, w, a, x)
  }

  lemma EnrolGrows(c: Setup, w: World, q: EnrolRequest)
    requires c.caEnd % G.SECOND == 0 && Sane(w)
    ensures var v := EnrolSpec(c, w, q);
            && GrowsJustly(c, w, Enrol(q), v) && v.memory.config == w.memory.config && v.acts == w.acts + 1
            && v.tokens.pending.Keys <= w.tokens.pending.Keys
            && (forall id | id in v.tokens.pending :: v.tokens.pending[id] == w.tokens.pending[id])
  {
    hide Grant, T.ParseToken, R.IsRevoked, T.SafeId, Justified;
    var token := T.ParseToken(q.token);
    if token.Some? && q.csr.Csr? {
      var (id, secret) := token.value;
      var (f, rec) := T.RedeemSpec(w.tokens, T.Request(id, secret, c.caFingerprint, q.caller, q.now));
      if rec.Ok? {
        var v, name := w.(tokens := f), rec.value.agentName;
        assert Redeems(c, w.tokens, q, id, name);
        hide T.RedeemSpec, Redeems;
        GrantJustified(c, v, "enrol", name, q.csr, ByToken(id), q.now, q.signedAt, q.fault);
        EnrolJustified(c, w, q, id, EnrolSpec(c, w, q));
      }
    }
  }

  lemma EnrolJustified(c: Setup, w: World, q: EnrolRequest, id: string, v: World)
    requires q.csr.Csr?
    requires v.issued == w.issued
             || exists x: Identity ::
                  && v.issued == w.issued + [x] && x.via == ByToken(id) && x.key == q.csr.key && q.csr.signed
                  && x.step == w.acts && x.cert.notAfter <= c.caEnd && x.name in w.memory.config.agents
                  && !R.IsRevoked(w.memory.states, x.name) && Redeems(c, w.tokens, q, id, x.name)
    ensures GrowsJustly(c, w, Enrol(q), v)
  {
    hide Redeems, R.IsRevoked;
    if v.issued != w.issued {
      var x: Identity :| v.issued == w.issued + [x] && x.via == ByToken(id) && x.key == q.csr.key && q.csr.signed
                         && x.step == w.acts && x.cert.notAfter <= c.caEnd && x.name in w.memory.config.agents
                         && !R.IsRevoked(w.memory.states, x.name) && Redeems(c, w.tokens, q, id, x.name);
      assert Justified(c, w, Enrol(q), x);
    }
  }

  lemma AskGrows(c: Setup, w: World, q: IdentityRequest)
    requires c.caEnd % G.SECOND == 0 && Coherent(w.memory)
    ensures var v := IdentityRequestSpec(c, w, q);
            && GrowsJustly(c, w, AskWithKey(q), v) && v.memory.config == w.memory.config && v.acts == w.acts + 1
            && v.tokens == w.tokens
  {
    hide Grant, R.Canonical, R.IsRevoked, R.HasKey;
    if q.device.Some? && q.csr.Csr? {
      var agent := FindByKey(w.memory, q.device.value.fingerprint);
      if agent.Some? {
        GrantJustified(c, w, "identity-request", agent.value.name, q.csr, ByDeviceKey(q.device.value.fingerprint),
                       q.now, q.signedAt, q.fault);
      }
    }
  }

  lemma RenewGrows(c: Setup, w: World, q: RenewRequest)
    requires c.caEnd % G.SECOND == 0
    ensures var v := RenewSpec(c, w, q);
            && GrowsJustly(c, w, Renew(q), v) && v.memory.config == w.memory.config && v.acts == w.acts + 1
            && v.tokens == w.tokens
  {
    hide Grant, R.NormaliseName, R.IsRevoked;
    var gate := PassGate(w, q.presented, q.checkedAt);
    if gate.Through? && q.csr.Csr? {
      GrantJustified(c, w, "renew-identity", gate.name, q.csr, ByRenewal(q.presented.value), q.now, q.signedAt, q.fault);
    }
  }

  lemma StepGrows(c: Setup, w: World, a: Act)
    requires c.caEnd % G.SECOND == 0 && Sane(w)
    ensures GrowsJustly(c, w, a, Step(c, w, a)) && Sane(Step(c, w, a))
    ensures Step(c, w, a).acts == w.acts + 1
  {
    hide EnrolSpec, IdentityRequestSpec, RenewSpec, PassGate, R.Permission, C.LoadSpec, R.Apply, T.StaleIds,
      R.HasKey, R.OpenSpec, Justified, CsrCheck.Accepts;
    match a
    case Enrol(q) => EnrolGrows(c, w, q);
    case AskWithKey(q) => AskGrows(c, w, q);
    case Renew(q) => RenewGrows(c, w, q);
    case Restart(agents) => if R.OpenSpec(agents, w.file).Ok? { OpenedCoherent(agents, w.file); }
    case _ =>
  }

  // ---------- every identity, over every run ----------

  ghost predicate Started(c: Setup, m: R.Memory) {
    c.caEnd % G.SECOND == 0 && Coherent(m)
  }

  lemma {:induction false} RunCounts(c: Setup, m: R.Memory, file: R.File, h: seq<Act>)
    requires Started(c, m)
    ensures Run(c, m, file, h).acts == |h| && Sane(Run(c, m, file, h))
    decreases |h|
  {
    hide Step;
    if h != [] {
      RunCounts(c, m, file, h[..|h| - 1]);
      StepGrows(c, Run(c, m, file, h[..|h| - 1]), h[|h| - 1]);
    }
  }

  /** The list of identities only ever grows at its end. */
  lemma {:induction false} IssuedGrows(c: Setup, m: R.Memory, file: R.File, h: seq<Act>, k: nat)
    requires Started(c, m) && k <= |h|
    ensures Run(c, m, file, h[..k]).issued <= Run(c, m, file, h).issued
    decreases |h|
  {
    hide Step, Justified;
    if k == |h| {
      assert h[..k] == h;
    } else {
      var front := h[..|h| - 1];
      assert front[..k] == h[..k];
      IssuedGrows(c, m, file, front, k);
      RunCounts(c, m, file, front);
      StepGrows(c, Run(c, m, file, front), h[|h| - 1]);
    }
  }

  /** Every identity was justified by an act of the run, in the world that act met. */
  lemma {:induction false} EachJustified(c: Setup, m: R.Memory, file: R.File, h: seq<Act>, i: nat)
    requires Started(c, m) && i < |Run(c, m, file, h).issued|
    ensures var x := Run(c, m, file, h).issued[i];
            && x.step < |h| && Justified(c, Run(c, m, file, h[..x.step]), h[x.step], x)
            && |Run(c, m, file, h[..x.step]).issued| == i
    decreases |h|
  {
    hide Step, Justified;
    var front := h[..|h| - 1];
    var w, v := Run(c, m, file, front), Run(c, m, file, h);
    RunCounts(c, m, file, front);
    StepGrows(c, w, h[|h| - 1]);
    if i < |w.issued| {
      EachJustified(c, m, file, front, i);
      var x := w.issued[i];
      assert v.issued[i] == x && front[..x.step] == h[..x.step] && front[x.step] == h[x.step];
    } else {
      var x :| v.issued == w.issued + [x] && Justified(c, w, h[|h| - 1], x);
      assert x.step == w.acts by { StepIsActs(c, w, h[|h| - 1], x); }
      assert v.issued[i] == x && h[..x.step] == front;
    }
  }

  lemma StepIsActs(c: Setup, w: World, a: Act, x: Identity)
    requires Justified(c, w, a, x)
    ensures x.step == w.acts
  {
  }

  // ---------- where a pending token comes from ----------

  /** The j-th act put the token that is pending under this id. */
  predicate PutBy(h: seq<Act>, j: nat, rec: T.Record) {
    j < |h| && h[j].PutToken? && T.NewRecord(h[j].order) == Ok(rec)
  }

  lemma {:induction false} PendingWasPut(c: Setup, m: R.Memory, file: R.File, h: seq<Act>, id: string)
    requires Started(c, m) && id in Run(c, m, file, h).tokens.pending
    ensures exists j: nat :: PutBy(h, j, Run(c, m, file, h).tokens.pending[id])
    decreases |h|
  {
    hide T.NewRecord, Step;
    var n := |h| - 1;
    var front := h[..n];
    var w, v := Run(c, m, file, front), Run(c, m, file, h);
    RunCounts(c, m, file, front);
    PendingStep(c, w, h[n], id);
    if h[n].PutToken? && T.NewRecord(h[n].order) == Ok(v.tokens.pending[id]) {
      assert PutBy(h, n, v.tokens.pending[id]);
    } else {
      PendingWasPut(c, m, file, front, id);
      var j: nat :| PutBy(front, j, w.tokens.pending[id]);
      assert PutBy(h, j, v.tokens.pending[id]);
    }
  }

  lemma PendingStep(c: Setup, w: World, a: Act, id: string)
    requires c.caEnd % G.SECOND == 0 && Sane(w) && id in Step(c, w, a).tokens.pending
    ensures var rec := Step(c, w, a).tokens.pending[id];
            (a.PutToken? && T.NewRecord(a.order) == Ok(rec)) || (id in w.tokens.pending && w.tokens.pending[id] == rec)
  {
    hide EnrolSpec, IdentityRequestSpec, RenewSpec, PassGate, R.Permission, C.LoadSpec, R.Apply, T.StaleIds,
      R.HasKey, R.OpenSpec, Justified, CsrCheck.Accepts, T.NewRecord;
    match a
    case Enrol(q) => EnrolGrows(c, w, q);
    case AskWithKey(q) => AskGrows(c, w, q);
    case Renew(q) => RenewGrows(c, w, q);
    case _ =>
  }

  // ---------- the root of an identity ----------

  /** Back through the renewals to the identity a token or a device key bought. */
  function Root(issued: seq<Identity>, i: nat): (r: nat)
    requires i < |issued|
    ensures r <= i
    decreases i
  {
    if issued[i].via.ByRenewal? && issued[i].via.parent < i then Root(issued, issued[i].via.parent) else i
  }

  lemma LowerTwice(s: string)
    ensures ToLower(ToLower(s)) == ToLower(s)
  {
    assert forall c :: LowerChar(LowerChar(c)) == LowerChar(c);
  }

  lemma NormalTwice(s: string)
    ensures R.NormaliseName(R.NormaliseName(s)) == R.NormaliseName(s)
  {
    var t := TrimSpace(s);
    TrimSpaceEnds(s);
    LowerTwice(t);
    assert t != "" ==> !IsSpace(ToLower(t)[0]) && !IsSpace(ToLower(t)[|t| - 1]);
    TrimSpaceNothingToTrim(ToLower(t));
  }

  /** The act at the root presented the secret of a token that an earlier act had issued for that agent,
      to the broker it was issued for and in its time. */
  ghost predicate BoughtWithAToken(c: Setup, h: seq<Act>, root: Identity) {
    && root.step < |h| && h[root.step].Enrol?
    && exists j: nat :: j < root.step && h[j].PutToken? && IsPrice(c, h[j].order, h[root.step].enrol, root)
  }

  predicate IsPrice(c: Setup, o: T.Order, q: EnrolRequest, root: Identity) {
    && root.via == ByToken(o.id) && o.agentName == root.name && T.ParseToken(q.token) == Some((o.id, o.secret))
    && (c.caFingerprint == "" || c.caFingerprint == o.caFingerprint)
    && o.now - T.CLOCK_SKEW <= q.now <= o.now + (if o.lifetime <= 0 then T.DEFAULT_LIFETIME else o.lifetime)
  }

  lemma RedeemedIsPrice(c: Setup, f: T.Files, o: T.Order, q: EnrolRequest, id: string, root: Identity)
    requires root.via == ByToken(id) && Redeems(c, f, q, id, root.name) && f.pending[id].id == id
    requires T.NewRecord(o) == Ok(f.pending[id])
    ensures IsPrice(c, o, q, root)
  {
    hide T.ParseToken;
  }

  lemma TokenRoot(c: Setup, m: R.Memory, file: R.File, h: seq<Act>, i: nat)
    requires Started(c, m) && i < |Run(c, m, file, h).issued| && Run(c, m, file, h).issued[i].via.ByToken?
    ensures BoughtWithAToken(c, h, Run(c, m, file, h).issued[i])
  {
    var root := Run(c, m, file, h).issued[i];
    EachJustified(c, m, file, h, i);
    var past, id := h[..root.step], root.via.id;
    var f := Run(c, m, file, past).tokens;
    RunCounts(c, m, file, past);
    hide Run;
    PendingWasPut(c, m, file, past, id);
    var j: nat :| PutBy(past, j, f.pending[id]);
    RedeemedIsPrice(c, f, h[j].order, h[root.step].enrol, id, root);
  }

  /** The chain behind an identity: every link was justified when it was made, so that each renewal
      presented the one before it while that was valid. */
  ghost predicate Linked(c: Setup, m: R.Memory, file: R.File, h: seq<Act>, i: nat)
    requires i < |Run(c, m, file, h).issued|
    decreases i
  {
    var x := Run(c, m, file, h).issued[i];
    && x.step < |h| && Justified(c, Run(c, m, file, h[..x.step]), h[x.step], x)
    && (x.via.ByRenewal? ==>
          var p := x.via.parent;
          && p < i && h[x.step].Renew? && ValidAt(Run(c, m, file, h).issued[p], h[x.step].renew.checkedAt)
          && Linked(c, m, file, h, p))
  }

  /** In every run, each identity traces back, through renewals that each presented a valid identity, to one
      that was signed for a name which is the same up to the normal form, for the secret of an issued token
      or a device key, while an agent of that name was configured and not revoked. None outlives the CA. */
  lemma {:induction false} TracesBack(c: Setup, m: R.Memory, file: R.File, h: seq<Act>, i: nat)
    requires Started(c, m) && i < |Run(c, m, file, h).issued|
    ensures Linked(c, m, file, h, i)
    ensures var issued := Run(c, m, file, h).issued;
            var root := issued[Root(issued, i)];
            && !root.via.ByRenewal? && root.step < |h| && root.step <= issued[i].step
            && (root.via.ByToken? ==> BoughtWithAToken(c, h, root))
            && R.NormaliseName(root.name) == R.NormaliseName(issued[i].name)
            && root.name in Run(c, m, file, h[..root.step]).memory.config.agents
            && !R.IsRevoked(Run(c, m, file, h[..root.step]).memory.states, root.name)
            && issued[i].cert.notAfter <= c.caEnd
    decreases i
  {
    hide R.NormaliseName, R.IsRevoked, R.HasKey, R.Canonical, Run, Redeems, AsksFor, BoughtWithAToken;
    var issued := Run(c, m, file, h).issued;
    var x := issued[i];
    EachJustified(c, m, file, h, i);
    var w := Run(c, m, file, h[..x.step]);
    if x.via.ByRenewal? {
      var p := x.via.parent;
      assert p < i;
      IssuedGrows(c, m, file, h, x.step);
      assert w.issued[p] == issued[p];
      TracesBack(c, m, file, h, p);
      NormalTwice(issued[p].name);
      EarlierStep(c, m, file, h, p, i);
    } else if x.via.ByToken? {
      TokenRoot(c, m, file, h, i);
    }
  }

  lemma EarlierStep(c: Setup, m: R.Memory, file: R.File, h: seq<Act>, p: nat, i: nat)
    requires Started(c, m) && p < i < |Run(c, m, file, h).issued|
    ensures Run(c, m, file, h).issued[p].step <= Run(c, m, file, h).issued[i].step
  {
    hide Justified, Run;
    EachJustified(c, m, file, h, p);
    EachJustified(c, m, file, h, i);
    var issued := Run(c, m, file, h).issued;
    var s, t := issued[p].step, issued[i].step;
    if t < s {
      assert h[..s][..t] == h[..t];
      IssuedGrows(c, m, file, h[..s], t);
    }
  }

  // ---------- what a token buys ----------

  function Puts(h: seq<Act>, id: string): nat {
    if h == [] then 0
    else Puts(h[..|h| - 1], id) + (if h[|h| - 1].PutToken? && h[|h| - 1].order.id == id then 1 else 0)
  }

  function Bought(issued: seq<Identity>, id: string): nat {
    if issued == [] then 0
    else Bought(issued[..|issued| - 1], id) + (if issued[|issued| - 1].via == ByToken(id) then 1 else 0)
  }

  function Pending(w: World, id: string): nat {
    if id in w.tokens.pending then 1 else 0
  }

  lemma BoughtMore(issued: seq<Identity>, x: Identity, id: string)
    ensures Bought(issued + [x], id) == Bought(issued, id) + if x.via == ByToken(id) then 1 else 0
  {
    assert (issued + [x])[..|issued|] == issued;
  }

  /** Each issue of a token buys at most one identity, and none while the token is still pending. */
  lemma {:induction false} OneIdentityPerToken(c: Setup, m: R.Memory, file: R.File, h: seq<Act>, id: string)
    requires Started(c, m)
    ensures var w := Run(c, m, file, h); Bought(w.issued, id) + Pending(w, id) <= Puts(h, id)
    decreases |h|
  {
    hide Step, Bought, Pending;
    if h == [] {
      NothingBought(id);
    } else {
      var front, a := h[..|h| - 1], h[|h| - 1];
      OneIdentityPerToken(c, m, file, front, id);
      RunCounts(c, m, file, front);
      StepSpends(c, Run(c, m, file, front), a, id);
    }
  }

  lemma NothingBought(id: string)
    ensures Bought([], id) == 0 && forall m: R.Memory, file: R.File :: Pending(Begin(m, file), id) == 0
  {
  }

  lemma StepSpends(c: Setup, w: World, a: Act, id: string)
    requires c.caEnd % G.SECOND == 0 && Sane(w)
    ensures var v := Step(c, w, a);
            Bought(v.issued, id) + Pending(v, id)
            <= Bought(w.issued, id) + Pending(w, id) + if a.PutToken? && a.order.id == id then 1 else 0
  {
    hide EnrolSpec, IdentityRequestSpec, RenewSpec, PassGate, R.Permission, C.LoadSpec, R.Apply, R.HasKey, R.OpenSpec,
      T.StaleIds, Bought;
    match a
    case Enrol(q) => EnrolSpends(c, w, q, id);
    case AskWithKey(q) =>
      AskOther(c, w, q, id);
    case Renew(q) =>
      RenewOther(c, w, q, id);
    case _ =>
  }

  lemma EnrolSpends(c: Setup, w: World, q: EnrolRequest, id: string)
    requires c.caEnd % G.SECOND == 0
    ensures var v := EnrolSpec(c, w, q); Bought(v.issued, id) + Pending(v, id) <= Bought(w.issued, id) + Pending(w, id)
  {
    hide Grant, T.ParseToken, R.IsRevoked, T.Verify, T.SafeId, Bought;
    var token := T.ParseToken(q.token);
    if token.Some? && q.csr.Csr? {
      var (tid, secret) := token.value;
      var (f, rec) := T.RedeemSpec(w.tokens, T.Request(tid, secret, c.caFingerprint, q.caller, q.now));
      if rec.Ok? {
        var v := w.(tokens := f);
        GrantOne(c, v, "enrol", rec.value.agentName, q.csr, ByToken(tid), q.now, q.signedAt, q.fault, id);
      }
    }
  }

  lemma GrantOne(c: Setup, w: World, action: string, name: string, csr: Csr, via: Via,
                 now: int, signedAt: int, fault: bool, id: string)
    requires csr.Csr? && c.caEnd % G.SECOND == 0
    ensures var v := Grant(c, w, action, name, csr, via, now, signedAt, fault);
            && v.tokens == w.tokens
            && Bought(v.issued, id) <= Bought(w.issued, id) + if via == ByToken(id) then 1 else 0
  {
    hide Bought, Grant;
    GrantJustified(c, w, action, name, csr, via, now, signedAt, fault);
    var v := Grant(c, w, action, name, csr, via, now, signedAt, fault);
    if v.issued != w.issued {
      var x: Identity :| v.issued == w.issued + [x] && x.via == via;
      BoughtMore(w.issued, x, id);
    }
  }

  lemma AskOther(c: Setup, w: World, q: IdentityRequest, id: string)
    requires c.caEnd % G.SECOND == 0
    ensures var v := IdentityRequestSpec(c, w, q); v.tokens == w.tokens && Bought(v.issued, id) <= Bought(w.issued, id)
  {
    hide Grant, R.Canonical, R.IsRevoked, Bought;
    if q.device.Some? && q.csr.Csr? {
      var agent := FindByKey(w.memory, q.device.value.fingerprint);
      if agent.Some? {
        GrantOne(c, w, "identity-request", agent.value.name, q.csr, ByDeviceKey(q.device.value.fingerprint),
                 q.now, q.signedAt, q.fault, id);
      }
    }
  }

  lemma RenewOther(c: Setup, w: World, q: RenewRequest, id: string)
    requires c.caEnd % G.SECOND == 0
    ensures var v := RenewSpec(c, w, q); v.tokens == w.tokens && Bought(v.issued, id) <= Bought(w.issued, id)
  {
    hide Grant, R.NormaliseName, R.IsRevoked, Bought;
    var gate := PassGate(w, q.presented, q.checkedAt);
    if gate.Through? && q.csr.Csr? {
      GrantOne(c, w, "renew-identity", gate.name, q.csr, ByRenewal(q.presented.value), q.now, q.signedAt, q.fault, id);
    }
  }

  /** So with every id issued once, no two identities were bought with the same token. */
  lemma TokensAreDifferent(c: Setup, m: R.Memory, file: R.File, h: seq<Act>, i: nat, j: nat)
    requires Started(c, m) && (forall id :: Puts(h, id) <= 1)
    requires i < j < |Run(c, m, file, h).issued|
    requires var issued := Run(c, m, file, h).issued; issued[i].via.ByToken? && issued[j].via.ByToken?
    ensures Run(c, m, file, h).issued[i].via.id != Run(c, m, file, h).issued[j].via.id
  {
    hide Run;
    var issued := Run(c, m, file, h).issued;
    var id := issued[j].via.id;
    OneIdentityPerToken(c, m, file, h, id);
    if issued[i].via.id == id { BoughtTwice(issued, i, j, id); }
  }

  lemma {:induction false} BoughtTwice(issued: seq<Identity>, i: nat, j: nat, id: string)
    requires i < j < |issued| && issued[i].via == ByToken(id) && issued[j].via == ByToken(id)
    ensures Bought(issued, id) >= 2
    decreases |issued|
  {
    var front := issued[..|issued| - 1];
    if j < |front| { BoughtTwice(front, i, j, id); } else { BoughtOnce(front, i, id); }
  }

  lemma {:induction false} BoughtOnce(issued: seq<Identity>, i: nat, id: string)
    requires i < |issued| && issued[i].via == ByToken(id)
    ensures Bought(issued, id) >= 1
    decreases |issued|
  {
    if i < |issued| - 1 { BoughtOnce(issued[..|issued| - 1], i, id); }
  }

  // ---------- what a revocation stops ----------

  /** While a name in its normal form is revoked in the broker's memory, nothing is renewed, fetched or
      issued with any identity of that name, whatever the case or white space it was signed with. */
  lemma RevokedIsShutOut(c: Setup, w: World, presented: nat, certs: C.Disk, renew: RenewRequest, fetch: FetchRequest,
                         canIssue: bool, answer: Option<C.Chain>, issue: IssueRequest)
    requires presented < |w.issued| && R.IsRevoked(w.memory.states, R.NormaliseName(w.issued[presented].name))
    requires renew.presented == Some(presented) && fetch.presented == Some(presented) && issue.presented == Some(presented)
    ensures RenewSpec(c, w, renew).issued == w.issued
    ensures FetchSpec(w, certs, fetch).1.None? && IssueSpec(c, w, canIssue, answer, issue).1.None?
  {
  }

  /** Revoking a name closes the gate to an identity of that name up to the normal form, let through until
      then, exactly when the name is in its normal form: lower case, no white space around it. */
  lemma RevocationReachesTheGate(w: World, a: string, reason: string, at: int, presented: nat, now: int)
    requires presented < |w.issued| && R.NormaliseName(w.issued[presented].name) == R.NormaliseName(a)
    requires PassGate(w, Some(presented), now).Through?
    ensures var v := w.(memory := w.memory.(states := R.Apply(w.memory.states, R.Op.Revoke(a, reason, at))));
            PassGate(v, Some(presented), now).Shut? <==> R.NormaliseName(a) == a
  {
  }

  // ---------- the record ----------

  /** The agents the record says were given an identity, in order. */
  function Granted(audit: seq<Audited>): seq<string> {
    if audit == [] then []
    else
      var e := audit[|audit| - 1];
      Granted(audit[..|audit| - 1])
      + if e.allowed && e.action in {"enrol", "identity-request", "renew-identity"} then [e.agent] else []
  }

  function Names(issued: seq<Identity>): seq<string> {
    seq(|issued|, i requires 0 <= i < |issued| => issued[i].name)
  }

  /** Over every run, the record names exactly the identities that were signed, in order. */
  lemma {:induction false} RecordIsComplete(c: Setup, m: R.Memory, file: R.File, h: seq<Act>)
    ensures var w := Run(c, m, file, h); Granted(w.audit) == Names(w.issued)
    decreases |h|
  {
    hide Step;
    if h != [] {
      RecordIsComplete(c, m, file, h[..|h| - 1]);
      StepRecorded(c, Run(c, m, file, h[..|h| - 1]), h[|h| - 1]);
    }
  }

  lemma GrantedMore(audit: seq<Audited>, e: Audited)
    ensures Granted(audit + [e]) == Granted(audit)
      + if e.allowed && e.action in {"enrol", "identity-request", "renew-identity"} then [e.agent] else []
  {
    assert (audit + [e])[..|audit|] == audit;
  }

  /** The two lists have grown by the same names. */
  ghost predicate Recorded(w: World, v: World) {
    exists more :: Granted(v.audit) == Granted(w.audit) + more && Names(v.issued) == Names(w.issued) + more
  }

  lemma RefuseRecorded(w: World, v: World, action: string, agent: string)
    requires v.issued == w.issued && v.audit == w.audit
    ensures Recorded(w, Refuse(v, action, agent))
  {
    hide Granted;
    GrantedMore(w.audit, Audited(action, agent, false));
    assert Granted(w.audit) + [] == Granted(w.audit) && Names(w.issued) + [] == Names(w.issued);
  }

  lemma AllowOther(w: World, action: string, agent: string, op: R.Op, fault: bool)
    requires action == "fetch" || action == "issue"
    ensures Recorded(w, Allow(w, action, agent, op, fault))
  {
    hide Granted;
    GrantedMore(w.audit, Audited(action, agent, true));
    assert Granted(w.audit) + [] == Granted(w.audit) && Names(w.issued) + [] == Names(w.issued);
  }

  lemma GrantRecorded(c: Setup, w: World, v: World, action: string, name: string, csr: Csr, via: Via,
                      now: int, signedAt: int, fault: bool)
    requires csr.Csr? && action in {"enrol", "identity-request", "renew-identity"}
    requires v.issued == w.issued && v.audit == w.audit
    ensures Recorded(w, Grant(c, v, action, name, csr, via, now, signedAt, fault))
  {
    hide Granted, Sign, R.Apply;
    var cert := Sign(c, v, name, csr, signedAt);
    if cert.None? {
      RefuseRecorded(w, v, action, name);
    } else {
      GrantedMore(w.audit, Audited(action, name, true));
      var x := Identity(name, csr.key, cert.value, via, v.acts);
      assert Names(w.issued + [x]) == Names(w.issued) + [name];
    }
  }

  lemma EnrolRecorded(c: Setup, w: World, q: EnrolRequest)
    ensures Recorded(w, EnrolSpec(c, w, q))
  {
    hide Recorded, Grant, Refuse, T.ParseToken, T.RedeemSpec, R.IsRevoked;
    var token := T.ParseToken(q.token);
    RefuseRecorded(w, w, "enrol", "");
    if token.Some? && q.csr.Csr? {
      var (id, secret) := token.value;
      var (f, rec) := T.RedeemSpec(w.tokens, T.Request(id, secret, c.caFingerprint, q.caller, q.now));
      var v := w.(tokens := f);
      RefuseRecorded(w, v, "enrol", "");
      if rec.Ok? {
        RefuseRecorded(w, v, "enrol", rec.value.agentName);
        GrantRecorded(c, w, v, "enrol", rec.value.agentName, q.csr, ByToken(id), q.now, q.signedAt, q.fault);
      }
    }
  }

  lemma AskRecorded(c: Setup, w: World, q: IdentityRequest)
    ensures Recorded(w, IdentityRequestSpec(c, w, q))
  {
    hide Recorded, Grant, Refuse, R.Canonical, R.IsRevoked;
    RefuseRecorded(w, w, "identity-request", "");
    if q.device.Some? {
      var agent := FindByKey(w.memory, q.device.value.fingerprint);
      if agent.Some? {
        RefuseRecorded(w, w, "identity-request", agent.value.name);
        if q.csr.Csr? {
          GrantRecorded(c, w, w, "identity-request", agent.value.name, q.csr,
                        ByDeviceKey(q.device.value.fingerprint), q.now, q.signedAt, q.fault);
        }
      }
    }
  }

  lemma GateRecorded(c: Setup, w: World, a: Act)
    requires a.Renew? || a.Fetch? || a.Issue?
    ensures Recorded(w, Step(c, w, a))
  {
    hide Recorded, Grant, Refuse, Allow, PassGate, R.Permission, C.LoadSpec;
    var (presented, now) := match a
      case Renew(q) => (q.presented, q.checkedAt)
      case Fetch(_, q) => (q.presented, q.checkedAt)
      case Issue(_, _, q) => (q.presented, q.checkedAt);
    var gate := PassGate(w, presented, now);
    RefuseRecorded(w, w, "authenticate", if gate.Unknown? then "" else gate.name);
    if gate.Through? {
      match a
      case Renew(q) =>
        RefuseRecorded(w, w, "renew-identity", gate.name);
        ThroughPresents(w, presented, now);
        if q.csr.Csr? {
          GrantRecorded(c, w, w, "renew-identity", gate.name, q.csr, ByRenewal(presented.value),
                        q.now, q.signedAt, q.fault);
        }
      case Fetch(_, q) =>
        RefuseRecorded(w, w, "fetch", gate.name);
        AllowOther(w, "fetch", gate.name, R.Op.Delivered(gate.name, q.cert, q.now), q.fault);
      case Issue(_, _, q) =>
        RefuseRecorded(w, w, "issue", gate.name);
        AllowOther(w, "issue", gate.name, R.Op.Delivered(gate.name, q.cert, q.now), q.fault);
    }
  }

  lemma StepRecorded(c: Setup, w: World, a: Act)
    requires Granted(w.audit) == Names(w.issued)
    ensures Granted(Step(c, w, a).audit) == Names(Step(c, w, a).issued)
  {
    hide EnrolSpec, IdentityRequestSpec, RenewSpec, FetchSpec, IssueSpec, R.Apply, R.OpenSpec, T.PruneSpec, T.NewRecord,
      Granted, Names;
    match a
    case Enrol(q) => EnrolRecorded(c, w, q);
    case AskWithKey(q) => AskRecorded(c, w, q);
    case Renew(q) => GateRecorded(c, w, a);
    case Fetch(_, _) => GateRecorded(c, w, a);
    case Issue(_, _, _) => GateRecorded(c, w, a);
    case _ =>
  }
}
