/** The broker's request handlers over its token store, agent registry and agent CA
    (internal/brokerapi/handlers.go, internal/brokerapi/server.go). */
module Broker {
  import opened GoStrings
  import opened Lifetime
  import T = Tokens
  import R = Registry
  import D = Deadline
  import G = GoDuration
  import C = CertStore
  import CsrCheck

  /** A certificate request as it arrives: unreadable, or a key, whether its signature holds, and the
      names asked for. */
  datatype Csr = Unreadable | Csr(key: nat, signed: bool, asks: CsrCheck.Request)

  /** How an identity was come by: a bootstrap token, a device key, or an earlier identity. */
  datatype Via = ByToken(id: string) | ByDeviceKey(fingerprint: string) | ByRenewal(parent: nat)

  /** A signed identity, and how many acts had gone before. */
  datatype Identity = Identity(name: string, key: nat, cert: D.Cert, via: Via, step: nat)

  datatype Audited = Audited(action: string, agent: string, allowed: bool)

  /** What does not change while the broker runs: the CA's end and fingerprint, the broker-wide
      lifetime, the domains of each certificate. */
  datatype Setup = Setup(caEnd: int, caFingerprint: string, lifetime: Span, specs: map<string, seq<string>>)

  datatype World = World(tokens: T.Files, memory: R.Memory, file: R.File, issued: seq<Identity>,
                         audit: seq<Audited>, acts: nat)

  // ---------- the gates ----------

  /** Presented certificates are told apart by their place in the list of all that were signed; one that
      is not in it does not verify under the agent CA. */
  function VerifiedAgent(w: World, presented: Option<nat>, now: int): Option<string> {
    if presented.None? || presented.value >= |w.issued| then None
    else
      var leaf := w.issued[presented.value];
      var name := R.NormaliseName(leaf.name);
      if now < leaf.cert.notBefore || now > leaf.cert.notAfter || name == "" then None else Some(name)
  }

  datatype Gate = Unknown | Shut(name: string) | Through(name: string)

  /** mTLSRoute: revocation is looked up on every request, under the name in its normal form. */
  function PassGate(w: World, presented: Option<nat>, now: int): Gate {
    var name := VerifiedAgent(w, presented, now);
    if name.None? then Unknown
    else if R.IsRevoked(w.memory.states, name.value) then Shut(name.value)
    else Through(name.value)
  }

  // ---------- what a handler does to the world ----------

  function Refuse(w: World, action: string, agent: string): World {
    w.(audit := w.audit + [Audited(action, agent, false)], acts := w.acts + 1)
  }

  /** Allowed, and the agent's state brought up to date; saving it may fail, which is only logged. */
  function Allow(w: World, action: string, agent: string, op: R.Op, fault: bool): World {
    var s := R.Apply(w.memory.states, op);
    w.(memory := w.memory.(states := s),
       file := if R.Saves(w.memory.states, op) && !fault then R.Saved(s) else w.file,
       audit := w.audit + [Audited(action, agent, true)],
       acts := w.acts + 1)
  }

  function LifetimeFor(c: Setup, m: R.Memory, name: string): Span {
    Or(if name in m.config.agents then m.config.agents[name].identityLifetime else Unset, c.lifetime)
  }

  function Sign(c: Setup, w: World, name: string, csr: Csr, now: int): Option<D.Cert>
    requires csr.Csr?
  {
    if name == "" || !csr.signed then None
    else
      var r := D.SignAgent(c.caEnd, LifetimeFor(c, w.memory, name), now);
      if r.Err? then None else Some(r.value)
  }

  /** Signed at one reading of the clock, recorded with the reading the handler began with. */
  function Grant(c: Setup, w: World, action: string, name: string, csr: Csr, via: Via,
                 now: int, signedAt: int, fault: bool): World
    requires csr.Csr?
  {
    var cert := Sign(c, w, name, csr, signedAt);
    if cert.None? then Refuse(w, action, name)
    else
      Allow(w, action, name, R.Op.Enrolled(name, cert.value.notAfter, now), fault)
        .(issued := w.issued + [Identity(name, csr.key, cert.value, via, w.acts)])
  }

  datatype EnrolRequest = EnrolRequest(token: string, csr: Csr, caller: string, now: int, signedAt: int, fault: bool)

  /** A token that could be redeemed is spent even if no identity comes of it. */
  function EnrolSpec(c: Setup, w: World, q: EnrolRequest): World {
    var token := T.ParseToken(q.token);
    if token.None? || q.csr.Unreadable? then Refuse(w, "enrol", "")
    else
      var (id, secret) := token.value;
      var (f, rec) := T.RedeemSpec(w.tokens, T.Request(id, secret, c.caFingerprint, q.caller, q.now));
      var v := w.(tokens := f);
      if rec.Err? then Refuse(v, "enrol", "")
      else
        var name := rec.value.agentName;
        if name !in w.memory.config.agents || R.IsRevoked(w.memory.states, name) then Refuse(v, "enrol", name)
        else Grant(c, v, "enrol", name, q.csr, ByToken(id), q.now, q.signedAt, q.fault)
  }

  /** The key a device proved to hold, and its fingerprint. */
  datatype Device = Device(key: nat, fingerprint: string)

  datatype IdentityRequest = IdentityRequest(device: Option<Device>, csr: Csr, now: int, signedAt: int, fault: bool)

  function FindByKey(m: R.Memory, fingerprint: string): Option<R.Agent> {
    var k := R.Canonical(fingerprint);
    if k in m.config.byKey && m.config.byKey[k] in m.config.agents then Some(m.config.agents[m.config.byKey[k]])
    else None
  }

  function IdentityRequestSpec(c: Setup, w: World, q: IdentityRequest): World {
    if q.device.None? then Refuse(w, "identity-request", "")
    else
      var agent := FindByKey(w.memory, q.device.value.fingerprint);
      if agent.None? then Refuse(w, "identity-request", "")
      else
        var name := agent.value.name;
        if R.IsRevoked(w.memory.states, name) || q.csr.Unreadable? || q.csr.key == q.device.value.key
        then Refuse(w, "identity-request", name)
        else
          Grant(c, w, "identity-request", name, q.csr, ByDeviceKey(q.device.value.fingerprint),
                q.now, q.signedAt, q.fault)
  }

  /** The gate reads the clock, then the handler, then the signing. */
  datatype RenewRequest = RenewRequest(presented: Option<nat>, csr: Csr, checkedAt: int, now: int, signedAt: int,
                                       fault: bool)

  /** Whoever renews keeps the name of the certificate presented, in its normal form. */
  function RenewSpec(c: Setup, w: World, q: RenewRequest): World {
    match PassGate(w, q.presented, q.checkedAt)
    case Unknown => Refuse(w, "authenticate", "")
    case Shut(name) => Refuse(w, "authenticate", name)
    case Through(name) =>
      if q.csr.Unreadable? then Refuse(w, "renew-identity", name)
      else Grant(c, w, "renew-identity", name, q.csr, ByRenewal(q.presented.value), q.now, q.signedAt, q.fault)
  }

  datatype FetchRequest = FetchRequest(presented: Option<nat>, cert: string, checkedAt: int, now: int, fault: bool)

  /** What is handed over: the chain, and the private key if the agent shares it. */
  datatype Delivery = Delivery(chain: C.Chain, key: Option<C.Key>)

  function FetchSpec(w: World, certs: C.Disk, q: FetchRequest): (World, Option<Delivery>) {
    match PassGate(w, q.presented, q.checkedAt)
    case Unknown => (Refuse(w, "authenticate", ""), None)
    case Shut(name) => (Refuse(w, "authenticate", name), None)
    case Through(name) =>
      var a := R.Permission(w.memory, name, q.cert);
      var stored := C.LoadSpec(certs, certs, q.cert);
      if a.Err? || stored.Err? then (Refuse(w, "fetch", name), None)
      else
        (Allow(w, "fetch", name, R.Op.Delivered(name, q.cert, q.now), q.fault),
         Some(Delivery(stored.value.0, if a.value.mode == "share" then Some(stored.value.1) else None)))
  }

  datatype IssueRequest = IssueRequest(presented: Option<nat>, cert: string, csr: Csr, checkedAt: int, now: int,
                                       fault: bool)

  /** The public CA answers with a chain for the key in the request, or fails. */
  function IssueSpec(c: Setup, w: World, canIssue: bool, answer: Option<C.Chain>, q: IssueRequest)
    : (World, Option<C.Chain>)
  {
    match PassGate(w, q.presented, q.checkedAt)
    case Unknown => (Refuse(w, "authenticate", ""), None)
    case Shut(name) => (Refuse(w, "authenticate", name), None)
    case Through(name) =>
      var a := R.Permission(w.memory, name, q.cert);
      if a.Err? || a.value.mode != "issue" || !canIssue || q.csr.Unreadable? || !q.csr.signed
         || q.cert !in c.specs || !CsrCheck.Accepts(q.csr.asks, c.specs[q.cert]) || answer.None?
      then (Refuse(w, "issue", name), None)
      else (Allow(w, "issue", name, R.Op.Delivered(name, q.cert, q.now), q.fault), answer)
  }

  // ---------- the server ----------

  class Server {
    const setup: Setup
    const tokens: T.Store
    const agents: R.Registry
    const file: R.FileState
    var issued: seq<Identity>
    var audit: seq<Audited>
    var acts: nat

    constructor (setup: Setup, tokens: T.Store, agents: R.Registry, file: R.FileState)
      requires agents.store == file
      ensures Valid() && this.setup == setup && this.tokens == tokens && this.agents == agents && this.file == file
      ensures issued == [] && audit == [] && acts == 0
    {
      this.setup, this.tokens, this.agents, this.file := setup, tokens, agents, file;
      issued, audit, acts := [], [], 0;
    }

    ghost predicate Valid()
      reads this
    {
      agents.store == file
    }

    function Value(): World
      reads this, tokens, agents, file
    {
      World(tokens.files, agents.Value(), file.content, issued, audit, acts)
    }

    method Record(action: string, agent: string, allowed: bool)
      modifies this
      ensures audit == old(audit) + [Audited(action, agent, allowed)] && acts == old(acts) + 1
      ensures issued == old(issued)
    {
      audit := audit + [Audited(action, agent, allowed)];
      acts := acts + 1;
    }

    /** The common end of the three ways to an identity. */
    method SignAndRecord(action: string, name: string, csr: Csr, via: Via, now: int, signedAt: int, fault: bool)
      requires Valid() && csr.Csr?
      modifies this, agents, file
      ensures Valid() && Value() == Grant(setup, old(Value()), action, name, csr, via, now, signedAt, fault)
    {
      hide R.Apply, D.SignAgent, Or;
      ghost var w := Value();
      var cert := Sign(setup, Value(), name, csr, signedAt);
      if cert.None? {
        Record(action, name, false);
        return;
      }
      issued := issued + [Identity(name, csr.key, cert.value, via, acts)];
      Record(action, name, true);
      var ok := agents.DoEnrolled(name, cert.value.notAfter, now, fault);
    }

    method HandleEnrol(q: EnrolRequest)
      requires Valid()
      modifies this, tokens, agents, file
      ensures Valid() && Value() == EnrolSpec(setup, old(Value()), q)
    {
      hide Grant, T.RedeemSpec, T.ParseToken, R.IsRevoked;
      var token := T.ParseToken(q.token);
      if token.None? { Record("enrol", "", false); return; }
      var (id, secret) := token.value;
      if q.csr.Unreadable? { Record("enrol", "", false); return; }
      var rec := tokens.Redeem(T.Request(id, secret, setup.caFingerprint, q.caller, q.now));
      if rec.Err? { Record("enrol", "", false); return; }
      var name := rec.value.agentName;
      if name !in agents.agents { Record("enrol", name, false); return; }
      if R.IsRevoked(agents.state, name) { Record("enrol", name, false); return; }
      SignAndRecord("enrol", name, q.csr, ByToken(id), q.now, q.signedAt, q.fault);
    }

    method HandleIdentityRequest(q: IdentityRequest)
      requires Valid()
      modifies this, agents, file
      ensures Valid() && Value() == IdentityRequestSpec(setup, old(Value()), q)
    {
      hide Grant, R.IsRevoked, R.Canonical;
      if q.device.None? { Record("identity-request", "", false); return; }
      var agent := FindByKey(agents.Value(), q.device.value.fingerprint);
      if agent.None? { Record("identity-request", "", false); return; }
      var name := agent.value.name;
      if R.IsRevoked(agents.state, name) { Record("identity-request", name, false); return; }
      if q.csr.Unreadable? { Record("identity-request", name, false); return; }
      if q.csr.key == q.device.value.key { Record("identity-request", name, false); return; }
      SignAndRecord("identity-request", name, q.csr, ByDeviceKey(q.device.value.fingerprint), q.now, q.signedAt, q.fault);
    }

    method HandleRenewIdentity(q: RenewRequest)
      requires Valid()
      modifies this, agents, file
      ensures Valid() && Value() == RenewSpec(setup, old(Value()), q)
    {
      hide Grant, PassGate;
      var gate := PassGate(Value(), q.presented, q.checkedAt);
      if gate.Unknown? { Record("authenticate", "", false); return; }
      if gate.Shut? { Record("authenticate", gate.name, false); return; }
      ThroughPresents(Value(), q.presented, q.checkedAt);
      if q.csr.Unreadable? { Record("renew-identity", gate.name, false); return; }
      SignAndRecord("renew-identity", gate.name, q.csr, ByRenewal(q.presented.value), q.now, q.signedAt, q.fault);
    }

    method HandleFetch(certs: C.Store, q: FetchRequest) returns (d: Option<Delivery>)
      requires Valid()
      modifies this, agents, file
      ensures Valid() && (Value(), d) == FetchSpec(old(Value()), certs.Value(), q)
    {
      hide PassGate, R.Permission, C.LoadSpec, R.Apply;
      var gate := PassGate(Value(), q.presented, q.checkedAt);
      if gate.Unknown? { Record("authenticate", "", false); return None; }
      if gate.Shut? { Record("authenticate", gate.name, false); return None; }
      var agent := agents.Authorise(gate.name, q.cert);
      if agent.Err? { Record("fetch", gate.name, false); return None; }
      var stored := certs.Load(q.cert);
      if stored.Err? { Record("fetch", gate.name, false); return None; }
      d := Some(Delivery(stored.value.0, if agent.value.mode == "share" then Some(stored.value.1) else None));
      Record("fetch", gate.name, true);
      var ok := agents.DoDelivered(gate.name, q.cert, q.now, q.fault);
    }

    /** The order of checks: permission, mode, the request itself, its names, and only then the CA. */
    method HandleIssue(canIssue: bool, answer: Option<C.Chain>, q: IssueRequest) returns (d: Option<C.Chain>)
      requires Valid()
      modifies this, agents, file
      ensures Valid() && (Value(), d) == IssueSpec(setup, old(Value()), canIssue, answer, q)
    {
      hide PassGate, R.Permission, R.Apply, CsrCheck.Accepts, CsrCheck.Asks, CsrCheck.Names;
      d := None;
      var gate := PassGate(Value(), q.presented, q.checkedAt);
      if gate.Unknown? { Record("authenticate", "", false); return; }
      if gate.Shut? { Record("authenticate", gate.name, false); return; }
      var agent := agents.Authorise(gate.name, q.cert);
      if agent.Err? { Record("issue", gate.name, false); return; }
      if agent.value.mode != "issue" { Record("issue", gate.name, false); return; }
      if !canIssue { Record("issue", gate.name, false); return; }
      if q.csr.Unreadable? { Record("issue", gate.name, false); return; }
      if !q.csr.signed { Record("issue", gate.name, false); return; }
      if q.cert !in setup.specs { Record("issue", gate.name, false); return; }
      var mismatch := CsrCheck.Check(q.csr.asks, setup.specs[q.cert]);
      if !mismatch.OK() { Record("issue", gate.name, false); return; }
      if answer.None? { Record("issue", gate.name, false); return; }
      d := answer;
      Record("issue", gate.name, true);
      var ok := agents.DoDelivered(gate.name, q.cert, q.now, q.fault);
    }
  }

  lemma ThroughPresents(w: World, presented: Option<nat>, now: int)
    ensures PassGate(w, presented, now).Through? ==> presented.Some? && presented.value < |w.issued|
  {
  }

  /** A certificate is handed over exactly to a caller whose identity is valid, whose name in its normal
      form is configured, not revoked and permitted it, if a usable pair is stored; the private key goes
      with it exactly in the share mode, and either way one decision is recorded. */
  lemma DeliveredExactly(w: World, certs: C.Disk, q: FetchRequest)
    ensures var (v, d) := FetchSpec(w, certs, q); var name := VerifiedAgent(w, q.presented, q.checkedAt);
            && (d.Some? <==> && name.Some? && !R.IsRevoked(w.memory.states, name.value)
                             && name.value in w.memory.config.agents
                             && q.cert in w.memory.config.agents[name.value].certificates
                             && C.LoadSpec(certs, certs, q.cert).Ok?)
            && (d.Some? ==> (d.value.key.Some? <==> w.memory.config.agents[name.value].mode == "share"))
            && |v.audit| == |w.audit| + 1 && (v.audit[|w.audit|].allowed <==> d.Some?)
            && v.issued == w.issued && v.tokens == w.tokens
  {
  }

  /** A certificate is obtained for a request exactly when the identity is valid, the agent is configured for
      the issue mode, not revoked and permitted it, and the request is signed and asks for the configured
      names, no fewer and no more; no private key goes with it, and one decision is recorded. */
  lemma IssuedExactly(c: Setup, w: World, canIssue: bool, answer: Option<C.Chain>, q: IssueRequest)
    ensures var (v, d) := IssueSpec(c, w, canIssue, answer, q); var name := VerifiedAgent(w, q.presented, q.checkedAt);
            && (d.Some? <==> && name.Some? && !R.IsRevoked(w.memory.states, name.value)
                             && name.value in w.memory.config.agents
                             && q.cert in w.memory.config.agents[name.value].certificates
                             && w.memory.config.agents[name.value].mode == "issue"
                             && canIssue && q.csr.Csr? && q.csr.signed
                             && q.cert in c.specs && q.csr.asks.others == []
                             && (forall n :: CsrCheck.Asks(q.csr.asks, n) <==> CsrCheck.Names(c.specs[q.cert], n))
                             && answer.Some?)
            && (d.Some? ==> d == answer)
            && |v.audit| == |w.audit| + 1 && (v.audit[|w.audit|].allowed <==> d.Some?)
            && v.issued == w.issued && v.tokens == w.tokens
  {
    hide R.IsRevoked, R.NormaliseName, CsrCheck.Asks, CsrCheck.Names;
    if q.csr.Csr? && q.cert in c.specs {
      var asked, wanted := CsrCheck.Asked(q.csr.asks), CsrCheck.NameSet(c.specs[q.cert]);
      assert asked == wanted <==> forall n :: n in asked <==> n in wanted;
    }
  }

  /** An identity is signed for the agent's own lifetime, or the broker-wide one if it has none, or thirty
      days; and the registry remembers exactly the expiry the certificate carries. */
  lemma GrantRemembers(c: Setup, w: World, action: string, name: string, csr: Csr, via: Via, now: int,
                       signedAt: int, fault: bool)
    requires csr.Csr? && c.caEnd % G.SECOND == 0
    requires Grant(c, w, action, name, csr, via, now, signedAt, fault).issued != w.issued
    ensures var v := Grant(c, w, action, name, csr, via, now, signedAt, fault);
            && |v.issued| == |w.issued| + 1 && v.issued[..|w.issued|] == w.issued
            && var x := v.issued[|w.issued|]; var st := R.StateOf(v.memory.states, name);
               && x.name == name && x.key == csr.key && x.via == via
               && name in v.memory.states && st.identityExpires == x.cert.notAfter && st.lastSeen == now
               && (!fault ==> v.file == R.Saved(v.memory.states))
               && var own := if name in w.memory.config.agents then w.memory.config.agents[name].identityLifetime
                             else Unset;
                  x.cert.notAfter == match (if own != Unset then own else c.lifetime)
                                     case Forever => c.caEnd
                                     case Unset => D.WholeSeconds(signedAt + 30 * DAY)
                                     case Of(d) => D.WholeSeconds(signedAt + if d > 0 then d else 30 * DAY)
  {
  }

  /** From end to end: an agent with a lifetime of its own that has just been given an identity is not
      reported as about to lock itself out before that identity asks to be renewed. */
  lemma GrantedIsRenewedFirst(c: Setup, w: World, action: string, name: string, csr: Csr, via: Via, now: int,
                              signedAt: int, fault: bool, elapsed: int, later: int, silentAfter: int, warnBefore: int)
    requires csr.Csr? && c.caEnd % G.SECOND == 0
    requires name in w.memory.config.agents && w.memory.config.agents[name].name == name
    requires var own := w.memory.config.agents[name].identityLifetime; own.Of? && 0 < own.d <= G.MAX64
    requires Grant(c, w, action, name, csr, via, now, signedAt, fault).issued != w.issued
    requires var v := Grant(c, w, action, name, csr, via, now, signedAt, fault);
             && |v.issued| > |w.issued|
             && D.TwoThirds(elapsed, D.CertLifetime(v.issued[|w.issued|].cert))
             && D.Warned(w.memory.config.agents[name], v.memory.states, later, silentAfter, warnBefore)
    ensures var v := Grant(c, w, action, name, csr, via, now, signedAt, fault);
            later >= D.RenewAfter(v.issued[|w.issued|].cert, elapsed)
  {
    GrantRemembers(c, w, action, name, csr, via, now, signedAt, fault);
    var v, a := Grant(c, w, action, name, csr, via, now, signedAt, fault), w.memory.config.agents[name];
    assert Sign(c, w, name, csr, signedAt) == Some(v.issued[|w.issued|].cert);
    assert D.SignAgent(c.caEnd, a.identityLifetime, signedAt) == Ok(v.issued[|w.issued|].cert);
    hide Grant, Sign, D.SignAgent, D.Warned, D.TwoThirds, D.CertLifetime, D.RenewAfter;
    D.RenewalComesFirst(a, v.memory.states, c.caEnd, signedAt, elapsed, later, silentAfter, warnBefore);
  }
}
