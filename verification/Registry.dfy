/** Which agent may have which certificate, and what is remembered about it
    (internal/registry/registry.go, internal/registry/filestate.go).
    Times are integers; 0 is Go's zero time. */
module Registry {
  import opened GoStrings
  import opened Lifetime

  datatype Agent = Agent(name: string, certificates: seq<string>, mode: string, publicKey: string,
                         identityLifetime: Span)

  datatype State = State(lastSeen: int, lastDelivered: map<string, int>, identityExpires: int,
                         revokedAt: Option<int>, revokedReason: string)

  type States = map<string, State>

  const NOTHING_KNOWN := State(0, map[], 0, None, "")

  function NormaliseName(s: string): string {
    ToLower(TrimSpace(s))
  }

  /** A name in small letters with no white space around it is its own normal form. */
  lemma NormalNameStays(s: string)
    requires NoCapitals(s) && Trimmed(s)
    ensures NormaliseName(s) == s
  {
    hide TrimSpace;
    TrimSpaceNothingToTrim(s);
    LowerNothing(s);
  }

  /** Two names have one normal form exactly when, without the white space around them, they are equal up
      to case. */
  lemma SameNormalExactly(a: string, b: string)
    ensures NormaliseName(a) == NormaliseName(b) <==> EqualFold(TrimSpace(a), TrimSpace(b))
    ensures NoCapitals(NormaliseName(a))
  {
    hide TrimSpace, ToLower, EqualFold;
    LowerEqual(TrimSpace(a), TrimSpace(b));
    LowerIs(TrimSpace(a));
  }

  // ---------- the configuration ----------

  function TrimEquals(s: string): string {
    if s != "" && s[|s| - 1] == '=' then TrimEquals(s[..|s| - 1]) else s
  }

  /** keyfp.Canonical */
  function Canonical(fingerprint: string): string {
    TrimEquals(TrimPrefix(TrimSpace(fingerprint), "SHA256:"))
  }

  predicate AllEquals(s: string) {
    forall i | 0 <= i < |s| :: s[i] == '='
  }

  lemma {:induction false} TrimEqualsDrops(b: string, pad: string)
    requires AllEquals(pad) && (b != "" ==> b[|b| - 1] != '=')
    ensures TrimEquals(b + pad) == b
    decreases |pad|
  {
    if pad == "" {
      assert b + pad == b;
    } else {
      assert (b + pad)[..|b + pad| - 1] == b + pad[..|pad| - 1];
      TrimEqualsDrops(b, pad[..|pad| - 1]);
    }
  }

  /** A fingerprint is compared by its body: with or without the prefix, the padding and white space around
      it, it is the same; and a body is its own canonical form, so that different bodies stay different. */
  lemma CanonicalIsTheBody(body: string, pad: string, l: string, r: string)
    requires body != "" && Trimmed(body) && body[|body| - 1] != '=' && !("SHA256:" <= body + pad)
    requires AllEquals(pad) && AllSpace(l) && AllSpace(r)
    ensures Canonical(l + (body + pad) + r) == body
    ensures Canonical(l + ("SHA256:" + (body + pad)) + r) == body
    ensures Canonical(body) == body
  {
    hide TrimSpace, TrimEquals;
    var padded := body + pad;
    assert Trimmed(padded) && Trimmed("SHA256:" + padded);
    TrimSpaceDrops(l, padded, r);
    TrimSpaceDrops(l, "SHA256:" + padded, r);
    TrimSpaceNothingToTrim(body);
    TrimEqualsDrops(body, pad);
    TrimEqualsDrops(body, "");
    assert body + "" == body && ("SHA256:" + padded)[7..] == padded;
    assert "SHA256:" <= body ==> "SHA256:" <= padded;
  }

  datatype Config = Config(agents: map<string, Agent>, byKey: map<string, string>)

  datatype OpenError = NoName | Twice | BadMode | NoCertificates | SharedKey | BadState

  function AddAgent(c: Config, a: Agent): Result<Config, OpenError> {
    if a.name == "" then Err(NoName)
    else if a.name in c.agents then Err(Twice)
    else if a.mode != "issue" && a.mode != "share" then Err(BadMode)
    else if a.certificates == [] then Err(NoCertificates)
    else if a.publicKey == "" then Ok(c.(agents := c.agents[a.name := a]))
    else if Canonical(a.publicKey) in c.byKey then Err(SharedKey)
    else Ok(Config(c.agents[a.name := a], c.byKey[Canonical(a.publicKey) := a.name]))
  }

  function AddAgents(agents: seq<Agent>): Result<Config, OpenError> {
    if agents == [] then Ok(Config(map[], map[]))
    else
      var c := AddAgents(agents[..|agents| - 1]);
      if c.Err? then c else AddAgent(c.value, agents[|agents| - 1])
  }

  predicate WellFormed(a: Agent) {
    a.name != "" && (a.mode == "issue" || a.mode == "share") && a.certificates != []
  }

  predicate Distinct(a: Agent, b: Agent) {
    && a.name != b.name
    && (a.publicKey == "" || b.publicKey == "" || Canonical(a.publicKey) != Canonical(b.publicKey))
  }

  predicate Acceptable(agents: seq<Agent>) {
    && (forall i | 0 <= i < |agents| :: WellFormed(agents[i]))
    && (forall i, j | 0 <= i < j < |agents| :: Distinct(agents[i], agents[j]))
  }

  predicate Named(agents: seq<Agent>, n: string) {
    exists i | 0 <= i < |agents| :: agents[i].name == n
  }

  predicate HasKey(a: Agent, k: string) {
    a.publicKey != "" && Canonical(a.publicKey) == k
  }

  predicate Keyed(agents: seq<Agent>, k: string) {
    exists i | 0 <= i < |agents| :: HasKey(agents[i], k)
  }

  /** The maps hold the configured agents and nothing else. */
  ghost predicate Describes(c: Config, agents: seq<Agent>) {
    && (forall n :: n in c.agents <==> Named(agents, n))
    && (forall k :: k in c.byKey <==> Keyed(agents, k))
    && (forall i | 0 <= i < |agents| :: Found(c, agents[i]))
  }

  predicate Found(c: Config, a: Agent) {
    && a.name in c.agents && c.agents[a.name] == a
    && (a.publicKey != "" ==> Canonical(a.publicKey) in c.byKey && c.byKey[Canonical(a.publicKey)] == a.name)
  }

  lemma OneMore(front: seq<Agent>, a: Agent)
    ensures forall n :: Named(front + [a], n) <==> Named(front, n) || n == a.name
    ensures forall k :: Keyed(front + [a], k) <==> Keyed(front, k) || HasKey(a, k)
  {
    hide HasKey;
    var all := front + [a];
    assert all[|front|] == a && forall i | 0 <= i < |front| :: all[i] == front[i];
  }

  /** A configuration is taken exactly when every agent is well formed and no two share a name or
      a device key; what is then looked up by name and by key is what was configured. */
  lemma {:induction false} AcceptsExactly(agents: seq<Agent>)
    ensures AddAgents(agents).Ok? <==> Acceptable(agents)
    ensures AddAgents(agents).Ok? ==> Describes(AddAgents(agents).value, agents)
  {
    hide Canonical, Describes, Acceptable, AddAgent;
    var n := |agents| - 1;
    if agents == [] {
      NothingConfigured();
    } else {
      var front, a := agents[..n], agents[n];
      assert agents == front + [a];
      AcceptsExactly(front);
      if Acceptable(agents) { AcceptableFront(front, a); }
      if AddAgents(front).Ok? {
        var c := AddAgents(front).value;
        if AddAgent(c, a).Ok? { AcceptedFits(c, front, a); }
        if Acceptable(agents) { FittingAccepted(c, front, a); }
      }
    }
  }

  lemma NothingConfigured()
    ensures Acceptable([]) && Describes(Config(map[], map[]), [])
  {
  }

  lemma AcceptableFront(front: seq<Agent>, a: Agent)
    requires Acceptable(front + [a])
    ensures Acceptable(front)
  {
    hide WellFormed, Distinct;
    var all := front + [a];
    forall i | 0 <= i < |front| ensures WellFormed(front[i]) { assert all[i] == front[i]; }
    forall i, j | 0 <= i < j < |front| ensures Distinct(front[i], front[j]) {
      assert all[i] == front[i] && all[j] == front[j];
    }
  }

  lemma AcceptedFits(c: Config, front: seq<Agent>, a: Agent)
    requires Acceptable(front) && Describes(c, front) && AddAgent(c, a).Ok?
    ensures Acceptable(front + [a]) && Describes(AddAgent(c, a).value, front + [a])
  {
    hide Canonical, Acceptable;
    DescribesOneMore(c, front, a);
    forall i | 0 <= i < |front| ensures Distinct(front[i], a) {
      assert Found(c, front[i]);
    }
    AcceptableMore(front, a);
  }

  lemma AcceptableMore(front: seq<Agent>, a: Agent)
    requires Acceptable(front) && WellFormed(a) && forall i | 0 <= i < |front| :: Distinct(front[i], a)
    ensures Acceptable(front + [a])
  {
    hide WellFormed, Distinct;
    var all := front + [a];
    assert all[|front|] == a && forall i | 0 <= i < |front| :: all[i] == front[i];
  }

  lemma FittingAccepted(c: Config, front: seq<Agent>, a: Agent)
    requires Describes(c, front) && Acceptable(front + [a])
    ensures AddAgent(c, a).Ok?
  {
    hide Canonical;
    var all, n := front + [a], |front|;
    assert all[n] == a && WellFormed(all[n]);
    forall i | 0 <= i < n ensures Distinct(front[i], a) {
      assert all[i] == front[i] && Distinct(all[i], all[n]);
    }
  }

  lemma DescribesOneMore(c: Config, front: seq<Agent>, a: Agent)
    requires Describes(c, front) && AddAgent(c, a).Ok?
    ensures Describes(AddAgent(c, a).value, front + [a])
  {
    hide Canonical;
    var d, all := AddAgent(c, a).value, front + [a];
    assert forall n :: n in d.agents <==> n in c.agents || n == a.name;
    assert forall k :: k in d.byKey <==> k in c.byKey || HasKey(a, k);
    assert Found(d, a);
    forall i | 0 <= i < |front| ensures Found(d, front[i]) {
      assert Found(c, front[i]);
    }
    hide Found, Named, Keyed, HasKey, AddAgent;
    OneMore(front, a);
    assert forall i | 0 <= i < |all| :: all[i] == if i < |front| then front[i] else a;
  }

  /** A fingerprint finds an agent exactly when that agent is configured with it. */
  lemma OneKeyOneAgent(agents: seq<Agent>, fingerprint: string, a: Agent)
    requires AddAgents(agents).Ok?
    ensures var c, k := AddAgents(agents).value, Canonical(fingerprint);
            (k in c.byKey && c.byKey[k] in c.agents && c.agents[c.byKey[k]] == a)
            <==> a in agents && HasKey(a, k)
    ensures var c, k := AddAgents(agents).value, Canonical(fingerprint);
            k in c.byKey ==> c.byKey[k] in c.agents
  {
    hide Canonical, AddAgents, Acceptable;
    AcceptsExactly(agents);
    var c, k := AddAgents(agents).value, Canonical(fingerprint);
    if k in c.byKey {
      var i :| 0 <= i < |agents| && HasKey(agents[i], k);
      assert Found(c, agents[i]);
      if a in agents && HasKey(a, k) {
        assert Found(c, a);
      }
    } else if a in agents {
      assert Found(c, a);
    }
  }

  // ---------- the running state ----------

  datatype Op =
    | Revoke(name: string, reason: string, now: int)
    | Restore(name: string)
    | Enrolled(name: string, expires: int, now: int)
    | Seen(name: string, now: int)
    | Delivered(name: string, cert: string, now: int)

  function StateOf(s: States, name: string): State {
    if name in s then s[name] else NOTHING_KNOWN
  }

  predicate IsRevoked(s: States, name: string) {
    StateOf(s, name).revokedAt.Some?
  }

  function Apply(s: States, op: Op): States {
    var st := StateOf(s, op.name);
    match op
    case Revoke(name, reason, now) => s[name := st.(revokedAt := Some(now), revokedReason := reason)]
    case Restore(name) => if IsRevoked(s, name) then s[name := st.(revokedAt := None, revokedReason := "")] else s
    case Enrolled(name, expires, now) => s[name := st.(identityExpires := expires, lastSeen := now)]
    case Seen(name, now) => s[name := st.(lastSeen := now)]
    case Delivered(name, cert, now) =>
      s[name := st.(lastDelivered := st.lastDelivered[cert := now], lastSeen := now)]
  }

  /** What each operation does to each field, and that every other agent keeps its state. */
  lemma WhatChanges(s: States, op: Op)
    ensures forall n | n != op.name :: n in Apply(s, op) <==> n in s
    ensures forall n | n != op.name :: StateOf(Apply(s, op), n) == StateOf(s, n)
    ensures var before, after := StateOf(s, op.name), StateOf(Apply(s, op), op.name);
            && after.lastSeen == (match op
                                  case Enrolled(_, _, now) => now
                                  case Seen(_, now) => now
                                  case Delivered(_, _, now) => now
                                  case _ => before.lastSeen)
            && after.identityExpires == (if op.Enrolled? then op.expires else before.identityExpires)
            && after.revokedAt == (match op
                                   case Revoke(_, _, now) => Some(now)
                                   case Restore(_) => None
                                   case _ => before.revokedAt)
            && (op.Revoke? ==> after.revokedReason == op.reason)
            && (op.Restore? && before.revokedAt.Some? ==> after.revokedReason == "")
            && (!op.Revoke? && !op.Restore? ==> after.revokedReason == before.revokedReason)
            && (forall cert :: cert in after.lastDelivered <==>
                               cert in before.lastDelivered || (op.Delivered? && cert == op.cert))
            && (forall cert | cert in after.lastDelivered :: after.lastDelivered[cert] ==
                  if op.Delivered? && cert == op.cert then op.now else before.lastDelivered[cert])
  {
  }

  /** Whether the operation writes the file; lifting a revocation that is not there does not. */
  predicate Saves(s: States, op: Op) {
    op.Restore? ==> IsRevoked(s, op.name)
  }

  datatype File = Missing | Corrupt | Saved(states: States)

  function Loaded(f: File): Result<States, OpenError> {
    match f
    case Missing => Ok(map[])
    case Corrupt => Err(BadState)
    case Saved(s) => Ok(s)
  }

  /** What of the saved state a registry takes in: that of configured agents, and every revocation. */
  function Kept(s: States, agents: map<string, Agent>): States {
    map n | n in s && (n in agents || IsRevoked(s, n)) :: s[n]
  }

  /** A restart remembers everything about the configured agents and everything about the revoked ones. */
  lemma RestartRemembers(s: States, agents: map<string, Agent>, n: string)
    ensures StateOf(Kept(s, agents), n) ==
            if n in agents || (n in s && s[n].revokedAt.Some?) then StateOf(s, n) else NOTHING_KNOWN
  {
  }

  datatype Memory = Memory(config: Config, states: States)

  function OpenSpec(agents: seq<Agent>, file: File): Result<Memory, OpenError> {
    var c := AddAgents(agents);
    if c.Err? then Err(c.error)
    else
      var s := Loaded(file);
      if s.Err? then Err(s.error) else Ok(Memory(c.value, Kept(s.value, c.value.agents)))
  }

  datatype Refusal = Withdrawn | UnknownAgent | NotPermitted | UnknownKey

  /** One JSON file, replaced as a whole. */
  class FileState {
    var content: File

    constructor (content: File)
      ensures this.content == content
    {
      this.content := content;
    }

    method Load() returns (r: Result<States, OpenError>)
      ensures r == Loaded(content)
    {
      match content
      case Missing => r := Ok(map[]);
      case Corrupt => r := Err(BadState);
      case Saved(s) => r := Ok(s);
    }

    /** A write that fails leaves the file as it was. */
    method Save(s: States, fault: bool) returns (ok: bool)
      modifies this
      ensures ok == !fault && content == if fault then old(content) else Saved(s)
    {
      if !fault { content := Saved(s); }
      ok := !fault;
    }
  }

  class Registry {
    var agents: map<string, Agent>
    var byKey: map<string, string>
    var state: States
    const store: FileState?

    constructor (c: Config, s: States, store: FileState?)
      ensures agents == c.agents && byKey == c.byKey && state == s && this.store == store
    {
      agents, byKey, state, this.store := c.agents, c.byKey, s, store;
    }

    function Value(): Memory
      reads this
    {
      Memory(Config(agents, byKey), state)
    }

    /** Every operation: the state becomes what Apply says, and so does the file if it is written. */
    twostate predicate Did(op: Op, fault: bool, ok: bool)
      reads this, store
    {
      && state == Apply(old(state), op)
      && ok == (store == null || !Saves(old(state), op) || !fault)
      && (store != null ==>
            store.content == if Saves(old(state), op) && !fault then Saved(state) else old(store.content))
    }

    method Persist(fault: bool) returns (ok: bool)
      modifies store
      ensures ok == (store == null || !fault)
      ensures store != null ==> store.content == if fault then old(store.content) else Saved(state)
    {
      ok := true;
      if store != null { ok := store.Save(state, fault); }
    }

    method Ensure(name: string) returns (st: State)
      modifies this`state
      ensures st == StateOf(old(state), name) && state == old(state)[name := st]
    {
      if name !in state { state := state[name := NOTHING_KNOWN]; }
      st := state[name];
      assert state == old(state)[name := st];
    }

    /** Any name can be revoked, whether an agent of that name is configured or not. */
    method DoRevoke(name: string, reason: string, now: int, fault: bool) returns (ok: bool)
      modifies this`state, store
      ensures Did(Op.Revoke(name, reason, now), fault, ok)
    {
      if name !in agents && name !in state { state := state[name := NOTHING_KNOWN]; }
      var st := Ensure(name);
      state := state[name := st.(revokedAt := Some(now), revokedReason := reason)];
      assert state == Apply(old(state), Op.Revoke(name, reason, now));
      ok := Persist(fault);
    }

    method DoRestore(name: string, fault: bool) returns (ok: bool)
      modifies this`state, store
      ensures Did(Op.Restore(name), fault, ok)
    {
      if name !in state || state[name].revokedAt.None? { return true; }
      state := state[name := state[name].(revokedAt := None, revokedReason := "")];
      ok := Persist(fault);
    }

    method DoEnrolled(name: string, expires: int, now: int, fault: bool) returns (ok: bool)
      modifies this`state, store
      ensures Did(Op.Enrolled(name, expires, now), fault, ok)
    {
      var st := Ensure(name);
      state := state[name := st.(identityExpires := expires, lastSeen := now)];
      ok := Persist(fault);
    }

    method DoSeen(name: string, now: int, fault: bool) returns (ok: bool)
      modifies this`state, store
      ensures Did(Op.Seen(name, now), fault, ok)
    {
      var st := Ensure(name);
      state := state[name := st.(lastSeen := now)];
      ok := Persist(fault);
    }

    method DoDelivered(name: string, cert: string, now: int, fault: bool) returns (ok: bool)
      modifies this`state, store
      ensures Did(Op.Delivered(name, cert, now), fault, ok)
    {
      var st := Ensure(name);
      state := state[name := st.(lastDelivered := st.lastDelivered[cert := now], lastSeen := now)];
      ok := Persist(fault);
    }

    /** A revoked agent is told so whatever it asks for. */
    method Authorise(name: string, cert: string) returns (r: Result<Agent, Refusal>)
      ensures r == Permission(Value(), name, cert)
      ensures r.Ok? <==> !IsRevoked(state, name) && name in agents && cert in agents[name].certificates
      ensures r.Ok? ==> r.value == agents[name]
      ensures IsRevoked(state, name) <==> r == Err(Withdrawn)
    {
      if name in state && state[name].revokedAt.Some? { return Err(Withdrawn); }
      if name !in agents { return Err(UnknownAgent); }
      var permitted := agents[name].certificates;
      for i := 0 to |permitted|
        invariant cert !in permitted[..i]
      {
        if permitted[i] == cert { return Ok(agents[name]); }
      }
      assert permitted[..|permitted|] == permitted;
      r := Err(NotPermitted);
    }

    method ByPublicKey(fingerprint: string) returns (r: Result<Agent, Refusal>)
      requires forall k | k in byKey :: byKey[k] in agents
      ensures var k := Canonical(fingerprint);
              r == if k in byKey then Ok(agents[byKey[k]]) else Err(UnknownKey)
    {
      var k := Canonical(fingerprint);
      if k !in byKey { return Err(UnknownKey); }
      r := Ok(agents[byKey[k]]);
    }
  }

  function Permission(m: Memory, name: string, cert: string): (r: Result<Agent, Refusal>)
    ensures r.Ok? <==> !IsRevoked(m.states, name) && name in m.config.agents
                       && cert in m.config.agents[name].certificates
  {
    if IsRevoked(m.states, name) then Err(Withdrawn)
    else if name !in m.config.agents then Err(UnknownAgent)
    else if cert in m.config.agents[name].certificates then Ok(m.config.agents[name])
    else Err(NotPermitted)
  }

  method Configure(agents: seq<Agent>) returns (r: Result<Config, OpenError>)
    ensures r == AddAgents(agents)
  {
    var byName: map<string, Agent>, byKey: map<string, string> := map[], map[];
    for i := 0 to |agents|
      invariant AddAgents(agents[..i]) == Ok(Config(byName, byKey))
    {
      var a := agents[i];
      assert agents[..i + 1][..i] == agents[..i];
      FailsOnward(agents, i + 1);
      if a.name == "" { return Err(NoName); }
      if a.name in byName { return Err(Twice); }
      if a.mode != "issue" && a.mode != "share" { return Err(BadMode); }
      if a.certificates == [] { return Err(NoCertificates); }
      if a.publicKey != "" {
        var fp := Canonical(a.publicKey);
        if fp in byKey { return Err(SharedKey); }
        byKey := byKey[fp := a.name];
      }
      byName := byName[a.name := a];
    }
    assert agents[..|agents|] == agents;
    r := Ok(Config(byName, byKey));
  }

  /** The first complaint is the one reported. */
  lemma {:induction false} FailsOnward(agents: seq<Agent>, k: nat)
    requires k <= |agents|
    ensures AddAgents(agents[..k]).Err? ==> AddAgents(agents) == AddAgents(agents[..k])
    decreases |agents|
  {
    if k == |agents| {
      assert agents[..k] == agents;
    } else {
      var front := agents[..|agents| - 1];
      FailsOnward(front, k);
      assert front[..k] == agents[..k];
    }
  }

  method New(agents: seq<Agent>, store: FileState?) returns (r: Result<Registry, OpenError>)
    ensures var m := OpenSpec(agents, if store == null then Missing else store.content);
            && (m.Err? ==> r == Err(m.error))
            && (m.Ok? ==> r.Ok? && fresh(r.value) && r.value.Value() == m.value && r.value.store == store)
  {
    var c := Configure(agents);
    if c.Err? { return Err(c.error); }
    var kept: States := map[];
    if store != null {
      var loaded := store.Load();
      if loaded.Err? { return Err(loaded.error); }
      kept := TakeIn(loaded.value, c.value.agents);
    }
    assert store == null ==> kept == Kept(map[], c.value.agents);
    var reg := new Registry(c.value, kept, store);
    r := Ok(reg);
  }

  method TakeIn(loaded: States, agents: map<string, Agent>) returns (kept: States)
    ensures kept == Kept(loaded, agents)
  {
    kept := map[];
    var left := loaded.Keys;
    while left != {}
      invariant left <= loaded.Keys
      invariant forall n :: n in kept <==> n in loaded && n !in left && (n in agents || IsRevoked(loaded, n))
      invariant forall n | n in kept :: kept[n] == loaded[n]
      decreases |left|
    {
      var n :| n in left;
      if n in agents || loaded[n].revokedAt.Some? { kept := kept[n := loaded[n]]; }
      left := left - {n};
    }
  }
}
