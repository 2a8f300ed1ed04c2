/** Runs of registries over one state file: the broker's and those each command-line call opens for
    itself (internal/registry/registry.go:147-160, cmd/flying-certs-server/broker.go:384-407). */
module RegistryRuns {
  import opened GoStrings
  import opened Registry

  /** Registry i is the i-th process; it is in `open` while it runs. */
  datatype World = World(file: File, open: map<nat, Memory>)

  datatype Event =
    | Open(i: nat, agents: seq<Agent>)
    | Do(i: nat, op: Op, fault: bool)

  function Step(w: World, e: Event): World {
    match e
    case Open(i, agents) =>
      var m := OpenSpec(agents, w.file);
      World(w.file, if m.Ok? then w.open[i := m.value] else w.open - {i})
    case Do(i, op, fault) =>
      if i !in w.open then w
      else
        var m := w.open[i];
        var s := Apply(m.states, op);
        World(if Saves(m.states, op) && !fault then Saved(s) else w.file, w.open[i := Memory(m.config, s)])
  }

  /** The world after a history that started with nothing running. */
  function Run(f: File, h: seq<Event>): World {
    if h == [] then World(f, map[]) else Step(Run(f, h[..|h| - 1]), h[|h| - 1])
  }

  function After(f: File, h: seq<Event>, k: nat): World
    requires k <= |h|
  {
    Run(f, h[..k])
  }

  lemma AfterStep(f: File, h: seq<Event>, k: nat)
    requires k < |h|
    ensures After(f, h, k + 1) == Step(After(f, h, k), h[k])
  {
    assert h[..k + 1][..k] == h[..k];
  }

  predicate OnDisk(w: World, a: string) {
    w.file.Saved? && IsRevoked(w.file.states, a)
  }

  predicate InMemory(w: World, i: nat, a: string) {
    i in w.open && IsRevoked(w.open[i].states, a)
  }

  // ---------- what the file holds ----------

  /** The k-th event wrote the file. */
  predicate Wrote(f: File, h: seq<Event>, k: nat)
    requires k < |h|
  {
    var w, e := After(f, h, k), h[k];
    e.Do? && !e.fault && e.i in w.open && Saves(w.open[e.i].states, e.op)
  }

  /** The file is the memory of the last registry that wrote it, as it was when it wrote. */
  lemma {:induction false} FileIsLastSaversMemory(f: File, h: seq<Event>, k: nat)
    requires k < |h| && Wrote(f, h, k) && forall j | k < j < |h| :: !Wrote(f, h, j)
    ensures h[k].i in After(f, h, k + 1).open
    ensures Run(f, h).file == Saved(After(f, h, k + 1).open[h[k].i].states)
    decreases |h|
  {
    var n := |h| - 1;
    AfterStep(f, h, k);
    if k == n {
      assert h[..k + 1] == h;
    } else {
      var front := h[..n];
      Prefixes(f, h, n);
      FileIsLastSaversMemory(f, front, k);
      assert !Wrote(f, h, n);
    }
  }

  /** Whatever is said about a point of a shorter history is said about that point of the longer one. */
  lemma Prefixes(f: File, h: seq<Event>, n: nat)
    requires n <= |h|
    ensures forall k: nat | k <= n :: After(f, h[..n], k) == After(f, h, k)
    ensures forall k: nat | k < n :: Wrote(f, h[..n], k) == Wrote(f, h, k)
  {
    forall k: nat | k <= n ensures After(f, h[..n], k) == After(f, h, k) {
      assert h[..n][..k] == h[..k];
    }
  }

  lemma {:induction false} UntouchedFile(f: File, h: seq<Event>)
    requires forall j: nat | j < |h| :: !Wrote(f, h, j)
    ensures Run(f, h).file == f
    decreases |h|
  {
    if h != [] {
      var n := |h| - 1;
      Prefixes(f, h, n);
      UntouchedFile(f, h[..n]);
      assert !Wrote(f, h, n);
    }
  }

  // ---------- why a registry holds a revocation ----------

  /** The p-th event is where registry i got the revocation from: it read it, or was told. */
  predicate Source(f: File, h: seq<Event>, p: nat, i: nat, a: string)
    requires p < |h|
  {
    && h[p].i == i && i in After(f, h, p + 1).open
    && match h[p]
       case Open(_, _) => OnDisk(After(f, h, p), a)
       case Do(_, op, _) => op.Revoke? && op.name == a
  }

  /** The j-th event makes registry i forget what it held: a restart, or the revocation lifted. */
  predicate Ends(h: seq<Event>, j: nat, i: nat, a: string)
    requires j < |h|
  {
    h[j].i == i && (h[j].Open? || (h[j].op.Restore? && h[j].op.name == a))
  }

  ghost predicate Held(f: File, h: seq<Event>, p: nat, i: nat, a: string) {
    p < |h| && Source(f, h, p, i, a) && forall j: nat | p < j < |h| :: !Ends(h, j, i, a)
  }

  /** Registry i got the revocation from somewhere and has not lost it since. */
  ghost predicate Holds(f: File, h: seq<Event>, i: nat, a: string) {
    exists p: nat :: Held(f, h, p, i, a)
  }

  lemma KeepsRevocations(s: States, agents: map<string, Agent>, a: string)
    ensures IsRevoked(Kept(s, agents), a) == IsRevoked(s, a)
  {
  }

  /** What one event does to one registry's memory of one revocation. */
  lemma MemoryStep(w: World, e: Event, i: nat, a: string)
    ensures InMemory(Step(w, e), i, a) ==
            if e.i != i then InMemory(w, i, a)
            else match e
                 case Open(_, _) => i in Step(w, e).open && OnDisk(w, a)
                 case Do(_, op, _) =>
                   i in w.open && ((op.Revoke? && op.name == a) ||
                                   (InMemory(w, i, a) && !(op.Restore? && op.name == a)))
  {
    if e.Open? && OpenSpec(e.agents, w.file).Ok? {
      var m := OpenSpec(e.agents, w.file).value;
      KeepsRevocations(Loaded(w.file).value, m.config.agents, a);
    }
  }

  /** A registry holds a revocation exactly when it read it from the file or was told to revoke, and
      has not since been restarted or told to lift it. */
  lemma {:induction false} MemRevokedMeans(f: File, h: seq<Event>, i: nat, a: string)
    ensures InMemory(Run(f, h), i, a) <==> Holds(f, h, i, a)
    decreases |h|
  {
    if h != [] {
      var n := |h| - 1;
      var front, e := h[..n], h[n];
      MemRevokedMeans(f, front, i, a);
      Prefixes(f, h, n);
      AfterStep(f, h, n);
      assert h[..n + 1] == h;
      MemoryStep(After(f, h, n), e, i, a);
      HeldStep(f, h, i, a);
    }
  }

  lemma HeldStep(f: File, h: seq<Event>, i: nat, a: string)
    requires h != []
    ensures var n := |h| - 1;
            Holds(f, h, i, a)
            <==> Source(f, h, n, i, a) || (!Ends(h, n, i, a) && Holds(f, h[..n], i, a))
  {
    hide Source, Ends;
    var n := |h| - 1;
    Carried(f, h, i, a);
    if Holds(f, h, i, a) {
      var p: nat :| Held(f, h, p, i, a);
      if p < n { assert Held(f, h[..n], p, i, a); }
    }
    if Source(f, h, n, i, a) { assert Held(f, h, n, i, a); }
    if !Ends(h, n, i, a) && Holds(f, h[..n], i, a) {
      var p: nat :| Held(f, h[..n], p, i, a);
      assert Held(f, h, p, i, a);
    }
  }

  lemma Carried(f: File, h: seq<Event>, i: nat, a: string)
    requires h != []
    ensures var n := |h| - 1;
            forall p: nat | p < n :: Source(f, h[..n], p, i, a) == Source(f, h, p, i, a)
                                     && Ends(h[..n], p, i, a) == Ends(h, p, i, a)
  {
    var n := |h| - 1;
    Prefixes(f, h, n);
    forall p: nat | p < n ensures Source(f, h[..n], p, i, a) == Source(f, h, p, i, a) {
      assert h[..n][p] == h[p];
    }
  }

  // ---------- when a revocation survives ----------

  /** Every registry that writes the file from the n-th event on does so holding the revocation. */
  ghost predicate EverySaverHolds(f: File, h: seq<Event>, n: nat, a: string) {
    forall k: nat | n <= k < |h| && Wrote(f, h, k) :: Holds(f, h[..k + 1], h[k].i, a)
  }

  lemma DiskStep(f: File, h: seq<Event>, k: nat, a: string)
    requires k < |h|
    ensures OnDisk(After(f, h, k + 1), a) ==
            if Wrote(f, h, k) then InMemory(After(f, h, k + 1), h[k].i, a) else OnDisk(After(f, h, k), a)
  {
    AfterStep(f, h, k);
  }

  /** A revocation on disk stays there through every later event exactly when every later saver had
      read it or made it itself, and had not lifted it or been restarted since. */
  lemma {:induction false} SurvivesExactly(f: File, h: seq<Event>, n: nat, a: string)
    requires n <= |h| && OnDisk(After(f, h, n), a)
    ensures EverySaverHolds(f, h, n, a) <==> forall k: nat | n <= k <= |h| :: OnDisk(After(f, h, k), a)
  {
    hide OnDisk, InMemory, Wrote;
    forall k: nat | n <= k < |h|
      ensures OnDisk(After(f, h, k + 1), a) ==
              if Wrote(f, h, k) then Holds(f, h[..k + 1], h[k].i, a)
              else OnDisk(After(f, h, k), a)
    {
      DiskStep(f, h, k, a);
      MemRevokedMeans(f, h[..k + 1], h[k].i, a);
    }
    if EverySaverHolds(f, h, n, a) {
      StaysOn(f, h, n, a, |h|);
    }
  }

  lemma {:induction false} StaysOn(f: File, h: seq<Event>, n: nat, a: string, m: nat)
    requires n <= m <= |h| && OnDisk(After(f, h, n), a)
    requires forall k: nat | n <= k < |h| :: OnDisk(After(f, h, k), a) ==> OnDisk(After(f, h, k + 1), a)
    ensures forall k: nat | n <= k <= m :: OnDisk(After(f, h, k), a)
    decreases m
  {
    hide OnDisk;
    if m > n {
      StaysOn(f, h, n, a, m - 1);
      assert OnDisk(After(f, h, m - 1), a);
      assert OnDisk(After(f, h, m - 1 + 1), a);
    }
  }

  /** Whether it is on disk in the end depends on the last saver alone. */
  lemma OnDiskInTheEnd(f: File, h: seq<Event>, k: nat, a: string)
    requires k < |h| && Wrote(f, h, k) && forall j | k < j < |h| :: !Wrote(f, h, j)
    ensures OnDisk(Run(f, h), a) <==> Holds(f, h[..k + 1], h[k].i, a)
  {
    FileIsLastSaversMemory(f, h, k);
    MemRevokedMeans(f, h[..k + 1], h[k].i, a);
  }

  /** The broker starts, another process starts, that one revokes a, the broker hears from b. */
  function LosingRun(agents: seq<Agent>, a: string, b: string, t: int, u: int): seq<Event> {
    [Open(0, agents), Open(1, agents), Do(1, Op.Revoke(a, "", t), false), Do(0, Op.Seen(b, u), false)]
  }

  /** A revocation made by a second registry is not noticed by the first, which authorises the agent as
      before, and is gone from the file after the first one's next write: four events. */
  lemma RevocationLost(agents: seq<Agent>, a: Agent, b: string, cert: string, t: int, u: int)
    requires AddAgents(agents).Ok? && a in agents && cert in a.certificates && b != a.name
    ensures var h := LosingRun(agents, a.name, b, t, u);
            var told, end := After(Missing, h, 3), After(Missing, h, 4);
            && OnDisk(told, a.name) && 0 in told.open && Permission(told.open[0], a.name, cert).Ok?
            && !OnDisk(end, a.name) && 0 in end.open && Permission(end.open[0], a.name, cert).Ok?
  {
    var h := LosingRun(agents, a.name, b, t, u);
    AcceptsExactly(agents);
    var c := AddAgents(agents).value;
    assert Found(c, a);
    hide AddAgents, Permission, OnDisk, Found, Describes, After, Step;
    var m := Memory(c, map[]);
    BothOpen(agents, c, a.name, b, t, u);
    RevokeElsewhere(World(Missing, map[0 := m, 1 := m]), m, a.name, t);
    SeenOverwrites(After(Missing, h, 3), m, a.name, b, u);
    StillAuthorised(c, a, b, cert, u);
  }

  lemma BothOpen(agents: seq<Agent>, c: Config, a: string, b: string, t: int, u: int)
    requires AddAgents(agents) == Ok(c)
    ensures var h, m := LosingRun(agents, a, b, t, u), Memory(c, map[]);
            && After(Missing, h, 3) == Step(World(Missing, map[0 := m, 1 := m]), h[2])
            && After(Missing, h, 4) == Step(After(Missing, h, 3), h[3])
  {
    var h, m := LosingRun(agents, a, b, t, u), Memory(c, map[]);
    assert After(Missing, h, 0) == World(Missing, map[]);
    hide After, Step, AddAgents;
    AfterStep(Missing, h, 0);
    OpenOnMissing(map[], 0, agents, c);
    AfterStep(Missing, h, 1);
    OpenOnMissing(map[0 := m], 1, agents, c);
    AfterStep(Missing, h, 2);
    AfterStep(Missing, h, 3);
  }

  lemma OpenOnMissing(open: map<nat, Memory>, i: nat, agents: seq<Agent>, c: Config)
    requires AddAgents(agents) == Ok(c)
    ensures Step(World(Missing, open), Open(i, agents)) == World(Missing, open[i := Memory(c, map[])])
  {
    hide AddAgents;
    assert Kept(map[], c.agents) == map[];
  }

  lemma RevokeElsewhere(w: World, m: Memory, a: string, t: int)
    requires 0 in w.open && w.open[0] == m && 1 in w.open
    ensures var v := Step(w, Do(1, Op.Revoke(a, "", t), false));
            OnDisk(v, a) && 0 in v.open && v.open[0] == m
  {
  }

  lemma SeenOverwrites(w: World, m: Memory, a: string, b: string, u: int)
    requires 0 in w.open && w.open[0] == m && m.states == map[] && a != b
    ensures var v := Step(w, Do(0, Op.Seen(b, u), false));
            !OnDisk(v, a) && 0 in v.open && v.open[0] == Memory(m.config, Apply(map[], Op.Seen(b, u)))
  {
  }

  lemma StillAuthorised(c: Config, a: Agent, b: string, cert: string, u: int)
    requires Found(c, a) && cert in a.certificates && b != a.name
    ensures Permission(Memory(c, map[]), a.name, cert).Ok?
    ensures Permission(Memory(c, Apply(map[], Op.Seen(b, u))), a.name, cert).Ok?
  {
  }

  // ---------- a broker on its own ----------

  /** Only registry 0 runs, is called only while open, and its writes succeed. */
  predicate Alone(f: File, h: seq<Event>) {
    forall k: nat | k < |h| :: h[k].i == 0 && (h[k].Do? ==> !h[k].fault && 0 in After(f, h, k).open)
  }

  /** Whether the latest Revoke or Restore of a, if any, is a Revoke. */
  predicate LatestIsRevoke(h: seq<Event>, a: string, before: bool) {
    if h == [] then before
    else
      var e := h[|h| - 1];
      if e.Do? && e.op.name == a && (e.op.Revoke? || e.op.Restore?) then e.op.Revoke?
      else LatestIsRevoke(h[..|h| - 1], a, before)
  }

  /** Memory, while there is one, and file agree on who is revoked: whoever was revoked last. */
  lemma {:induction false} AloneTracks(f: File, h: seq<Event>, a: string)
    requires Alone(f, h)
    ensures var w, revoked := Run(f, h), LatestIsRevoke(h, a, f.Saved? && IsRevoked(f.states, a));
            && OnDisk(w, a) == revoked
            && (0 in w.open ==> InMemory(w, 0, a) == revoked)
    decreases |h|
  {
    if h != [] {
      var n := |h| - 1;
      Prefixes(f, h, n);
      assert forall k: nat | k < n :: h[..n][k] == h[k];
      AloneTracks(f, h[..n], a);
      AfterStep(f, h, n);
      assert h[..n + 1] == h;
      MemoryStep(After(f, h, n), h[n], 0, a);
      DiskStep(f, h, n, a);
      StaysOpenAlone(f, h);
    }
  }

  lemma StaysOpenAlone(f: File, h: seq<Event>)
    requires Alone(f, h) && h != []
    ensures h[|h| - 1].Do? ==> 0 in Run(f, h[..|h| - 1]).open && h[|h| - 1].i == 0 && !h[|h| - 1].fault
  {
    assert After(f, h, |h| - 1) == Run(f, h[..|h| - 1]);
  }

  /** The agents of the latest start. */
  function LatestAgents(h: seq<Event>): seq<Agent> {
    if h == [] then []
    else if h[|h| - 1].Open? then h[|h| - 1].agents
    else LatestAgents(h[..|h| - 1])
  }

  lemma {:induction false} AloneConfigured(f: File, h: seq<Event>)
    requires Alone(f, h) && 0 in Run(f, h).open
    ensures AddAgents(LatestAgents(h)) == Ok(Run(f, h).open[0].config)
    decreases |h|
  {
    var n := |h| - 1;
    Prefixes(f, h, n);
    assert forall k: nat | k < n :: h[..n][k] == h[k];
    StaysOpenAlone(f, h);
    if h[n].Do? { AloneConfigured(f, h[..n]); }
  }

  /** Over every run of a broker on its own, restarts with any configuration included, an agent is
      given a certificate exactly when it is configured now, the certificate is in its list, and the
      latest revocation or restoration of it, if any, is not a revocation. */
  lemma AuthorisedExactly(f: File, h: seq<Event>, a: string, cert: string)
    requires Alone(f, h) && 0 in Run(f, h).open
    ensures Permission(Run(f, h).open[0], a, cert).Ok?
            <==> && (exists g :: g in LatestAgents(h) && g.name == a && cert in g.certificates)
                 && !LatestIsRevoke(h, a, f.Saved? && IsRevoked(f.states, a))
  {
    AloneTracks(f, h, a);
    AloneConfigured(f, h);
    var c, agents := Run(f, h).open[0].config, LatestAgents(h);
    AcceptsExactly(agents);
    hide AddAgents, LatestAgents, Run, LatestIsRevoke;
    forall g | g in agents ensures Found(c, g) {
    }
    if a in c.agents {
      var i :| 0 <= i < |agents| && agents[i].name == a;
      assert Found(c, agents[i]);
    }
  }
}
