/** One order at a time per DNS challenge record (internal/acme/zonelock.go,
    internal/acme/issuer.go:224-237). */
module ZoneLock {
  import opened GoStrings

  // ---------- which record an order writes ----------

  const WILD := "*."

  /** Orders ask for at least one name; only the first decides. */
  function ChallengeTarget(domains: seq<string>): string
    requires domains != []
  {
    "_acme-challenge." + ToLower(TrimPrefix(domains[0], WILD))
  }

  /** The same name up to case, or one of them the other's wildcard. */
  predicate SameRecord(a: string, b: string) {
    || EqualFold(a, b)
    || (!HasPrefix(b, WILD) && EqualFold(a, WILD + b))
    || (!HasPrefix(a, WILD) && EqualFold(WILD + a, b))
  }

  lemma WildFold(a: string, b: string)
    ensures EqualFold(WILD + a, b) <==> HasPrefix(b, WILD) && EqualFold(a, b[2..])
  {
    if EqualFold(WILD + a, b) {
      assert b[0] == '*' && b[1] == '.' by {
        assert (WILD + a)[0] == '*' && (WILD + a)[1] == '.';
      }
      forall i | 0 <= i < |a| ensures SameButCase(a[i], b[2..][i]) {
        assert (WILD + a)[i + 2] == a[i];
      }
    }
    if HasPrefix(b, WILD) && EqualFold(a, b[2..]) {
      assert b == WILD + b[2..];
    }
  }

  lemma FoldSymmetric(a: string, b: string)
    ensures EqualFold(a, b) <==> EqualFold(b, a)
  {
  }

  lemma FoldKeepsWild(a: string, b: string)
    requires EqualFold(a, b)
    ensures HasPrefix(a, WILD) <==> HasPrefix(b, WILD)
  {
    WildStarts(a);
    WildStarts(b);
    if |a| >= 2 { assert SameButCase(a[0], b[0]) && SameButCase(a[1], b[1]); }
  }

  lemma WildStarts(s: string)
    ensures HasPrefix(s, WILD) <==> |s| >= 2 && s[0] == '*' && s[1] == '.'
  {
    if |s| >= 2 { assert s[..2] == [s[0], s[1]]; }
  }

  /** Two orders are put under one key exactly when their first names share a record. */
  lemma OneKeyExactly(a: seq<string>, b: seq<string>)
    requires a != [] && b != []
    ensures ChallengeTarget(a) == ChallengeTarget(b) <==> SameRecord(a[0], b[0])
  {
    hide EqualFold, ToLower;
    var x, y := TrimPrefix(a[0], WILD), TrimPrefix(b[0], WILD);
    var head := "_acme-challenge.";
    assert ChallengeTarget(a)[|head|..] == ToLower(x) && ChallengeTarget(b)[|head|..] == ToLower(y);
    LowerEqual(x, y);
    WildFold(x, b[0]);
    WildFold(y, a[0]);
    FoldSymmetric(x, y);
    FoldSymmetric(WILD + y, a[0]);
    if HasPrefix(a[0], WILD) { assert a[0] == WILD + x; }
    if HasPrefix(b[0], WILD) { assert b[0] == WILD + y; }
    if EqualFold(a[0], b[0]) { FoldKeepsWild(a[0], b[0]); }
  }

  // ---------- the map of mutexes ----------

  class Mutex {
    constructor () {
    }
  }

  class ZoneLock {
    var locks: map<string, Mutex>

    /** No two keys share a mutex. */
    ghost predicate Valid()
      reads this
    {
      forall j, k | j in locks && k in locks && locks[j] == locks[k] :: j == k
    }

    constructor ()
      ensures Valid() && locks == map[]
    {
      locks := map[];
    }

    /** The part of Acquire under z.mu: every key that has a mutex keeps it, and a new key gets one of
        its own. */
    method MutexFor(key: string) returns (m: Mutex)
      requires Valid()
      modifies this
      ensures Valid() && key in locks && locks[key] == m
      ensures locks == old(locks)[key := m]
      ensures key in old(locks) ==> m == old(locks)[key]
      ensures key !in old(locks) ==> fresh(m)
    {
      if key in locks {
        m := locks[key];
      } else {
        m := new Mutex();
        locks := locks[key := m];
      }
      assert locks == old(locks)[key := m];
    }
  }

  // ---------- any number of threads ----------

  /** Where a thread is in Acquire, its work and the release. */
  datatype PC =
    | Idle
    | Entering(key: string)
    | Inside(key: string)
    | Found(key: string, m: nat)
    | Waiting(key: string, m: nat)
    | Working(key: string, m: nat)

  /** z.mu, the map with mutexes numbered as they are made, and who holds which of them. */
  datatype State = State(mu: Option<nat>, locks: map<string, nat>, made: nat, owner: map<nat, nat>, pcs: map<nat, PC>)

  const START := State(None, map[], 0, map[], map[])

  function At(s: State, t: nat): PC {
    if t in s.pcs then s.pcs[t] else Idle
  }

  /** A thread takes a step; an idle one begins an order for a key. */
  datatype Action = Begin(t: nat, key: string) | Go(t: nat)

  predicate Enabled(s: State, a: Action) {
    match a
    case Begin(t, _) => At(s, t).Idle?
    case Go(t) =>
      match At(s, t)
      case Idle => false
      case Entering(_) => s.mu.None?
      case Inside(_) => true
      case Found(_, _) => true
      case Waiting(_, m) => m !in s.owner
      case Working(_, _) => true
  }

  function Step(s: State, a: Action): State
    requires Enabled(s, a)
  {
    match a
    case Begin(t, key) => s.(pcs := s.pcs[t := Entering(key)])
    case Go(t) =>
      match At(s, t)
      case Entering(key) => s.(mu := Some(t), pcs := s.pcs[t := Inside(key)])
      case Inside(key) =>
        if key in s.locks then s.(pcs := s.pcs[t := Found(key, s.locks[key])])
        else s.(locks := s.locks[key := s.made], made := s.made + 1, pcs := s.pcs[t := Found(key, s.made)])
      case Found(key, m) => s.(mu := None, pcs := s.pcs[t := Waiting(key, m)])
      case Waiting(key, m) => s.(owner := s.owner[m := t], pcs := s.pcs[t := Working(key, m)])
      case Working(key, m) => s.(owner := s.owner - {m}, pcs := s.pcs[t := Idle])
  }

  /** A schedule: an action that is not enabled does not happen. */
  function Run(acts: seq<Action>): State {
    if acts == [] then START
    else
      var s, a := Run(acts[..|acts| - 1]), acts[|acts| - 1];
      if Enabled(s, a) then Step(s, a) else s
  }

  predicate HasMutex(pc: PC) {
    pc.Found? || pc.Waiting? || pc.Working?
  }

  predicate Serves(locks: map<string, nat>, pc: PC) {
    HasMutex(pc) ==> pc.key in locks && locks[pc.key] == pc.m
  }

  predicate InMu(pc: PC) {
    pc.Inside? || pc.Found?
  }

  /** Mutexes are told apart by number, and each key has its own. */
  ghost predicate LocksSound(locks: map<string, nat>, made: nat) {
    && (forall k | k in locks :: locks[k] < made)
    && (forall j, k | j in locks && k in locks && locks[j] == locks[k] :: j == k)
  }

  ghost predicate KeysSound(locks: map<string, nat>, pcs: map<nat, PC>) {
    forall t | t in pcs :: Serves(locks, pcs[t])
  }

  ghost predicate MuSound(mu: Option<nat>, pcs: map<nat, PC>) {
    && (forall t | t in pcs :: InMu(pcs[t]) <==> mu == Some(t))
    && (mu.Some? ==> mu.value in pcs)
  }

  ghost predicate OwnersSound(owner: map<nat, nat>, pcs: map<nat, PC>) {
    && (forall t | t in pcs && pcs[t].Working? :: pcs[t].m in owner && owner[pcs[t].m] == t)
    && (forall m | m in owner :: owner[m] in pcs && pcs[owner[m]].Working? && pcs[owner[m]].m == m)
  }

  ghost predicate Sound(s: State) {
    LocksSound(s.locks, s.made) && KeysSound(s.locks, s.pcs) && MuSound(s.mu, s.pcs) && OwnersSound(s.owner, s.pcs)
  }

  lemma KeysAfter(locks: map<string, nat>, more: map<string, nat>, pcs: map<nat, PC>, t: nat, pc: PC)
    requires KeysSound(locks, pcs) && Serves(more, pc)
    requires forall k | k in locks :: k in more && more[k] == locks[k]
    ensures KeysSound(more, pcs[t := pc])
  {
    forall u | u in pcs ensures Serves(more, pcs[u]) { assert Serves(locks, pcs[u]); }
  }

  /** A thread that takes or frees z.mu, or has nothing to do with it. */
  lemma MuAfter(mu: Option<nat>, now: Option<nat>, pcs: map<nat, PC>, t: nat, pc: PC)
    requires MuSound(mu, pcs) && (mu == Some(t) || mu == None || mu == now)
    requires now == (if InMu(pc) then Some(t) else if mu == Some(t) then None else mu)
    requires InMu(pc) ==> mu == None || mu == Some(t)
    ensures MuSound(now, pcs[t := pc])
  {
  }

  /** A thread that neither takes nor frees a mutex. */
  lemma OwnersKept(owner: map<nat, nat>, pcs: map<nat, PC>, t: nat, pc: PC)
    requires OwnersSound(owner, pcs) && !pc.Working? && (t in pcs ==> !pcs[t].Working?)
    ensures OwnersSound(owner, pcs[t := pc])
  {
  }

  lemma OwnersTaken(owner: map<nat, nat>, pcs: map<nat, PC>, t: nat, key: string, m: nat)
    requires OwnersSound(owner, pcs) && m !in owner && t in pcs && !pcs[t].Working?
    ensures OwnersSound(owner[m := t], pcs[t := Working(key, m)])
  {
  }

  lemma OwnersFreed(owner: map<nat, nat>, pcs: map<nat, PC>, t: nat)
    requires OwnersSound(owner, pcs) && t in pcs && pcs[t].Working?
    ensures OwnersSound(owner - {pcs[t].m}, pcs[t := Idle])
  {
    var rest, now := owner - {pcs[t].m}, pcs[t := Idle];
    forall m | m in rest ensures rest[m] in now && now[rest[m]].Working? && now[rest[m]].m == m {
      assert m in owner && owner[m] != t;
    }
  }

  lemma BeginSound(s: State, t: nat, key: string)
    requires Sound(s) && At(s, t).Idle?
    ensures Sound(Step(s, Begin(t, key)))
  {
    assert MuSound(s.mu, s.pcs) && (t in s.pcs ==> !InMu(s.pcs[t])) && s.mu != Some(t);
    hide LocksSound, KeysSound, MuSound, OwnersSound;
    KeysAfter(s.locks, s.locks, s.pcs, t, Entering(key));
    MuAfter(s.mu, s.mu, s.pcs, t, Entering(key));
    OwnersKept(s.owner, s.pcs, t, Entering(key));
  }

  lemma GoSound(s: State, t: nat)
    requires Sound(s) && Enabled(s, Go(t))
    ensures Sound(Step(s, Go(t)))
  {
    var pc, n := At(s, t), Step(s, Go(t));
    var after := At(n, t);
    assert InMu(pc) <==> s.mu == Some(t);
    assert Serves(s.locks, pc);
    assert LocksSound(n.locks, n.made) && forall k | k in s.locks :: k in n.locks && n.locks[k] == s.locks[k];
    assert n.pcs == s.pcs[t := after] && Serves(n.locks, after);
    hide LocksSound, KeysSound, MuSound, OwnersSound;
    KeysAfter(s.locks, n.locks, s.pcs, t, after);
    MuAfter(s.mu, n.mu, s.pcs, t, after);
    if pc.Waiting? {
      OwnersTaken(s.owner, s.pcs, t, pc.key, pc.m);
    } else if pc.Working? {
      OwnersFreed(s.owner, s.pcs, t);
    } else {
      OwnersKept(s.owner, s.pcs, t, after);
    }
  }

  lemma StepSound(s: State, a: Action)
    requires Sound(s) && Enabled(s, a)
    ensures Sound(Step(s, a))
  {
    hide Sound, Step;
    match a
    case Begin(t, key) => BeginSound(s, t, key);
    case Go(t) => GoSound(s, t);
  }

  lemma {:induction false} RunSound(acts: seq<Action>)
    ensures Sound(Run(acts))
    decreases |acts|
  {
    if acts != [] {
      RunSound(acts[..|acts| - 1]);
      var s, a := Run(acts[..|acts| - 1]), acts[|acts| - 1];
      if Enabled(s, a) { StepSound(s, a); }
    }
  }

  /** Under every schedule of any number of threads, at most one works under a key. */
  lemma MutualExclusion(acts: seq<Action>, t: nat, u: nat)
    requires At(Run(acts), t).Working? && At(Run(acts), u).Working?
    requires At(Run(acts), t).key == At(Run(acts), u).key
    ensures t == u
  {
    RunSound(acts);
    hide Run;
  }

  /** Two orders whose first names share a record are never worked on together. */
  lemma OrdersAreSerialised(acts: seq<Action>, t: nat, u: nat, a: seq<string>, b: seq<string>)
    requires a != [] && b != [] && SameRecord(a[0], b[0])
    requires At(Run(acts), t).Working? && At(Run(acts), t).key == ChallengeTarget(a)
    requires At(Run(acts), u).Working? && At(Run(acts), u).key == ChallengeTarget(b)
    ensures t == u
  {
    OneKeyExactly(a, b);
    MutualExclusion(acts, t, u);
  }

  /** A key once given a mutex keeps it for ever. */
  lemma {:induction false} KeyKeepsMutex(acts: seq<Action>, n: nat, key: string)
    requires n <= |acts| && key in Run(acts[..n]).locks
    ensures key in Run(acts).locks && Run(acts).locks[key] == Run(acts[..n]).locks[key]
    decreases |acts|
  {
    if n == |acts| {
      assert acts[..n] == acts;
    } else {
      var front := acts[..|acts| - 1];
      assert front[..n] == acts[..n];
      KeyKeepsMutex(front, n, key);
    }
  }

  /** A thread waits for its mutex only while another works under the very same key. */
  lemma WaitsForItsOwnKey(acts: seq<Action>, t: nat)
    requires At(Run(acts), t).Waiting? && !Enabled(Run(acts), Go(t))
    ensures exists u: nat :: u != t && At(Run(acts), u).Working? && At(Run(acts), u).key == At(Run(acts), t).key
  {
    RunSound(acts);
    var s := Run(acts);
    hide Run;
    var u := s.owner[At(s, t).m];
    assert At(s, u).Working?;
  }

  /** As long as some thread is not idle, one that is not idle can step: no deadlock. */
  lemma SomeThreadCanStep(acts: seq<Action>, t: nat)
    requires !At(Run(acts), t).Idle?
    ensures exists u: nat :: !At(Run(acts), u).Idle? && Enabled(Run(acts), Go(u))
  {
    RunSound(acts);
    var s := Run(acts);
    hide Run;
    if !Enabled(s, Go(t)) {
      var u := if At(s, t).Entering? then s.mu.value else s.owner[At(s, t).m];
      assert Enabled(s, Go(u));
    }
  }

  /** What is left to do before an idle thread is idle again. */
  function Remaining(pc: PC): nat {
    match pc
    case Idle => 0
    case Entering(_) => 5
    case Inside(_) => 4
    case Found(_, _) => 3
    case Waiting(_, _) => 2
    case Working(_, _) => 1
  }

  ghost function Left(pcs: map<nat, PC>, threads: set<nat>): nat {
    if threads == {} then 0
    else
      var t :| t in threads;
      (if t in pcs then Remaining(pcs[t]) else 0) + Left(pcs, threads - {t})
  }

  lemma {:induction false} LeftWithout(pcs: map<nat, PC>, threads: set<nat>, t: nat)
    requires t in threads && t in pcs
    ensures Left(pcs, threads) == Remaining(pcs[t]) + Left(pcs, threads - {t})
    decreases threads
  {
    hide Remaining;
    var u :| u in threads && Left(pcs, threads)
                             == (if u in pcs then Remaining(pcs[u]) else 0) + Left(pcs, threads - {u});
    if u != t {
      LeftWithout(pcs, threads - {u}, t);
      if u in pcs {
        LeftWithout(pcs, threads - {t}, u);
      } else {
        LeftOther(pcs, threads - {t}, u);
      }
      assert threads - {u} - {t} == threads - {t} - {u};
    }
  }

  lemma {:induction false} LeftOther(pcs: map<nat, PC>, threads: set<nat>, u: nat)
    requires u in threads && u !in pcs
    ensures Left(pcs, threads) == Left(pcs, threads - {u})
    decreases threads
  {
    hide Remaining;
    var v :| v in threads && Left(pcs, threads)
                             == (if v in pcs then Remaining(pcs[v]) else 0) + Left(pcs, threads - {v});
    if v != u {
      LeftOther(pcs, threads - {v}, u);
      if v in pcs {
        LeftWithout(pcs, threads - {u}, v);
      } else {
        LeftOther(pcs, threads - {u}, v);
      }
      assert threads - {u} - {v} == threads - {v} - {u};
    }
  }

  lemma {:induction false} LeftUnchanged(pcs: map<nat, PC>, other: map<nat, PC>, threads: set<nat>)
    requires forall t | t in threads :: t in pcs && t in other && pcs[t] == other[t]
    ensures Left(pcs, threads) == Left(other, threads)
  {
    hide Remaining;
    if threads != {} {
      var t :| t in threads && Left(pcs, threads) == Remaining(pcs[t]) + Left(pcs, threads - {t});
      LeftWithout(other, threads, t);
      LeftUnchanged(pcs, other, threads - {t});
    }
  }

  lemma StepBringsNearer(s: State, t: nat)
    requires Enabled(s, Go(t))
    ensures var n := Step(s, Go(t));
            n.pcs.Keys == s.pcs.Keys && Left(n.pcs, n.pcs.Keys) == Left(s.pcs, s.pcs.Keys) - 1
  {
    var n := Step(s, Go(t));
    assert t in s.pcs && n.pcs == s.pcs[t := At(n, t)] && Remaining(At(n, t)) == Remaining(At(s, t)) - 1;
    hide Step, Enabled, Remaining;
    LeftWithout(s.pcs, s.pcs.Keys, t);
    LeftWithout(n.pcs, s.pcs.Keys, t);
    LeftUnchanged(s.pcs, n.pcs, s.pcs.Keys - {t});
  }

  /** From every state that can be reached, all orders that have begun can be finished: a schedule of at
      most five further steps for each thread makes every thread idle. */
  lemma {:induction false} OrdersCanFinish(acts: seq<Action>) returns (more: seq<Action>)
    ensures forall i | 0 <= i < |more| :: more[i].Go?
    ensures |more| == Left(Run(acts).pcs, Run(acts).pcs.Keys)
    ensures forall t: nat :: At(Run(acts + more), t).Idle?
    decreases Left(Run(acts).pcs, Run(acts).pcs.Keys)
  {
    var s := Run(acts);
    if t: nat :| !At(s, t).Idle? {
      SomeThreadCanStep(acts, t);
      var u: nat :| !At(s, u).Idle? && Enabled(s, Go(u));
      var next := acts + [Go(u)];
      assert next[..|next| - 1] == acts;
      hide Left, Enabled, Step;
      StepBringsNearer(s, u);
      var rest := OrdersCanFinish(next);
      more := [Go(u)] + rest;
      assert acts + more == next + rest;
    } else {
      more := [];
      assert acts + more == acts;
      forall t | t in s.pcs ensures s.pcs[t].Idle? { assert At(s, t).Idle?; }
      NothingLeft(s.pcs, s.pcs.Keys);
    }
  }

  lemma {:induction false} NothingLeft(pcs: map<nat, PC>, threads: set<nat>)
    requires forall t | t in threads :: t in pcs && pcs[t].Idle?
    ensures Left(pcs, threads) == 0
  {
    if threads != {} {
      var t :| t in threads && Left(pcs, threads) == Remaining(pcs[t]) + Left(pcs, threads - {t});
      NothingLeft(pcs, threads - {t});
    }
  }
}
