/** Redeem and Prune taken apart into their filesystem steps and interleaved
    (internal/enroll/store.go:96-133, 165-185).

    Any number of callers, in any number of processes, are each somewhere in the middle of a call.
    One step of one caller touches the directory once; between any two steps any set of callers may
    be lost to a crash. A pruner is allowed to read and remove in any order, which covers the order
    of the code. */
module TokenProtocol {
  import opened GoStrings
  import Sets
  import opened Tokens

  type Tid = nat

  /** Where a caller stands. */
  datatype Pc =
    | ReadPending(q: Request)
    | ReadRedeemed(q: Request)
    | Claim(q: Request, rec: Record)
    | WriteRedeemed(q: Request, rec: Record)
    | RemoveClaim(q: Request, rec: Record)
    | Done(q: Request, result: Result<Record, Error>)
    | Pruning(cutoff: int, recs: set<Record>)

  datatype World = World(files: Files, callers: map<Tid, Pc>)

  datatype Step =
    | Issue(order: Order)
    | Start(t: Tid, q: Request)
    | StartPrune(t: Tid, cutoff: int)
    | Advance(t: Tid)
    | PruneRead(t: Tid, id: Id, fromPending: bool)
    | PruneRemove(t: Tid, rec: Record, fromPending: bool)
    | Fail(t: Tid)
    | Crash(lost: set<Tid>)

  function AfterRead(rec: Record, q: Request): Pc {
    match Verify(rec, q)
    case Ok(_) => Claim(q, rec)
    case Err(e) => Done(q, Err(e))
  }

  /** One filesystem access of one Redeem call. */
  function AdvanceCall(f: Files, pc: Pc): (Files, Pc) {
    match pc
    case ReadPending(q) =>
      (f, if q.id in f.pending then AfterRead(f.pending[q.id], q) else ReadRedeemed(q))
    case ReadRedeemed(q) =>
      (f, if q.id in f.redeemed then AfterRead(f.redeemed[q.id], q) else Done(q, Err(UnknownToken)))
    case Claim(q, rec) =>
      if q.id in f.pending
      then (f.(pending := f.pending - {q.id}, claiming := f.claiming[q.id := f.pending[q.id]]),
            WriteRedeemed(q, Stamp(rec, q)))
      else (f, Done(q, Err(UnknownToken)))
    case WriteRedeemed(q, rec) => (f.(redeemed := f.redeemed[q.id := rec]), RemoveClaim(q, rec))
    case RemoveClaim(q, rec) => (f.(claiming := f.claiming - {q.id}), Done(q, Ok(rec)))
    case Done(_, _) => (f, pc)
    case Pruning(_, _) => (f, pc)
  }

  function Issued(o: Order): Option<Record> {
    match NewRecord(o)
    case Ok(rec) => if SafeId(rec.id) then Some(rec) else None
    case Err(_) => None
  }

  function Next(w: World, s: Step): World {
    match s
    case Issue(o) =>
      var rec := Issued(o);
      if rec.Some? then w.(files := PutSpec(w.files, rec.value).0) else w
    case Start(t, q) =>
      if t in w.callers then w
      else w.(callers := w.callers[t := if SafeId(q.id) then ReadPending(q) else Done(q, Err(UnknownToken))])
    case StartPrune(t, cutoff) =>
      if t in w.callers then w else w.(callers := w.callers[t := Pruning(cutoff, {})])
    case Advance(t) =>
      if t !in w.callers then w
      else
        var (f, pc) := AdvanceCall(w.files, w.callers[t]);
        World(f, w.callers[t := pc])
    case PruneRead(t, id, fromPending) =>
      var dir := if fromPending then w.files.pending else w.files.redeemed;
      if t in w.callers && w.callers[t].Pruning? && id in dir
      then w.(callers := w.callers[t := Pruning(w.callers[t].cutoff, w.callers[t].recs + {dir[id]})])
      else w
    case PruneRemove(t, rec, fromPending) =>
      if Removes(w, t, rec)
      then w.(files := if fromPending then w.files.(pending := w.files.pending - {rec.id})
                       else w.files.(redeemed := w.files.redeemed - {rec.id}))
      else w
    case Fail(t) =>
      if t in w.callers && !w.callers[t].Done? && !w.callers[t].Pruning?
      then w.(callers := w.callers[t := Done(w.callers[t].q, Err(IoError))])
      else w
    case Crash(lost) => w.(callers := w.callers - lost)
  }

  /** A pruner removes only records it has read and found stale. */
  predicate Removes(w: World, t: Tid, rec: Record) {
    t in w.callers && w.callers[t].Pruning? && rec in w.callers[t].recs && Stale(rec, w.callers[t].cutoff)
  }

  function Run(w: World, steps: seq<Step>): World
    decreases |steps|
  {
    if steps == [] then w else Run(Next(w, steps[0]), steps[1..])
  }

  const START := World(EMPTY, map[])

  // ---------- counting ----------

  predicate IssuesId(s: Step, id: Id) {
    s.Issue? && Issued(s.order).Some? && s.order.id == id
  }

  /** How often a token with this id was put. */
  function Puts(steps: seq<Step>, id: Id): nat {
    if steps == [] then 0 else (if IssuesId(steps[0], id) then 1 else 0) + Puts(steps[1..], id)
  }

  predicate Succeeds(w: World, s: Step, id: Id) {
    s.Advance? && s.t in w.callers && w.callers[s.t].RemoveClaim? && w.callers[s.t].q.id == id
  }

  /** How many Redeem calls for this id returned a record during the run. */
  function Successes(w: World, steps: seq<Step>, id: Id): nat
    decreases |steps|
  {
    if steps == [] then 0
    else (if Succeeds(w, steps[0], id) then 1 else 0) + Successes(Next(w, steps[0]), steps[1..], id)
  }

  predicate Holds(pc: Pc, id: Id) {
    (pc.WriteRedeemed? || pc.RemoveClaim?) && pc.q.id == id
  }

  /** Callers that have claimed the token and not yet returned. */
  function Holders(w: World, id: Id): set<Tid> {
    set t | t in w.callers && Holds(w.callers[t], id)
  }

  function Waiting(w: World, id: Id): nat {
    if id in w.files.pending then 1 else 0
  }

  /** Steps that can lose a token or a caller. */
  predicate Lossy(s: Step) {
    s.PruneRemove? || s.Fail? || s.Crash?
  }

  /** One step of the accounting: a claim moves one unit from the directory to a caller, a return moves
      it to the successes, and nothing creates a unit but a put. */
  lemma StepAccount(w: World, s: Step, id: Id)
    ensures var w' := Next(w, s);
            var before := Waiting(w, id) + |Holders(w, id)| + (if IssuesId(s, id) then 1 else 0);
            var after := Waiting(w', id) + |Holders(w', id)| + (if Succeeds(w, s, id) then 1 else 0);
            && after <= before
            && (!Lossy(s) && !(IssuesId(s, id) && id in w.files.pending) ==> after == before)
  {
    var w' := Next(w, s);
    var h, h' := Holders(w, id), Holders(w', id);
    match s
    case Issue(_) =>
      assert h' == h;
    case Start(t, q) =>
      assert h' == h;
    case StartPrune(t, cutoff) =>
      assert h' == h;
    case Advance(t) =>
      if t in w.callers {
        AdvanceAccount(w, t, id);
      }
    case PruneRead(t, _, _) =>
      assert h' == h;
    case PruneRemove(_, _, _) =>
      assert h' == h;
    case Fail(t) =>
      Sets.SubsetSize(h', h);
    case Crash(lost) =>
      Sets.SubsetSize(h', h);
  }

  lemma AdvanceAccount(w: World, t: Tid, id: Id)
    requires t in w.callers
    ensures var w' := Next(w, Advance(t));
            Waiting(w', id) + |Holders(w', id)| + (if Succeeds(w, Advance(t), id) then 1 else 0)
            == Waiting(w, id) + |Holders(w, id)|
  {
    var w' := Next(w, Advance(t));
    var pc, pc' := w.callers[t], w'.callers[t];
    var h, h' := Holders(w, id), Holders(w', id);
    if Holds(pc', id) == Holds(pc, id) {
      assert h' == h;
    } else if Holds(pc', id) {
      assert h' == h + {t};
    } else {
      assert h == h' + {t};
    }
  }

  /** Conservation: whatever the interleaving, crashes included, successes never exceed puts. */
  lemma {:induction false} Conservation(w: World, steps: seq<Step>, id: Id)
    ensures Successes(w, steps, id) + Waiting(Run(w, steps), id) + |Holders(Run(w, steps), id)|
            <= Puts(steps, id) + Waiting(w, id) + |Holders(w, id)|
    decreases |steps|
  {
    if steps != [] {
      StepAccount(w, steps[0], id);
      Conservation(Next(w, steps[0]), steps[1..], id);
    }
  }

  /** One put, at most one successful redemption, over all runs from a store with any content
      in which this token is not lying about already. */
  lemma OnePutOneRedemption(f: Files, steps: seq<Step>, id: Id)
    requires id !in f.pending
    ensures Successes(World(f, map[]), steps, id) <= Puts(steps, id)
  {
    Conservation(World(f, map[]), steps, id);
    assert Holders(World(f, map[]), id) == {};
  }

  /** Without crashes, I/O failures and removals the account balances exactly: a put token is
      pending, held, or redeemed. */
  lemma {:induction false} NothingIsLost(w: World, steps: seq<Step>, id: Id)
    requires forall i :: 0 <= i < |steps| ==> !Lossy(steps[i])
    requires Puts(steps, id) <= 1 && (Puts(steps, id) == 1 ==> id !in w.files.pending)
    ensures Successes(w, steps, id) + Waiting(Run(w, steps), id) + |Holders(Run(w, steps), id)|
            == Puts(steps, id) + Waiting(w, id) + |Holders(w, id)|
    decreases |steps|
  {
    if steps != [] {
      StepAccount(w, steps[0], id);
      var w' := Next(w, steps[0]);
      if Puts(steps[1..], id) == 1 { NotPending(w, steps[0], id); }
      NothingIsLost(w', steps[1..], id);
    }
  }

  lemma NotPending(w: World, s: Step, id: Id)
    requires id !in w.files.pending && !IssuesId(s, id)
    ensures id !in Next(w, s).files.pending
  {
  }

  /** In a run without losses, once a token that was put is no longer pending and nobody is in the middle of
      claiming it, exactly one redemption has succeeded. */
  lemma ExactlyOneWinner(steps: seq<Step>, id: Id)
    requires forall i :: 0 <= i < |steps| ==> !Lossy(steps[i])
    requires Puts(steps, id) == 1
    requires id !in Run(START, steps).files.pending && Holders(Run(START, steps), id) == {}
    ensures Successes(START, steps, id) == 1
  {
    NothingIsLost(START, steps, id);
    assert Holders(START, id) == {};
  }

  // ---------- what the records in the directory are ----------

  /** Ids are random: no id is put twice. */
  ghost predicate DistinctPuts(steps: seq<Step>) {
    forall id :: Puts(steps, id) <= 1
  }

  /** The record of each put so far. */
  function Book(steps: seq<Step>): map<Id, Record> {
    if steps == [] then map[]
    else
      var s := steps[|steps| - 1];
      var book := Book(steps[..|steps| - 1]);
      if s.Issue? && Issued(s.order).Some? then book[s.order.id := Issued(s.order).value] else book
  }

  /** The put record, or that record stamped by somebody who claimed it. */
  predicate StampOf(rec: Record, original: Record) {
    rec.Spent() && rec.(redeemedAt := None, redeemedBy := original.redeemedBy) == original
  }

  predicate PcAgrees(book: map<Id, Record>, f: Files, pc: Pc) {
    match pc
    case ReadPending(_) => true
    case ReadRedeemed(q) => true
    case Claim(q, rec) => q.id in book && rec == book[q.id] && Verify(rec, q).Ok?
    case WriteRedeemed(q, rec) =>
      q.id in book && rec == Stamp(book[q.id], q) && Verify(book[q.id], q).Ok? && q.id !in f.pending
    case RemoveClaim(q, rec) =>
      q.id in book && rec == Stamp(book[q.id], q) && Verify(book[q.id], q).Ok? && q.id !in f.pending
    case Done(q, result) =>
      if result.Ok?
      then q.id in book && result.value == Stamp(book[q.id], q) && Verify(book[q.id], q).Ok?
      else result.error == IoError || result.error == UnknownToken
           || (q.id in book && Verify(book[q.id], q).Err? && Verify(book[q.id], q).error == result.error)
    case Pruning(_, recs) =>
      forall r | r in recs ::
        && r.id in book
        && (r == book[r.id] || (StampOf(r, book[r.id]) && r.id !in f.pending))
  }

  ghost predicate Agrees(book: map<Id, Record>, w: World) {
    && (forall id :: id in book ==> book[id].id == id && !book[id].Spent())
    && (forall id :: id in w.files.pending ==> id in book && w.files.pending[id] == book[id])
    && (forall id :: id in w.files.redeemed ==>
          id in book && StampOf(w.files.redeemed[id], book[id]) && id !in w.files.pending)
    && (forall t :: t in w.callers ==> PcAgrees(book, w.files, w.callers[t]))
  }

  lemma AgreesIssue(book: map<Id, Record>, w: World, o: Order)
    requires Agrees(book, w) && Issued(o).Some? && o.id !in book
    ensures Agrees(book[o.id := Issued(o).value], Next(w, Issue(o)))
  {
    var book', w' := book[o.id := Issued(o).value], Next(w, Issue(o));
    forall t | t in w'.callers ensures PcAgrees(book', w'.files, w'.callers[t]) {
      assert PcAgrees(book, w.files, w.callers[t]);
    }
  }

  /** Taking files away from pending, or stamping a record already claimed, disturbs no other caller. */
  lemma PcUndisturbed(book: map<Id, Record>, f: Files, f': Files, pc: Pc)
    requires PcAgrees(book, f, pc) && f'.pending.Keys <= f.pending.Keys
    ensures PcAgrees(book, f', pc)
  {
  }

  lemma AgreesAdvance(book: map<Id, Record>, w: World, t: Tid)
    requires Agrees(book, w) && t in w.callers
    ensures Agrees(book, Next(w, Advance(t)))
  {
    var w' := Next(w, Advance(t));
    assert PcAgrees(book, w.files, w.callers[t]);
    forall u | u in w'.callers ensures PcAgrees(book, w'.files, w'.callers[u]) {
      if u != t {
        assert PcAgrees(book, w.files, w.callers[u]);
        PcUndisturbed(book, w.files, w'.files, w.callers[u]);
      }
    }
  }

  lemma AgreesOther(book: map<Id, Record>, w: World, s: Step)
    requires Agrees(book, w) && !s.Issue? && !s.Advance?
    ensures Agrees(book, Next(w, s))
  {
    hide AdvanceCall, AfterRead, Verify, Issued;
    var w' := Next(w, s);
    forall u | u in w'.callers ensures PcAgrees(book, w'.files, w'.callers[u]) {
      if u in w.callers {
        assert PcAgrees(book, w.files, w.callers[u]);
        PcUndisturbed(book, w.files, w'.files, w.callers[u]);
      }
    }
  }

  lemma {:induction false} PutsOfPrefix(steps: seq<Step>, id: Id)
    requires steps != []
    ensures Puts(steps, id) == Puts(steps[..|steps| - 1], id) + (if IssuesId(steps[|steps| - 1], id) then 1 else 0)
  {
    var front := steps[..|steps| - 1];
    if front != [] {
      assert front[1..] == steps[1..][..|steps| - 2];
      PutsOfPrefix(steps[1..], id);
    }
  }

  lemma {:induction false} BookKeys(steps: seq<Step>, id: Id)
    ensures id in Book(steps) <==> Puts(steps, id) > 0
  {
    if steps != [] {
      PutsOfPrefix(steps, id);
      BookKeys(steps[..|steps| - 1], id);
    }
  }

  lemma {:induction false} RunLast(w: World, steps: seq<Step>)
    requires steps != []
    ensures Run(w, steps) == Next(Run(w, steps[..|steps| - 1]), steps[|steps| - 1])
    decreases |steps|
  {
    var front := steps[..|steps| - 1];
    if front != [] {
      assert front[1..] == steps[1..][..|steps| - 2];
      RunLast(Next(w, steps[0]), steps[1..]);
    }
  }

  /** In every run with distinct ids, every file and every caller agrees with what was put. */
  lemma {:induction false} RunAgrees(steps: seq<Step>)
    requires DistinctPuts(steps)
    ensures Agrees(Book(steps), Run(START, steps))
    decreases |steps|
  {
    if steps != [] {
      var front, s := steps[..|steps| - 1], steps[|steps| - 1];
      forall id ensures Puts(front, id) <= 1 { PutsOfPrefix(steps, id); }
      RunAgrees(front);
      RunLast(START, steps);
      var w := Run(START, front);
      if s.Issue? {
        if Issued(s.order).Some? {
          PutsOfPrefix(steps, s.order.id);
          BookKeys(front, s.order.id);
          AgreesIssue(Book(front), w, s.order);
        }
      } else if s.Advance? {
        if s.t in w.callers { AgreesAdvance(Book(front), w, s.t); }
      } else {
        AgreesOther(Book(front), w, s);
      }
    }
  }

  // ---------- main results that need distinct ids ----------

  predicate Presented(steps: seq<Step>, q: Request) {
    q.id in Book(steps) && Presents(q, Book(steps)[q.id])
  }

  lemma {:induction false} NoFailureNoIoError(steps: seq<Step>)
    requires forall i :: 0 <= i < |steps| ==> !steps[i].Fail?
    ensures forall t :: t in Run(START, steps).callers && Run(START, steps).callers[t].Done? ==>
              Run(START, steps).callers[t].result != Err(IoError)
    decreases |steps|
  {
    if steps != [] {
      NoFailureNoIoError(steps[..|steps| - 1]);
      RunLast(START, steps);
    }
  }

  /** A winner presented the right secret at the right broker inside the window and holds the put record,
      stamped with its own redemption. A loser who presented all that hears "unknown" and nothing else. */
  lemma WinnersAndLosers(steps: seq<Step>, t: Tid)
    requires DistinctPuts(steps)
    requires forall i :: 0 <= i < |steps| ==> !steps[i].Fail?
    requires t in Run(START, steps).callers && Run(START, steps).callers[t].Done?
    ensures var Done(q, result) := Run(START, steps).callers[t];
            && (result.Ok? ==> Presented(steps, q) && result.value == Stamp(Book(steps)[q.id], q))
            && (result.Err? && Presented(steps, q) ==> result == Err(UnknownToken))
  {
    RunAgrees(steps);
    NoFailureNoIoError(steps);
    var w := Run(START, steps);
    assert PcAgrees(Book(steps), w.files, w.callers[t]);
  }

  /** What a pruner takes out of pending is refused by every redemption whose clock stands at its cutoff or later. */
  lemma PruneTakesOnlyTheExpired(steps: seq<Step>, t: Tid, rec: Record, q: Request)
    requires DistinctPuts(steps)
    requires var w := Run(START, steps); Removes(w, t, rec) && rec.id in w.files.pending
    requires q.id == rec.id && q.now >= Run(START, steps).callers[t].cutoff
    ensures Verify(Run(START, steps).files.pending[rec.id], q).Err?
  {
    RunAgrees(steps);
    var w := Run(START, steps);
    assert PcAgrees(Book(steps), w.files, w.callers[t]);
  }

  /** The clock a redemption took when it began may be older: such a caller can lose its token to a pruner. */
  lemma InFlightMayLose(o: Order, caller: string)
    requires Issued(o).Some?
    ensures var rec := Issued(o).value;
            var q := Request(o.id, o.secret, o.caFingerprint, caller, o.now);
            var cutoff := rec.notAfter + 1;
            var steps := [Issue(o), Start(0, q), Advance(0), StartPrune(1, cutoff), PruneRead(1, o.id, true),
                          PruneRemove(1, rec, true), Advance(0)];
            Presents(q, rec) && 0 in Run(START, steps).callers
            && Run(START, steps).callers[0] == Done(q, Err(UnknownToken))
  {
    var rec := Issued(o).value;
    var q := Request(o.id, o.secret, o.caFingerprint, caller, o.now);
    var cutoff := rec.notAfter + 1;
    var w1 := Next(START, Issue(o));
    var w2 := Next(w1, Start(0, q));
    var w3 := Next(w2, Advance(0));
    assert w3.callers[0] == Claim(q, rec);
    var w4 := Next(w3, StartPrune(1, cutoff));
    var w5 := Next(w4, PruneRead(1, o.id, true));
    var w6 := Next(w5, PruneRemove(1, rec, true));
    assert o.id !in w6.files.pending;
    var w7 := Next(w6, Advance(0));
    var steps := [Issue(o), Start(0, q), Advance(0), StartPrune(1, cutoff), PruneRead(1, o.id, true),
                  PruneRemove(1, rec, true), Advance(0)];
    RunSeven(START, steps);
  }

  lemma RunSeven(w: World, s: seq<Step>)
    requires |s| == 7
    ensures Run(w, s) == Next(Next(Next(Next(Next(Next(Next(w, s[0]), s[1]), s[2]), s[3]), s[4]), s[5]), s[6])
  {
    var t := s[..6];
    RunLast(w, s);
    RunSix(w, t);
  }

  lemma RunSix(w: World, s: seq<Step>)
    requires |s| == 6
    ensures Run(w, s) == Next(Next(Next(Next(Next(Next(w, s[0]), s[1]), s[2]), s[3]), s[4]), s[5])
  {
    RunLast(w, s);
    RunLast(w, s[..5]);
    RunLast(w, s[..5][..4]);
    RunLast(w, s[..5][..4][..3]);
    RunLast(w, s[..5][..4][..3][..2]);
    RunLast(w, s[..5][..4][..3][..2][..1]);
  }

  /** A call nobody interferes with runs through its steps to the state and answer of the sequential Redeem. */
  lemma AloneIsRedeem(f: Files, t: Tid, q: Request)
    ensures Run(World(f, map[]), [Start(t, q), Advance(t), Advance(t), Advance(t), Advance(t), Advance(t)])
            == World(RedeemSpec(f, q).0, map[t := Done(q, RedeemSpec(f, q).1)])
  {
    var w := World(f, map[]);
    var w1 := Next(w, Start(t, q));
    var w2 := Next(w1, Advance(t));
    var w3 := Next(w2, Advance(t));
    var w4 := Next(w3, Advance(t));
    var w5 := Next(w4, Advance(t));
    var w6 := Next(w5, Advance(t));
    RunSix(w, [Start(t, q), Advance(t), Advance(t), Advance(t), Advance(t), Advance(t)]);
    AloneFiles(f, q);
    var start := if SafeId(q.id) then ReadPending(q) else Done(q, Err(UnknownToken));
    assert w1.callers == map[t := start];
    assert w6.callers == map[t := w6.callers[t]];
  }

  /** The five accesses of one call, without the table of callers. */
  lemma AloneFiles(f: Files, q: Request)
    ensures var start := if SafeId(q.id) then ReadPending(q) else Done(q, Err(UnknownToken));
            var (f1, p1) := AdvanceCall(f, start);
            var (f2, p2) := AdvanceCall(f1, p1);
            var (f3, p3) := AdvanceCall(f2, p2);
            var (f4, p4) := AdvanceCall(f3, p3);
            var (f5, p5) := AdvanceCall(f4, p4);
            (f5, p5) == (RedeemSpec(f, q).0, Done(q, RedeemSpec(f, q).1))
  {
    if q.id in f.pending {
      assert f.claiming[q.id := f.pending[q.id]] - {q.id} == f.claiming - {q.id};
    }
  }

  // ---------- a pruner on its own ----------

  /** Every record is filed under its own id. */
  ghost predicate Filed(f: Files) {
    && (forall id | id in f.pending :: f.pending[id].id == id)
    && (forall id | id in f.redeemed :: f.redeemed[id].id == id)
  }

  lemma {:induction false} RunAppend(w: World, a: seq<Step>, b: seq<Step>)
    ensures Run(w, a + b) == Run(Run(w, a), b)
    decreases |a|
  {
    if a == [] {
      assert a + b == b;
    } else {
      assert (a + b)[1..] == a[1..] + b;
      RunAppend(Next(w, a[0]), a[1..], b);
    }
  }

  /** Reading one stale record and removing both its files. */
  lemma PruneOne(f: Files, t: Tid, cutoff: int, recs: set<Record>, id: Id)
    requires Filed(f) && SafeId(id) && (id in f.pending || id in f.redeemed) && Stale(GetSpec(f, id).value, cutoff)
    ensures var rec := GetSpec(f, id).value;
            Run(World(f, map[t := Pruning(cutoff, recs)]),
                [PruneRead(t, id, id in f.pending), PruneRemove(t, rec, true), PruneRemove(t, rec, false)])
            == World(Without(f, {id}), map[t := Pruning(cutoff, recs + {rec})])
  {
    var rec := GetSpec(f, id).value;
    ReadOne(f, t, cutoff, recs, id);
    RemoveBoth(f, t, Pruning(cutoff, recs + {rec}), rec);
    hide Next, Run, GetSpec, Without, Filed, SafeId, Stale;
    RunThree(World(f, map[t := Pruning(cutoff, recs)]), PruneRead(t, id, id in f.pending), PruneRemove(t, rec, true),
             PruneRemove(t, rec, false));
  }

  lemma ReadOne(f: Files, t: Tid, cutoff: int, recs: set<Record>, id: Id)
    requires Filed(f) && SafeId(id) && (id in f.pending || id in f.redeemed) && Stale(GetSpec(f, id).value, cutoff)
    ensures var rec := GetSpec(f, id).value;
            && rec.id == id
            && Next(World(f, map[t := Pruning(cutoff, recs)]), PruneRead(t, id, id in f.pending))
               == World(f, map[t := Pruning(cutoff, recs + {rec})])
  {
    hide SafeId;
  }

  lemma RemoveBoth(f: Files, t: Tid, pc: Pc, rec: Record)
    requires pc.Pruning? && rec in pc.recs && Stale(rec, pc.cutoff)
    ensures Next(Next(World(f, map[t := pc]), PruneRemove(t, rec, true)), PruneRemove(t, rec, false))
            == World(Without(f, {rec.id}), map[t := pc])
  {
    var g := f.(pending := f.pending - {rec.id});
    assert Next(World(f, map[t := pc]), PruneRemove(t, rec, true)) == World(g, map[t := pc]);
  }

  lemma RunThree(w: World, a: Step, b: Step, c: Step)
    ensures Run(w, [a, b, c]) == Next(Next(Next(w, a), b), c)
  {
    assert [a, b, c][1..] == [b, c] && [b, c][1..] == [c] && [c][1..] == [];
    assert Run(Next(w, a), [b, c]) == Run(Next(Next(w, a), b), [c]);
  }

  lemma {:induction false} PruneEach(f: Files, t: Tid, cutoff: int, recs: set<Record>, ids: set<Id>)
    returns (steps: seq<Step>, read: set<Record>)
    requires Filed(f) && forall id | id in ids ::
               SafeId(id) && (id in f.pending || id in f.redeemed) && Stale(GetSpec(f, id).value, cutoff)
    ensures Run(World(f, map[t := Pruning(cutoff, recs)]), steps)
            == World(Without(f, ids), map[t := Pruning(cutoff, read)])
    decreases ids
  {
    var w := World(f, map[t := Pruning(cutoff, recs)]);
    if ids == {} {
      steps, read := [], recs;
      WithoutNothing(f);
    } else {
      var id :| id in ids;
      var rec := GetSpec(f, id).value;
      var g := Without(f, {id});
      PruneOne(f, t, cutoff, recs, id);
      hide Run;
      var rest;
      rest, read := PruneEach(g, t, cutoff, recs + {rec}, ids - {id});
      var first := [PruneRead(t, id, id in f.pending), PruneRemove(t, rec, true), PruneRemove(t, rec, false)];
      RunAppend(w, first, rest);
      steps := first + rest;
      WithoutMore(f, {id}, ids - {id});
      assert {id} + (ids - {id}) == ids;
    }
  }

  /** What a pruner may do step by step includes all that the sequential Prune does: alone, it can run to
      exactly the files that leaves. */
  lemma AloneIsPrune(f: Files, t: Tid, cutoff: int) returns (steps: seq<Step>, read: set<Record>)
    requires Filed(f)
    ensures Run(World(f, map[]), [StartPrune(t, cutoff)] + steps)
            == World(PruneSpec(f, cutoff), map[t := Pruning(cutoff, read)])
  {
    steps, read := PruneEach(f, t, cutoff, {}, StaleIds(f, cutoff));
    var w := World(f, map[]);
    assert ([StartPrune(t, cutoff)] + steps)[1..] == steps;
    assert Next(w, StartPrune(t, cutoff)) == World(f, map[t := Pruning(cutoff, {})]);
  }
}
