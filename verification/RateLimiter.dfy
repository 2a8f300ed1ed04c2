/** The enrolment rate limiter (internal/brokerapi/ratelimit.go).

    Times are nanoseconds. The window is a fixed one, anchored at a key's first attempt;
    the map of counters is bounded and evicts what has aged out. */
module RateLimiter {
  import opened GoStrings
  import Sets

  const DEFAULT_WINDOW := 3_600_000_000_000
  const MAX_BUCKETS := 4096
  const MAX_DURATION := 0x7fff_ffff_ffff_ffff

  type Key = string

  datatype Bucket = Bucket(count: int, first: int)

  type Buckets = map<Key, Bucket>

  /** time.Time.Sub saturates at the ends of the duration range. */
  function Sub(later: int, earlier: int): int {
    var d := later - earlier;
    if d > MAX_DURATION then MAX_DURATION
    else if d < -MAX_DURATION - 1 then -MAX_DURATION - 1
    else d
  }

  predicate Expired(b: Bucket, window: int, now: int) {
    Sub(now, b.first) > window
  }

  /** The counters still inside their window. */
  function Live(m: Buckets, window: int, now: int): Buckets {
    map k | k in m && !Expired(m[k], window, now) :: m[k]
  }

  datatype Limits = Limits(limit: int, window: int)

  /** One attempt against one counter, with no bound on how many counters there are. */
  function Attempt(b: Option<Bucket>, l: Limits, now: int): (Bucket, bool) {
    if b.None? || Expired(b.value, l.window, now) then (Bucket(1, now), true)
    else (Bucket(b.value.count + 1, b.value.first), b.value.count + 1 <= l.limit)
  }

  function Lookup(m: Buckets, key: Key): Option<Bucket> {
    if key in m then Some(m[key]) else None
  }

  /** Allow as the code does it: the whole new map and the answer. */
  function AllowStep(m: Buckets, l: Limits, key: Key, now: int): (Buckets, bool) {
    if l.limit <= 0 then (m, true)
    else if key !in m then
      var room := if |m| >= MAX_BUCKETS then Live(m, l.window, now) else m;
      if |room| >= MAX_BUCKETS then (room, false) else (room[key := Bucket(1, now)], true)
    else
      var (b, answer) := Attempt(Some(m[key]), l, now);
      (m[key := b], answer)
  }

  class RateLimiter {
    var buckets: Buckets
    const limits: Limits

    constructor (limit: int, window: int)
      ensures buckets == map[]
      ensures limits == Limits(limit, if window <= 0 then DEFAULT_WINDOW else window)
    {
      buckets := map[];
      limits := Limits(limit, if window <= 0 then DEFAULT_WINDOW else window);
    }

    method Allow(key: Key, now: int) returns (answer: bool)
      modifies this
      ensures (buckets, answer) == AllowStep(old(buckets), limits, key, now)
    {
      if limits.limit <= 0 {
        return true;
      }
      if key !in buckets {
        if |buckets| >= MAX_BUCKETS {
          EvictExpired(now);
          if |buckets| >= MAX_BUCKETS {
            return false;
          }
        }
        buckets := buckets[key := Bucket(1, now)];
        return true;
      }
      var b := buckets[key];
      if Sub(now, b.first) > limits.window {
        buckets := buckets[key := Bucket(1, now)];
        return true;
      }
      buckets := buckets[key := Bucket(b.count + 1, b.first)];
      return b.count + 1 <= limits.limit;
    }

    /** The loop deletes from the map it walks over, in whatever order the keys come. */
    method EvictExpired(now: int)
      modifies this
      ensures buckets == Live(old(buckets), limits.window, now)
    {
      var todo := buckets.Keys;
      while todo != {}
        invariant todo <= old(buckets).Keys
        invariant buckets == map k | k in old(buckets) &&
                                     (k in todo || !Expired(old(buckets)[k], limits.window, now)) :: old(buckets)[k]
        decreases todo
      {
        var k :| k in todo;
        if Sub(now, buckets[k].first) > limits.window {
          buckets := buckets - {k};
        }
        todo := todo - {k};
      }
    }

    method Prune(now: int) returns (dropped: int)
      modifies this
      ensures buckets == Live(old(buckets), limits.window, now)
      ensures dropped == |old(buckets)| - |buckets| >= 0
    {
      var before := |buckets|;
      EvictExpired(now);
      LiveIsSmaller(old(buckets), limits.window, now);
      dropped := before - |buckets|;
    }
  }

  // ---------- facts about the live part ----------

  lemma MapCard<K, V>(a: map<K, V>, b: map<K, V>)
    requires a.Keys <= b.Keys
    ensures |a| <= |b|
  {
    Sets.SubsetSize(a.Keys, b.Keys);
    assert |a.Keys| == |a| && |b.Keys| == |b|;
  }

  lemma LiveIsSmaller(m: Buckets, window: int, now: int)
    ensures |Live(m, window, now)| <= |m|
  {
    MapCard(Live(m, window, now), m);
  }

  /** What has expired stays expired. */
  lemma LiveOfLive(m: Buckets, window: int, now: int, later: int)
    requires now <= later
    ensures Live(Live(m, window, now), window, later) == Live(m, window, later)
  {
  }

  // ---------- runs ----------

  datatype Event = Call(key: Key, at: int) | Sweep(at: int)

  ghost predicate Ordered(evs: seq<Event>) {
    forall i, j :: 0 <= i < j < |evs| ==> evs[i].at <= evs[j].at
  }

  ghost predicate NotBefore(evs: seq<Event>, t: int) {
    forall i :: 0 <= i < |evs| ==> t <= evs[i].at
  }

  function StepMap(m: Buckets, l: Limits, e: Event): Buckets {
    match e
    case Call(key, at) => AllowStep(m, l, key, at).0
    case Sweep(at) => Live(m, l.window, at)
  }

  /** The map after a run from m. */
  function RunMap(m: Buckets, l: Limits, evs: seq<Event>): Buckets
    decreases |evs|
  {
    if evs == [] then m else RunMap(StepMap(m, l, evs[0]), l, evs[1..])
  }

  /** The answers of a run, one for each call. */
  function Answers(m: Buckets, l: Limits, evs: seq<Event>): seq<bool>
    decreases |evs|
  {
    if evs == [] then []
    else (match evs[0]
          case Call(key, at) => [AllowStep(m, l, key, at).1]
          case Sweep(_) => []) + Answers(StepMap(m, l, evs[0]), l, evs[1..])
  }

  function WithoutSweeps(evs: seq<Event>): seq<Event> {
    if evs == [] then []
    else (if evs[0].Call? then [evs[0]] else []) + WithoutSweeps(evs[1..])
  }

  /** The map never grows past its bound. */
  lemma {:induction false} NeverOverCap(m: Buckets, l: Limits, evs: seq<Event>)
    requires |m| <= MAX_BUCKETS
    ensures |RunMap(m, l, evs)| <= MAX_BUCKETS
    decreases |evs|
  {
    if evs != [] {
      var e := evs[0];
      LiveIsSmaller(m, l.window, e.at);
      NeverOverCap(StepMap(m, l, e), l, evs[1..]);
    }
  }

  // ---------- the simple form: only live counters, no eviction ----------

  /** The limiter a reader has in mind: the counters inside their window, and a bound on those alone. */
  function SpecStep(live: Buckets, l: Limits, key: Key, now: int): (Buckets, bool) {
    if l.limit <= 0 then (live, true)
    else if key !in live && |live| >= MAX_BUCKETS then (live, false)
    else
      var (b, answer) := Attempt(Lookup(live, key), l, now);
      (live[key := b], answer)
  }

  /** One call: the code's answer depends only on the live counters, and so does what is live later. */
  lemma AllowSeesOnlyLive(m: Buckets, l: Limits, key: Key, now: int, later: int)
    requires |m| <= MAX_BUCKETS && now <= later && l.window >= 0
    ensures AllowStep(m, l, key, now).1 == SpecStep(Live(m, l.window, now), l, key, now).1
    ensures Live(AllowStep(m, l, key, now).0, l.window, later)
            == Live(SpecStep(Live(m, l.window, now), l, key, now).0, l.window, later)
  {
    var live := Live(m, l.window, now);
    LiveIsSmaller(m, l.window, now);
    LiveOfLive(m, l.window, now, later);
    if l.limit > 0 {
      var spec := SpecStep(live, l, key, now);
      var code := AllowStep(m, l, key, now);
      if key in m && key !in live {
        // An expired counter still holds a place, so the live ones cannot fill the map.
        Sets.SubsetSize(live.Keys, m.Keys);
        assert |live.Keys| == |live| && |m.Keys| == |m|;
      }
      assert code.1 == spec.1;
      assert Live(code.0, l.window, later) == Live(spec.0, l.window, later);
    }
  }

  /** The counter of k is there and its window has not passed; one of the longest duration never does. */
  predicate Counting(m: Buckets, window: int, k: Key, now: int) {
    k in m && (now - m[k].first <= window || window >= 0x7fff_ffff_ffff_ffff)
  }

  /** Who is let through: everybody without a limit; a key that is counting, up to the limit; any other key,
      if fewer than 4096 are counting. A key that was let in has one more on its count, or one from now on,
      and no other counter has changed or, while counting, gone. */
  lemma AllowExactly(m: Buckets, l: Limits, key: Key, now: int)
    requires |m| <= 4096 && l.window >= 0
    ensures var (next, answer) := AllowStep(m, l, key, now);
            var counting := set k | k in m && Counting(m, l.window, k, now);
            && (answer <==> || l.limit <= 0
                            || (if key in counting then m[key].count < l.limit else |counting| < 4096))
            && (l.limit <= 0 ==> next == m)
            && (l.limit > 0 && (key in counting || |counting| < 4096) ==>
                  key in next && next[key] == if key in counting then Bucket(m[key].count + 1, m[key].first)
                                              else Bucket(1, now))
            && (forall k | k != key && k in counting :: k in next && next[k] == m[k])
            && (forall k | k != key && k in next :: k in m && next[k] == m[k])
  {
    var counting := set k | k in m && Counting(m, l.window, k, now);
    var live := Live(m, l.window, now);
    assert live.Keys == counting;
    assert |live.Keys| == |live|;
    AllowSeesOnlyLive(m, l, key, now, now);
    LiveIsSmaller(m, l.window, now);
  }

  /** Runs that agree on the live counters give the same answers, wherever sweeps are put. */
  lemma {:induction false} SweepsChangeNothing(m: Buckets, n: Buckets, l: Limits, evs: seq<Event>, t: int)
    requires |m| <= MAX_BUCKETS && |n| <= MAX_BUCKETS && l.window >= 0
    requires Ordered(evs) && NotBefore(evs, t)
    requires Live(m, l.window, t) == Live(n, l.window, t)
    ensures Answers(m, l, evs) == Answers(n, l, WithoutSweeps(evs))
    decreases |evs|
  {
    if evs != [] {
      var e, rest := evs[0], evs[1..];
      LiveOfLive(m, l.window, t, e.at);
      LiveOfLive(n, l.window, t, e.at);
      assert Live(m, l.window, e.at) == Live(n, l.window, e.at);
      LiveIsSmaller(m, l.window, e.at);
      LiveIsSmaller(n, l.window, e.at);
      match e {
        case Sweep(at) =>
          LiveOfLive(m, l.window, at, at);
          SweepsChangeNothing(Live(m, l.window, at), n, l, rest, at);
          assert WithoutSweeps(evs) == WithoutSweeps(rest);
          assert Answers(m, l, evs) == [] + Answers(Live(m, l.window, at), l, rest);
        case Call(key, at) =>
          AllowSeesOnlyLive(m, l, key, at, at);
          AllowSeesOnlyLive(n, l, key, at, at);
          SweepsChangeNothing(StepMap(m, l, e), StepMap(n, l, e), l, rest, at);
          assert WithoutSweeps(evs)[0] == e && WithoutSweeps(evs)[1..] == WithoutSweeps(rest);
      }
    }
  }

  /** Sweeping at any moments of a time-ordered run, from any map within the bound, changes no answer. */
  lemma PruneIsInvisible(m: Buckets, l: Limits, evs: seq<Event>)
    requires |m| <= MAX_BUCKETS && l.window >= 0 && Ordered(evs)
    ensures Answers(m, l, evs) == Answers(m, l, WithoutSweeps(evs))
  {
    if evs != [] {
      SweepsChangeNothing(m, m, l, evs, evs[0].at);
    }
  }

  // ---------- one key: the counter without a bound, fed the calls that found room ----------

  /** A new key is turned away when the live counters alone fill the map. */
  predicate RefusedForRoom(m: Buckets, l: Limits, key: Key, now: int) {
    l.limit > 0 && key !in Live(m, l.window, now) && |Live(m, l.window, now)| >= MAX_BUCKETS
  }

  /** The calls of `key` that found room, with their answers. */
  function FedAnswers(m: Buckets, l: Limits, evs: seq<Event>, key: Key): seq<(int, bool)>
    decreases |evs|
  {
    if evs == [] then []
    else
      var rest := FedAnswers(StepMap(m, l, evs[0]), l, evs[1..], key);
      if evs[0].Call? && evs[0].key == key && !RefusedForRoom(m, l, key, evs[0].at)
      then [(evs[0].at, AllowStep(m, l, key, evs[0].at).1)] + rest
      else rest
  }

  function TimesOf(answers: seq<(int, bool)>): seq<int> {
    seq(|answers|, i requires 0 <= i < |answers| => answers[i].0)
  }

  /** A single counter on its own: what it answers to attempts at the given times. */
  function CounterAnswers(c: Option<Bucket>, l: Limits, times: seq<int>): seq<(int, bool)>
    decreases |times|
  {
    if times == [] then []
    else
      var (b, answer) := Attempt(c, l, times[0]);
      [(times[0], answer)] + CounterAnswers(Some(b), l, times[1..])
  }

  /** A counter that has run out counts as none. */
  function Current(c: Option<Bucket>, window: int, now: int): Option<Bucket> {
    if c.Some? && !Expired(c.value, window, now) then c else None
  }

  lemma RoomRefusalIsNo(m: Buckets, l: Limits, key: Key, now: int)
    requires |m| <= MAX_BUCKETS && l.window >= 0 && RefusedForRoom(m, l, key, now)
    ensures !AllowStep(m, l, key, now).1
  {
    AllowSeesOnlyLive(m, l, key, now, now);
  }

  /** One key of a run, whatever the other keys, the sweeps and the evictions do: its answers are
      those of a lone unbounded counter fed the same calls minus those refused for room. */
  lemma {:induction false} KeyIsALoneCounter(m: Buckets, l: Limits, evs: seq<Event>, key: Key,
                                             c: Option<Bucket>, t: int)
    requires |m| <= MAX_BUCKETS && l.limit > 0 && l.window >= 0
    requires Ordered(evs) && NotBefore(evs, t)
    requires Current(c, l.window, t) == Lookup(Live(m, l.window, t), key)
    ensures var fed := FedAnswers(m, l, evs, key);
            fed == CounterAnswers(c, l, TimesOf(fed))
    decreases |evs|
  {
    if evs != [] {
      var e, rest := evs[0], evs[1..];
      LiveOfLive(m, l.window, t, e.at);
      var live := Live(m, l.window, e.at);
      assert Current(c, l.window, e.at) == Lookup(live, key) by { LookupAgesTogether(m, l, key, c, t, e.at); }
      LiveIsSmaller(m, l.window, e.at);
      var next := StepMap(m, l, e);
      match e {
        case Sweep(at) =>
          LiveOfLive(m, l.window, at, at);
          KeyIsALoneCounter(next, l, rest, key, c, at);
        case Call(k, at) =>
          if k != key || RefusedForRoom(m, l, key, at) {
            OtherCall(m, l, k, key, at);
            KeyIsALoneCounter(next, l, rest, key, c, at);
          } else {
            OwnCall(m, l, key, at, c);
            var (b, answer) := Attempt(c, l, at);
            hide Live, Attempt, AllowStep, RefusedForRoom;
            KeyIsALoneCounter(next, l, rest, key, Some(b), at);
            var fed := FedAnswers(m, l, evs, key);
            assert TimesOf(fed)[1..] == TimesOf(FedAnswers(next, l, rest, key));
            assert TimesOf(fed)[0] == at;
          }
      }
    }
  }

  /** A call for another key, or one refused for room, leaves this key's counter as it is. */
  lemma OtherCall(m: Buckets, l: Limits, k: Key, key: Key, at: int)
    requires |m| <= MAX_BUCKETS && l.limit > 0 && l.window >= 0
    requires k != key || RefusedForRoom(m, l, key, at)
    ensures var next := AllowStep(m, l, k, at).0;
            |next| <= MAX_BUCKETS && Lookup(Live(next, l.window, at), key) == Lookup(Live(m, l.window, at), key)
  {
    LiveIsSmaller(m, l.window, at);
    AllowSeesOnlyLive(m, l, k, at, at);
  }

  /** A call that finds room is one attempt of the lone counter. */
  lemma OwnCall(m: Buckets, l: Limits, key: Key, at: int, c: Option<Bucket>)
    requires |m| <= MAX_BUCKETS && l.limit > 0 && l.window >= 0 && !RefusedForRoom(m, l, key, at)
    requires Current(c, l.window, at) == Lookup(Live(m, l.window, at), key)
    ensures var (next, answer) := AllowStep(m, l, key, at);
            && |next| <= MAX_BUCKETS && answer == Attempt(c, l, at).1
            && Current(Some(Attempt(c, l, at).0), l.window, at) == Lookup(Live(next, l.window, at), key)
  {
    var live := Live(m, l.window, at);
    LiveIsSmaller(m, l.window, at);
    AllowSeesOnlyLive(m, l, key, at, at);
    assert Attempt(c, l, at) == Attempt(Lookup(live, key), l, at);
  }

  lemma LookupAgesTogether(m: Buckets, l: Limits, key: Key, c: Option<Bucket>, t: int, later: int)
    requires t <= later && Current(c, l.window, t) == Lookup(Live(m, l.window, t), key)
    ensures Current(c, l.window, later) == Lookup(Live(m, l.window, later), key)
  {
  }

  // ---------- how many in one window length ----------

  /** Attempts answered yes in the closed interval from lo to hi. */
  function YesIn(answers: seq<(int, bool)>, lo: int, hi: int): nat {
    if answers == [] then 0
    else (if answers[0].1 && lo <= answers[0].0 <= hi then 1 else 0) + YesIn(answers[1..], lo, hi)
  }

  function Max(a: int, b: int): int {
    if a < b then b else a
  }

  ghost predicate OrderedFrom(times: seq<int>, t: int) {
    (forall i :: 0 <= i < |times| ==> t <= times[i])
    && forall i, j :: 0 <= i < j < |times| ==> times[i] <= times[j]
  }

  /** Past the interval nothing counts. */
  lemma {:induction false} NothingAfter(c: Option<Bucket>, l: Limits, times: seq<int>, lo: int, hi: int)
    requires OrderedFrom(times, hi + 1)
    ensures YesIn(CounterAnswers(c, l, times), lo, hi) == 0
    decreases |times|
  {
    if times != [] {
      NothingAfter(Some(Attempt(c, l, times[0]).0), l, times[1..], lo, hi);
    }
  }

  /** A window anchored inside the interval is the last one that can count. */
  lemma {:induction false} AnchoredInside(b: Bucket, l: Limits, times: seq<int>, lo: int)
    requires l.window >= 0 && b.first >= lo && OrderedFrom(times, b.first)
    ensures YesIn(CounterAnswers(Some(b), l, times), lo, lo + l.window) <= Max(0, l.limit - b.count)
    decreases |times|
  {
    if times != [] {
      var next := Attempt(Some(b), l, times[0]).0;
      if Expired(b, l.window, times[0]) {
        NothingAfter(Some(b), l, times, lo, lo + l.window);
      } else {
        AnchoredInside(next, l, times[1..], lo);
      }
    }
  }

  /** A window anchored before the interval has spent an attempt outside it; one more window may follow. */
  lemma {:induction false} AnchoredBefore(c: Option<Bucket>, l: Limits, times: seq<int>, lo: int, t: int)
    requires l.window >= 0 && l.limit >= 1 && OrderedFrom(times, t)
    requires c.Some? ==> c.value.first < lo && c.value.count >= 1
    ensures YesIn(CounterAnswers(c, l, times), lo, lo + l.window) <= 2 * l.limit - 1
    ensures t >= lo && c.Some? ==>
              YesIn(CounterAnswers(c, l, times), lo, lo + l.window) <= Max(0, l.limit - c.value.count) + l.limit
    decreases |times|
  {
    if times != [] {
      var x := times[0];
      var (b, answer) := Attempt(c, l, x);
      if x > lo + l.window {
        NothingAfter(c, l, times, lo, lo + l.window);
      } else if b.first >= lo {
        AnchoredInside(b, l, times[1..], lo);
      } else {
        AnchoredBefore(Some(b), l, times[1..], lo, x);
      }
    }
  }

  lemma PrependOrdered(times: seq<int>, x: int, t: int)
    requires OrderedFrom(times, x) && t <= x
    ensures OrderedFrom(times, t) && OrderedFrom([x] + times, t)
  {
  }

  lemma {:induction false} FedTimesOrdered(m: Buckets, l: Limits, evs: seq<Event>, key: Key, t: int)
    requires Ordered(evs) && NotBefore(evs, t)
    ensures OrderedFrom(TimesOf(FedAnswers(m, l, evs, key)), t)
    decreases |evs|
  {
    if evs != [] {
      var next := StepMap(m, l, evs[0]);
      FedTimesOrdered(next, l, evs[1..], key, evs[0].at);
      PrependOrdered(TimesOf(FedAnswers(next, l, evs[1..], key)), evs[0].at, t);
      var fed := FedAnswers(m, l, evs, key);
      if fed != FedAnswers(next, l, evs[1..], key) {
        assert TimesOf(fed) == [evs[0].at] + TimesOf(FedAnswers(next, l, evs[1..], key));
      }
    }
  }

  /** How often `key` was let through between lo and hi. */
  function AllowedIn(m: Buckets, l: Limits, evs: seq<Event>, key: Key, lo: int, hi: int): nat
    decreases |evs|
  {
    if evs == [] then 0
    else
      var e := evs[0];
      (if e.Call? && e.key == key && lo <= e.at <= hi && AllowStep(m, l, key, e.at).1 then 1 else 0)
      + AllowedIn(StepMap(m, l, e), l, evs[1..], key, lo, hi)
  }

  lemma {:induction false} AllowedAreFed(m: Buckets, l: Limits, evs: seq<Event>, key: Key, lo: int, hi: int)
    requires |m| <= MAX_BUCKETS && l.window >= 0
    ensures AllowedIn(m, l, evs, key, lo, hi) == YesIn(FedAnswers(m, l, evs, key), lo, hi)
    decreases |evs|
  {
    if evs != [] {
      var e := evs[0];
      LiveIsSmaller(m, l.window, e.at);
      if e.Call? && RefusedForRoom(m, l, e.key, e.at) {
        RoomRefusalIsNo(m, l, e.key, e.at);
      }
      AllowedAreFed(StepMap(m, l, e), l, evs[1..], key, lo, hi);
    }
  }

  /** In any closed interval as long as the window one key is let through at most 2*limit-1 times,
      in every time-ordered run of a new limiter. */
  lemma AtMostTwiceLessOne(l: Limits, evs: seq<Event>, key: Key, lo: int)
    requires l.limit >= 1 && l.window >= 0 && Ordered(evs)
    ensures AllowedIn(map[], l, evs, key, lo, lo + l.window) <= 2 * l.limit - 1
  {
    if evs != [] {
      var fed := FedAnswers(map[], l, evs, key);
      KeyIsALoneCounter(map[], l, evs, key, None, evs[0].at);
      FedTimesOrdered(map[], l, evs, key, evs[0].at);
      AnchoredBefore(None, l, TimesOf(fed), lo, evs[0].at);
      AllowedAreFed(map[], l, evs, key, lo, lo + l.window);
    }
  }

  // ---------- the bound is reached ----------

  function CallsAt(key: Key, times: seq<int>): seq<Event> {
    seq(|times|, i requires 0 <= i < |times| => Call(key, times[i]))
  }

  /** A key that is alone always finds room. */
  lemma {:induction false} AloneAlwaysFed(m: Buckets, l: Limits, key: Key, times: seq<int>)
    requires m.Keys <= {key}
    ensures TimesOf(FedAnswers(m, l, CallsAt(key, times), key)) == times
    decreases |times|
  {
    if times != [] {
      var evs := CallsAt(key, times);
      assert evs[1..] == CallsAt(key, times[1..]);
      MapCard(Live(m, l.window, times[0]), map[key := Bucket(0, 0)]);
      var next := StepMap(m, l, evs[0]);
      AloneAlwaysFed(next, l, key, times[1..]);
      var fed := FedAnswers(m, l, evs, key);
      assert TimesOf(fed)[1..] == TimesOf(fed[1..]);
    }
  }

  function Same(at: int, n: nat): seq<int> {
    if n == 0 then [] else [at] + Same(at, n - 1)
  }

  lemma {:induction false} SameIs(at: int, n: nat)
    ensures |Same(at, n)| == n && forall i :: 0 <= i < n ==> Same(at, n)[i] == at
  {
    if n > 0 { SameIs(at, n - 1); }
  }

  /** n attempts inside one window, with room left for them under the limit, are all let through. */
  lemma {:induction false} RepeatAllowed(b: Bucket, l: Limits, at: int, n: nat, after: seq<int>, lo: int, hi: int)
    requires lo <= at <= hi && !Expired(b, l.window, at) && b.count + n <= l.limit
    ensures YesIn(CounterAnswers(Some(b), l, Same(at, n) + after), lo, hi)
            == n + YesIn(CounterAnswers(Some(Bucket(b.count + n, b.first)), l, after), lo, hi)
    decreases n
  {
    if n == 0 {
      assert Same(at, n) + after == after;
    } else {
      var times := Same(at, n) + after;
      assert times[1..] == Same(at, n - 1) + after;
      RepeatAllowed(Bucket(b.count + 1, b.first), l, at, n - 1, after, lo, hi);
    }
  }

  /** One attempt early, the rest at the end of that window, a full allowance right after it. */
  function Burst(l: Limits): seq<int>
    requires l.limit >= 1
  {
    [0] + (Same(l.window, l.limit - 1) + ([l.window + 1] + (Same(l.window + 1, l.limit - 1) + [])))
  }

  lemma BurstAnswers(l: Limits)
    requires l.limit >= 1 && 1 <= l.window < MAX_DURATION
    ensures YesIn(CounterAnswers(None, l, Burst(l)), l.window, 2 * l.window) == 2 * l.limit - 1
  {
    var w, n := l.window, l.limit - 1;
    var last := Same(w + 1, n) + [];
    var second := [w + 1] + last;
    assert Burst(l)[1..] == Same(w, n) + second;
    RepeatAllowed(Bucket(1, 0), l, w, n, second, w, 2 * w);
    assert second[1..] == last;
    RepeatAllowed(Bucket(1, w + 1), l, w + 1, n, [], w, 2 * w);
  }

  /** The bound is met: a run of one key that is let through 2*limit-1 times in one window length. */
  lemma BurstReachesTheBound(l: Limits, key: Key)
    requires l.limit >= 1 && 1 <= l.window < MAX_DURATION
    ensures var evs := CallsAt(key, Burst(l));
            Ordered(evs) && AllowedIn(map[], l, evs, key, l.window, 2 * l.window) == 2 * l.limit - 1
  {
    var evs := CallsAt(key, Burst(l));
    SameIs(l.window, l.limit - 1);
    SameIs(l.window + 1, l.limit - 1);
    assert Ordered(evs);
    AllowedAreFed(map[], l, evs, key, l.window, 2 * l.window);
    KeyIsALoneCounter(map[], l, evs, key, None, 0);
    AloneAlwaysFed(map[], l, key, Burst(l));
    BurstAnswers(l);
  }
}
