/** Which agents need attention, most urgent first (internal/registry/registry.go:347-478). */
module Review {
  import opened GoStrings
  import opened Lifetime
  import opened Registry

  datatype Concern = Fine | Unlimited | NeverEnrolled | Silent | LockoutSoon | LockedOut

  function Rank(c: Concern): nat {
    match c
    case Fine => 0
    case Unlimited => 1
    case NeverEnrolled => 2
    case Silent => 3
    case LockoutSoon => 4
    case LockedOut => 5
  }

  /** Go's division by three cuts towards zero. */
  function Third(d: int): int {
    if d >= 0 then d / 3 else -(-d / 3)
  }

  /** The warning threshold, at most a third of the agent's own lifetime. */
  function EffectiveWarnBefore(configured: int, span: Span): int {
    match span
    case Unset => configured
    case Forever => configured
    case Of(d) => if Third(d) < configured then Third(d) else configured
  }

  function ConcernOf(a: Agent, states: States, now: int, silentAfter: int, warnBefore: int): Concern {
    var st := StateOf(states, a.name);
    var recoverable := a.publicKey != "";
    var warn := EffectiveWarnBefore(warnBefore, a.identityLifetime);
    if st.revokedAt.Some? then Fine
    else if st.lastSeen == 0 then NeverEnrolled
    else if st.identityExpires != 0 && now >= st.identityExpires && !recoverable then LockedOut
    else if st.identityExpires != 0 && now + warn > st.identityExpires && !recoverable then LockoutSoon
    else if st.lastSeen < now - silentAfter then Silent
    else if a.identityLifetime.Forever? then Unlimited
    else Fine
  }

  /** What is left is less than the configured threshold, and no more than a third of the agent's own lifetime:
      less than the third cut to a whole number. */
  predicate Short(left: int, configured: int, span: Span) {
    left < configured && (span.Of? ==> 3 * left + (if span.d >= 0 then 3 else 1) <= span.d)
  }

  /** When each concern is reported. Who was shut out on purpose is none; who was never heard of is only
      that; an identity that ends matters only to a host without a device key; and silence comes before an
      unlimited lifetime. */
  lemma ConcernExactly(a: Agent, states: States, now: int, silentAfter: int, warnBefore: int)
    ensures var c := ConcernOf(a, states, now, silentAfter, warnBefore);
            if a.name !in states then c == NeverEnrolled else
              var st := states[a.name];
              var watched := st.revokedAt.None? && st.lastSeen != 0;
              var stranded := a.publicKey == "" && st.identityExpires != 0;
              var over := stranded && st.identityExpires <= now;
              var soon := stranded && Short(st.identityExpires - now, warnBefore, a.identityLifetime);
              var silent := st.lastSeen + silentAfter < now;
              && (c == NeverEnrolled <==> st.revokedAt.None? && st.lastSeen == 0)
              && (c == LockedOut <==> watched && over)
              && (c == LockoutSoon <==> watched && !over && soon)
              && (c == Silent <==> watched && !over && !soon && silent)
              && (c == Unlimited <==> watched && !over && !soon && !silent && a.identityLifetime.Forever?)
  {
    if a.name in states { ShortMeans(states[a.name].identityExpires - now, warnBefore, a.identityLifetime); }
  }

  lemma ShortMeans(left: int, configured: int, span: Span)
    ensures Short(left, configured, span) <==> left < EffectiveWarnBefore(configured, span)
  {
  }

  /** With nothing new heard, no agent's concern ever becomes less urgent. */
  lemma ConcernNeverDecreases(a: Agent, states: States, now: int, later: int, silentAfter: int, warnBefore: int)
    requires now <= later
    ensures Rank(ConcernOf(a, states, now, silentAfter, warnBefore))
            <= Rank(ConcernOf(a, states, later, silentAfter, warnBefore))
  {
    var st := StateOf(states, a.name);
    if now >= st.identityExpires { assert later >= st.identityExpires; }
  }

  datatype Finding = Finding(agent: string, concern: Concern)

  // ---------- the order of a report ----------

  /** Go's order on strings. */
  predicate Less(a: string, b: string) {
    if b == "" then false
    else if a == "" then true
    else a[0] < b[0] || (a[0] == b[0] && Less(a[1..], b[1..]))
  }

  lemma {:induction false} LessTrichotomy(a: string, b: string)
    ensures !(Less(a, b) && Less(b, a))
    ensures Less(a, b) || a == b || Less(b, a)
    ensures a == b ==> !Less(a, b)
  {
    if a != "" && b != "" {
      LessTrichotomy(a[1..], b[1..]);
      if a[0] == b[0] && a[1..] == b[1..] { assert a == [a[0]] + a[1..] == b; }
    }
  }

  /** The strings agree up to k, and there the first has the smaller character. */
  predicate FirstSmallerAt(a: string, b: string, k: nat) {
    k < |a| && k < |b| && a[..k] == b[..k] && a[k] < b[k]
  }

  lemma PrefixHead(a: string, b: string, k: nat)
    ensures 0 < k <= |a| && k <= |b| && a[..k] == b[..k] ==> a[0] == b[0]
  {
    if 0 < k <= |a| && k <= |b| && a[..k] == b[..k] { assert a[..k][0] == b[..k][0]; }
  }

  /** A string comes before its continuations and before whatever is greater where the two first differ. */
  lemma {:induction false} LessExactly(a: string, b: string)
    ensures Less(a, b) <==> (a <= b && a != b) || exists k: nat :: FirstSmallerAt(a, b, k)
  {
    if a != "" && b != "" {
      LessExactly(a[1..], b[1..]);
      assert a == [a[0]] + a[1..] && b == [b[0]] + b[1..];
      if a[0] == b[0] {
        forall k: nat ensures FirstSmallerAt(a[1..], b[1..], k) <==> FirstSmallerAt(a, b, k + 1) {
          if k < |a| - 1 && k < |b| - 1 {
            assert a[..k + 1] == [a[0]] + a[1..][..k] && b[..k + 1] == [b[0]] + b[1..][..k];
            assert a[..k + 1] == b[..k + 1] ==> a[..k + 1][1..] == b[..k + 1][1..];
          }
        }
        if k: nat :| FirstSmallerAt(a, b, k) { assert FirstSmallerAt(a[1..], b[1..], k - 1); }
        if k: nat :| FirstSmallerAt(a[1..], b[1..], k) { assert FirstSmallerAt(a, b, k + 1); }
      } else {
        forall k: nat ensures FirstSmallerAt(a, b, k) ==> k == 0 { PrefixHead(a, b, k); }
        assert a[0] < b[0] ==> FirstSmallerAt(a, b, 0);
      }
    }
  }

  lemma {:induction false} LessTransitive(a: string, b: string, c: string)
    requires Less(a, b) && Less(b, c)
    ensures Less(a, c)
  {
    if a != "" && a[0] == b[0] && b[0] == c[0] { LessTransitive(a[1..], b[1..], c[1..]); }
  }

  /** The order of the report: by falling urgency, and by name within one urgency. */
  predicate Before(f: Finding, g: Finding) {
    Rank(f.concern) > Rank(g.concern) || (f.concern == g.concern && Less(f.agent, g.agent))
  }

  lemma BeforeIsAnOrder(f: Finding, g: Finding, h: Finding)
    ensures !Before(f, f) && (Before(f, g) || f == g || Before(g, f)) && !(Before(f, g) && Before(g, f))
    ensures Before(f, g) && Before(g, h) ==> Before(f, h)
  {
    LessTrichotomy(f.agent, f.agent);
    LessTrichotomy(f.agent, g.agent);
    if Less(f.agent, g.agent) && Less(g.agent, h.agent) { LessTransitive(f.agent, g.agent, h.agent); }
  }

  predicate Ordered(s: seq<Finding>) {
    forall i, j | 0 <= i < j < |s| :: Before(s[i], s[j])
  }

  /** An ordered list is determined by what is in it. */
  lemma {:induction false} OrderedIsUnique(s: seq<Finding>, t: seq<Finding>)
    requires Ordered(s) && Ordered(t) && (forall f :: f in s <==> f in t)
    ensures s == t
    decreases |s|
  {
    hide Before;
    SameEmptiness(s, t);
    if s != [] {
      assert s[0] in s && t[0] in t;
      SameHead(s, t);
      forall f ensures f in s[1..] <==> f in t[1..] {
        TailMembers(s, f);
        TailMembers(t, f);
      }
      OrderedIsUnique(s[1..], t[1..]);
      assert s == [s[0]] + s[1..] && t == [t[0]] + t[1..];
    }
  }

  lemma SameEmptiness(s: seq<Finding>, t: seq<Finding>)
    requires forall f :: f in s <==> f in t
    ensures s == [] <==> t == []
  {
    if s != [] { assert s[0] in s; }
    if t != [] { assert t[0] in t; }
  }

  lemma TailMembers(s: seq<Finding>, f: Finding)
    requires Ordered(s) && s != []
    ensures f in s[1..] <==> f in s && f != s[0]
  {
    hide Before;
    if f in s[1..] {
      var j :| 0 <= j < |s| - 1 && s[1..][j] == f;
      assert s[j + 1] == f && Before(s[0], s[j + 1]);
      BeforeIsAnOrder(s[0], f, f);
    }
    if f in s && f != s[0] {
      var j :| 0 <= j < |s| && s[j] == f;
      assert s[1..][j - 1] == f;
    }
  }

  lemma SameHead(s: seq<Finding>, t: seq<Finding>)
    requires Ordered(s) && Ordered(t) && s != [] && t != [] && s[0] in t && t[0] in s
    ensures s[0] == t[0]
  {
    hide Before;
    var i :| 0 <= i < |s| && s[i] == t[0];
    var j :| 0 <= j < |t| && t[j] == s[0];
    if i > 0 && j > 0 {
      assert Before(s[0], s[i]) && Before(t[0], t[j]);
      BeforeIsAnOrder(s[0], t[0], s[0]);
    }
  }

  function Insert(f: Finding, s: seq<Finding>): seq<Finding> {
    if s == [] || Before(f, s[0]) then [f] + s else [s[0]] + Insert(f, s[1..])
  }

  lemma {:induction false} InsertKeepsOrder(f: Finding, s: seq<Finding>)
    requires Ordered(s) && f !in s
    ensures Ordered(Insert(f, s)) && forall g :: g in Insert(f, s) <==> g == f || g in s
  {
    hide Before;
    if s == [] {
    } else if Before(f, s[0]) {
      forall g | g in s ensures Before(f, g) {
        var j :| 0 <= j < |s| && s[j] == g;
        BeforeIsAnOrder(f, s[0], g);
        assert j == 0 || Before(s[0], s[j]);
      }
    } else {
      InsertKeepsOrder(f, s[1..]);
      BeforeIsAnOrder(f, s[0], s[0]);
      var t := Insert(f, s[1..]);
      assert s[0] in s;
      forall g | g in t ensures Before(s[0], g) {
        if g != f {
          var j :| 0 <= j < |s| - 1 && s[1..][j] == g;
          assert s[j + 1] == g;
        }
      }
      assert s == [s[0]] + s[1..];
    }
  }

  // ---------- the report ----------

  /** What belongs into a report: one finding for every configured agent something is said about. */
  ghost predicate Reports(r: seq<Finding>, agents: map<string, Agent>, states: States,
                          now: int, silentAfter: int, warnBefore: int)
  {
    && Ordered(r)
    && forall f :: f in r <==> Due(f, agents, states, now, silentAfter, warnBefore)
  }

  predicate Due(f: Finding, agents: map<string, Agent>, states: States,
                now: int, silentAfter: int, warnBefore: int)
  {
    f.agent in agents && f.concern != Fine && f.concern == ConcernOf(agents[f.agent], states, now, silentAfter, warnBefore)
  }

  /** The map is walked in any order at all; the report is the same. */
  method Review(agents: map<string, Agent>, states: States, now: int, silentAfter: int, warnBefore: int)
    returns (r: seq<Finding>)
    ensures Reports(r, agents, states, now, silentAfter, warnBefore)
  {
    var found: seq<Finding> := [];
    var left := agents.Keys;
    while left != {}
      invariant left <= agents.Keys
      invariant forall f :: f in found <==> f.agent !in left && Due(f, agents, states, now, silentAfter, warnBefore)
      invariant forall i, j | 0 <= i < j < |found| :: found[i].agent != found[j].agent
      decreases |left|
    {
      hide ConcernOf;
      var name :| name in left;
      var c := ConcernOf(agents[name], states, now, silentAfter, warnBefore);
      left := left - {name};
      if c != Fine { found := found + [Finding(name, c)]; }
    }
    r := Sort(found);
  }

  /** sort.Slice by Before, on findings of different agents. */
  method Sort(found: seq<Finding>) returns (r: seq<Finding>)
    requires forall i, j | 0 <= i < j < |found| :: found[i].agent != found[j].agent
    ensures Ordered(r) && forall f :: f in r <==> f in found
  {
    r := [];
    for k := 0 to |found|
      invariant Ordered(r) && forall f :: f in r <==> f in found[..k]
    {
      hide Before;
      assert found[..k + 1] == found[..k] + [found[k]];
      InsertKeepsOrder(found[k], r);
      r := Insert(found[k], r);
    }
    assert found[..|found|] == found;
  }

  /** Any two reports on the same agents are the same list, whatever order the agents were walked in,
      and no agent is in it twice. */
  lemma OneReport(r: seq<Finding>, t: seq<Finding>, agents: map<string, Agent>, states: States,
                  now: int, silentAfter: int, warnBefore: int)
    requires Reports(r, agents, states, now, silentAfter, warnBefore)
    requires Reports(t, agents, states, now, silentAfter, warnBefore)
    ensures r == t
    ensures forall i, j | 0 <= i < j < |r| :: r[i].agent != r[j].agent
  {
    OrderedIsUnique(r, t);
    forall i, j | 0 <= i < j < |r| ensures r[i].agent != r[j].agent {
      assert r[i] in r && r[j] in r && Before(r[i], r[j]);
      BeforeIsAnOrder(r[i], r[j], r[j]);
    }
  }
}
