/** The few string operations of Go's `strings` package the broker relies on,
    as functions on `string`, and the small facts about them used elsewhere.
    Case mapping is that of the ASCII range. */
module GoStrings {

  datatype Option<+T> = None | Some(value: T)

  datatype Result<+T, +E> = Ok(value: T) | Err(error: E)

  // ---------- substrings ----------

  predicate OccursAt(s: string, q: string, i: int) {
    0 <= i && i + |q| <= |s| && s[i..i + |q|] == q
  }

  /** strings.Contains */
  predicate Contains(s: string, q: string) {
    exists i | 0 <= i <= |s| :: OccursAt(s, q, i)
  }

  lemma ContainsAt(s: string, q: string, i: int)
    requires OccursAt(s, q, i)
    ensures Contains(s, q)
  {
  }

  /** A prefix that occurs is an occurrence at index 0, and one in the tail is one in the whole. */
  lemma ContainsStep(s: string, q: string)
    requires s != []
    ensures Contains(s, q) <==> (q <= s || Contains(s[1..], q))
  {
    if Contains(s, q) {
      var i :| 0 <= i <= |s| && OccursAt(s, q, i);
      if i == 0 {
        assert s[..|q|] == q;
      } else {
        assert s[1..][i - 1..i - 1 + |q|] == s[i..i + |q|];
        ContainsAt(s[1..], q, i - 1);
      }
    }
    if q <= s {
      assert s[0..0 + |q|] == q;
      ContainsAt(s, q, 0);
    }
    if Contains(s[1..], q) {
      var i :| 0 <= i <= |s[1..]| && OccursAt(s[1..], q, i);
      assert s[i + 1..i + 1 + |q|] == s[1..][i..i + |q|];
      ContainsAt(s, q, i + 1);
    }
  }

  /** What is contained is no longer, and its first character is there. */
  lemma ContainsFirst(s: string, q: string)
    requires q != "" && Contains(s, q)
    ensures q[0] in s && |q| <= |s|
  {
    var i :| 0 <= i <= |s| && OccursAt(s, q, i);
    assert s[i..i + |q|][0] == s[i];
  }

  lemma SliceOfSlice<T>(s: seq<T>, lo: int, hi: int, a: int, b: int)
    requires 0 <= lo <= hi <= |s| && 0 <= a <= b <= hi - lo
    ensures s[lo..hi][a..b] == s[lo + a..lo + b]
  {
    assert |s[lo..hi][a..b]| == |s[lo + a..lo + b]|;
    forall k | 0 <= k < b - a ensures s[lo..hi][a..b][k] == s[lo + a..lo + b][k] {
      assert s[lo..hi][a..b][k] == s[lo..hi][a + k] == s[lo + (a + k)];
    }
  }

  /** Containment is transitive. */
  lemma ContainsTransitive(s: string, t: string, q: string)
    requires Contains(s, t) && Contains(t, q)
    ensures Contains(s, q)
  {
    var i :| 0 <= i <= |s| && OccursAt(s, t, i);
    var j :| 0 <= j <= |t| && OccursAt(t, q, j);
    var part := s[i..i + |t|];
    assert part[j..j + |q|] == q;
    SliceOfSlice(s, i, i + |t|, j, j + |q|);
    ContainsAt(s, q, i + j);
  }

  predicate HasPrefix(s: string, p: string) {
    p <= s
  }

  /** strings.TrimPrefix */
  function TrimPrefix(s: string, p: string): string {
    if p <= s then s[|p|..] else s
  }

  /** strings.Cut at the first separator. */
  function Cut(s: string, sep: char): Option<(string, string)> {
    if s == "" then None
    else if s[0] == sep then Some(("", s[1..]))
    else
      match Cut(s[1..], sep)
      case None => None
      case Some((a, b)) => Some(([s[0]] + a, b))
  }

  lemma {:induction false} CutAtFirst(a: string, sep: char, rest: string)
    requires sep !in a
    ensures Cut(a + [sep] + rest, sep) == Some((a, rest)) && Cut(a, sep) == None
  {
    if a != "" {
      CutAtFirst(a[1..], sep, rest);
      assert (a + [sep] + rest)[1..] == a[1..] + [sep] + rest;
      assert a == [a[0]] + a[1..];
    } else {
      assert (a + [sep] + rest)[1..] == rest;
    }
  }

  lemma {:induction false} CutParts(s: string, sep: char)
    ensures Cut(s, sep).None? <==> sep !in s
    ensures Cut(s, sep).Some? ==> var (a, b) := Cut(s, sep).value; sep !in a && s == a + [sep] + b
  {
    if s != "" {
      CutParts(s[1..], sep);
      assert s == [s[0]] + s[1..];
      assert sep in s <==> s[0] == sep || sep in s[1..];
    }
  }

  // ---------- case and white space ----------

  function LowerChar(c: char): char {
    if 'A' <= c <= 'Z' then c - 'A' + 'a' else c
  }

  /** strings.ToLower */
  function ToLower(s: string): string {
    seq(|s|, i requires 0 <= i < |s| => LowerChar(s[i]))
  }

  /** unicode.IsSpace */
  predicate IsSpace(c: char) {
    || c == ' ' || '\t' <= c <= '\r' || c == '\U{0085}' || c == '\U{00A0}' || c == '\U{1680}'
    || '\U{2000}' <= c <= '\U{200A}' || c == '\U{2028}' || c == '\U{2029}' || c == '\U{202F}'
    || c == '\U{205F}' || c == '\U{3000}'
  }

  function TrimLeft(s: string): (r: string)
    ensures r != "" ==> !IsSpace(r[0])
  {
    if s != "" && IsSpace(s[0]) then TrimLeft(s[1..]) else s
  }

  function TrimRight(s: string): (r: string)
    ensures r <= s
    ensures r != "" ==> !IsSpace(r[|r| - 1])
  {
    if s != "" && IsSpace(s[|s| - 1]) then TrimRight(s[..|s| - 1]) else s
  }

  /** strings.TrimSpace */
  function TrimSpace(s: string): string {
    TrimRight(TrimLeft(s))
  }

  /** A string whose ends are not white space is left alone by TrimSpace. */
  lemma TrimSpaceNothingToTrim(s: string)
    requires s != "" ==> !IsSpace(s[0]) && !IsSpace(s[|s| - 1])
    ensures TrimSpace(s) == s
  {
  }

  lemma TrimSpaceEnds(s: string)
    ensures var r := TrimSpace(s); r != "" ==> !IsSpace(r[0]) && !IsSpace(r[|r| - 1])
  {
  }

  predicate AllSpace(s: string) {
    forall i | 0 <= i < |s| :: IsSpace(s[i])
  }

  /** No white space at either end. */
  predicate Trimmed(s: string) {
    s != "" ==> !IsSpace(s[0]) && !IsSpace(s[|s| - 1])
  }

  lemma {:induction false} TrimLeftDrops(l: string, s: string)
    requires AllSpace(l) && (s != "" ==> !IsSpace(s[0]))
    ensures TrimLeft(l + s) == s
    decreases |l|
  {
    if l == "" {
      assert l + s == s;
    } else {
      assert (l + s)[1..] == l[1..] + s;
      TrimLeftDrops(l[1..], s);
    }
  }

  lemma {:induction false} TrimRightDrops(s: string, r: string)
    requires AllSpace(r) && (s != "" ==> !IsSpace(s[|s| - 1]))
    ensures TrimRight(s + r) == s
    decreases |r|
  {
    if r == "" {
      assert s + r == s;
    } else {
      assert (s + r)[..|s + r| - 1] == s + r[..|r| - 1];
      TrimRightDrops(s, r[..|r| - 1]);
    }
  }

  /** White space around a trimmed string is what TrimSpace takes away, no more and no less. */
  lemma TrimSpaceDrops(l: string, s: string, r: string)
    requires AllSpace(l) && AllSpace(r) && Trimmed(s)
    ensures TrimSpace(l + s + r) == s
  {
    if s == "" {
      assert l + s + r == (l + r) + "";
      TrimLeftDrops(l + r, "");
    } else {
      assert l + s + r == l + (s + r);
      TrimLeftDrops(l, s + r);
      TrimRightDrops(s, r);
    }
  }

  /** Every string is a trimmed one with white space around it. */
  lemma {:induction false} TrimSpaceSplits(s: string) returns (l: string, r: string)
    ensures AllSpace(l) && AllSpace(r) && Trimmed(TrimSpace(s)) && s == l + TrimSpace(s) + r
    ensures TrimSpace(s) == "" <==> AllSpace(s)
  {
    TrimSpaceEnds(s);
    l := LeftSpace(s);
    r := RightSpace(TrimLeft(s));
    assert s == l + (TrimSpace(s) + r);
    assert l + TrimSpace(s) + r == l + (TrimSpace(s) + r);
    if TrimSpace(s) == "" {
      assert s == l + r;
    } else {
      assert s[|l|] == TrimSpace(s)[0];
    }
  }

  lemma {:induction false} LeftSpace(s: string) returns (l: string)
    ensures AllSpace(l) && s == l + TrimLeft(s)
  {
    l := "";
    if s != "" && IsSpace(s[0]) {
      l := LeftSpace(s[1..]);
      l := [s[0]] + l;
      assert s == [s[0]] + s[1..];
    }
  }

  lemma {:induction false} RightSpace(s: string) returns (r: string)
    ensures AllSpace(r) && s == TrimRight(s) + r
  {
    r := "";
    if s != "" && IsSpace(s[|s| - 1]) {
      r := RightSpace(s[..|s| - 1]);
      r := r + [s[|s| - 1]];
      assert s == s[..|s| - 1] + [s[|s| - 1]];
    }
  }

  /** The same letter, capital or not: capitals come 32 places before the small letters. */
  predicate SameButCase(c: char, d: char) {
    || c == d
    || ('A' <= c <= 'Z' && d as int == c as int + 32)
    || ('A' <= d <= 'Z' && c as int == d as int + 32)
  }

  /** Equal up to case, character by character. */
  predicate EqualFold(a: string, b: string) {
    |a| == |b| && forall i | 0 <= i < |a| :: SameButCase(a[i], b[i])
  }

  predicate NoCapitals(s: string) {
    forall i | 0 <= i < |s| :: !('A' <= s[i] <= 'Z')
  }

  lemma LowerEqual(a: string, b: string)
    ensures ToLower(a) == ToLower(b) <==> EqualFold(a, b)
  {
    if ToLower(a) == ToLower(b) {
      forall i | 0 <= i < |a| ensures SameButCase(a[i], b[i]) {
        assert ToLower(a)[i] == ToLower(b)[i];
      }
    }
  }

  lemma LowerNothing(s: string)
    requires NoCapitals(s)
    ensures ToLower(s) == s
  {
  }

  /** Small letters in, the same small letters out; and what comes out is equal up to case. */
  lemma LowerIs(s: string)
    ensures NoCapitals(ToLower(s)) && EqualFold(ToLower(s), s)
  {
  }
}
