/** The logging redactor (internal/acme/logging.go): known secrets are replaced,
    one after the other, by a visible marker. */
module Redactor {
  import opened GoStrings

  const MIN_SECRET_LENGTH := 6

  /** A value the redactor keeps: shorter ones are ignored. */
  type Secret = q: string | |q| >= MIN_SECRET_LENGTH witness "secret"

  const CORE := "redacted"
  const MARKER := "[" + CORE + "]"

  /** strings.ReplaceAll: leftmost, non-overlapping occurrences of `secret` become the marker. */
  function ReplaceAll(s: string, secret: string): string
    requires secret != ""
  {
    if s == "" then ""
    else if secret <= s then MARKER + ReplaceAll(s[|secret|..], secret)
    else [s[0]] + ReplaceAll(s[1..], secret)
  }

  function ScrubOne(s: string, secret: string): string
    requires secret != ""
  {
    if Contains(s, secret) then ReplaceAll(s, secret) else s
  }

  /** The secrets a redactor keeps: those long enough to be worth replacing. */
  function Kept(configured: seq<string>): seq<Secret> {
    if configured == [] then []
    else (if |configured[0]| >= MIN_SECRET_LENGTH then [configured[0]] else []) + Kept(configured[1..])
  }

  function ScrubAll(s: string, secrets: seq<Secret>): string
    decreases |secrets|
  {
    if secrets == [] then s else ScrubAll(ScrubOne(s, secrets[0]), secrets[1..])
  }

  lemma {:induction false} KeptExactly(configured: seq<string>, q: string)
    ensures q in Kept(configured) <==> q in configured && |q| >= 6
  {
    if configured != [] {
      KeptExactly(configured[1..], q);
      assert configured == [configured[0]] + configured[1..];
    }
  }

  // ---------- the two loops of the source ----------

  method NewRedactor(configured: seq<string>) returns (kept: seq<Secret>)
    ensures kept == Kept(configured)
  {
    kept := [];
    for i := 0 to |configured|
      invariant kept + Kept(configured[i..]) == Kept(configured)
    {
      if |configured[i]| >= MIN_SECRET_LENGTH {
        kept := kept + [configured[i]];
      }
      assert configured[i..][1..] == configured[i + 1..];
    }
    assert configured[|configured|..] == [];
  }

  method Scrub(s: string, secrets: seq<Secret>) returns (r: string)
    ensures r == ScrubAll(s, secrets)
  {
    r := s;
    for i := 0 to |secrets|
      invariant ScrubAll(r, secrets[i..]) == ScrubAll(s, secrets)
    {
      assert secrets[i..][1..] == secrets[i + 1..];
      if Contains(r, secrets[i]) {
        r := ReplaceAll(r, secrets[i]);
      }
    }
    assert secrets[|secrets|..] == [];
  }

  // ---------- what one replacement can bring back ----------

  /** The marker, laid over a secret so that it begins at position o (which may be in front of the
      secret), agrees with it wherever the two overlap. */
  predicate LaidOver(q: string, o: int) {
    forall i | 0 <= i < |q| && 0 <= i - o < |MARKER| :: q[i] == MARKER[i - o]
  }

  /** A secret that no marker can be a part of, hold, or complete: however the two are made to overlap,
      they disagree. */
  predicate Apart(q: string) {
    q != "" && forall o | -|MARKER| < o < |q| :: !LaidOver(q, o)
  }

  /** What is apart can be put together in the replaced text only from the text itself. */
  lemma {:induction false} SuffixComesFromText(s: string, secret: string, q: string, k: nat)
    requires secret != "" && Apart(q) && k <= |q| && q[k..] <= ReplaceAll(s, secret)
    ensures q[k..] <= s
    decreases |q| - k
  {
    if k < |q| {
      var r := ReplaceAll(s, secret);
      assert q[k] == q[k..][0] == r[0];
      NoMarkerAhead(s, secret, q, k);
      assert r[1..] == ReplaceAll(s[1..], secret);
      assert q[k..][1..] == q[k + 1..] <= r[1..];
      SuffixComesFromText(s[1..], secret, q, k + 1);
      assert s == [s[0]] + s[1..] && q[k..] == [q[k]] + q[k + 1..];
    }
  }

  lemma NoMarkerAhead(s: string, secret: string, q: string, k: nat)
    requires secret != "" && Apart(q) && k < |q| && q[k..] <= ReplaceAll(s, secret)
    ensures !(secret <= s) && s != ""
  {
    if s != "" && secret <= s { LaidOverAt(q, k, ReplaceAll(s, secret)); }
  }

  lemma LaidOverAt(q: string, k: nat, r: string)
    requires k <= |q| && q[k..] <= r && MARKER <= r
    ensures LaidOver(q, k)
  {
    forall i | 0 <= i < |q| && 0 <= i - k < |MARKER| ensures q[i] == MARKER[i - k] {
      assert q[k..][i - k] == r[i - k];
    }
  }

  /** An occurrence that begins inside the marker lays the marker over the secret. */
  lemma MarkerInFront(rest: string, q: string, i: nat)
    requires OccursAt(MARKER + rest, q, i) && i < |MARKER|
    ensures LaidOver(q, 0 - i)
  {
    var t := MARKER + rest;
    forall j | 0 <= j < |q| && 0 <= j + i < |MARKER| ensures q[j] == MARKER[j + i] {
      assert t[i..i + |q|][j] == t[i + j];
    }
  }

  /** In marker-then-text, a secret that is apart lies in the text. */
  lemma OccurrenceAroundMarker(rest: string, q: string)
    requires Apart(q) && Contains(MARKER + rest, q)
    ensures Contains(rest, q)
  {
    var t := MARKER + rest;
    var i :| 0 <= i <= |t| && OccursAt(t, q, i);
    if i < |MARKER| {
      MarkerInFront(rest, q, i);
    } else {
      OccursBehind(MARKER, rest, q, i);
    }
  }

  lemma OccursBehind(front: string, rest: string, q: string, i: nat)
    requires i >= |front| && OccursAt(front + rest, q, i)
    ensures Contains(rest, q)
  {
    assert rest[i - |front|..i - |front| + |q|] == (front + rest)[i..i + |q|];
    ContainsAt(rest, q, i - |front|);
  }

  /** Replacing cannot create an occurrence of a secret that is apart. */
  lemma {:induction false} ReplaceCreatesNothing(s: string, secret: string, q: string)
    requires secret != "" && Apart(q) && Contains(ReplaceAll(s, secret), q)
    ensures Contains(s, q)
    decreases |s|
  {
    var r := ReplaceAll(s, secret);
    if s == "" {
    } else if secret <= s {
      var rest := s[|secret|..];
      OccurrenceAroundMarker(ReplaceAll(rest, secret), q);
      ReplaceCreatesNothing(rest, secret, q);
      assert OccursAt(s, rest, |secret|);
      ContainsTransitive(s, rest, q);
    } else {
      assert r[1..] == ReplaceAll(s[1..], secret);
      ContainsStep(r, q);
      ContainsStep(s, q);
      if q <= r {
        assert q[0..] == q;
        SuffixComesFromText(s, secret, q, 0);
      } else {
        ReplaceCreatesNothing(s[1..], secret, q);
      }
    }
  }

  /** After its own replacement a secret that is apart is gone. */
  lemma {:induction false} ReplaceRemoves(s: string, q: string)
    requires Apart(q)
    ensures !Contains(ReplaceAll(s, q), q)
    decreases |s|
  {
    var r := ReplaceAll(s, q);
    if s != "" {
      if q <= s {
        ReplaceRemoves(s[|q|..], q);
        if Contains(r, q) { OccurrenceAroundMarker(ReplaceAll(s[|q|..], q), q); }
      } else {
        assert r[1..] == ReplaceAll(s[1..], q);
        ReplaceRemoves(s[1..], q);
        ContainsStep(r, q);
        assert q[0..] == q;
        if q <= r { SuffixComesFromText(s, q, q, 0); }
      }
    }
  }

  lemma {:induction false} ScrubKeepsAbsent(s: string, secrets: seq<Secret>, q: string)
    requires Apart(q) && !Contains(s, q)
    ensures !Contains(ScrubAll(s, secrets), q)
    decreases |secrets|
  {
    if secrets != [] {
      var t := ScrubOne(s, secrets[0]);
      if Contains(t, q) { ReplaceCreatesNothing(s, secrets[0], q); }
      ScrubKeepsAbsent(t, secrets[1..], q);
    }
  }

  // ---------- main results ----------

  ghost predicate Clean(s: string, secrets: seq<Secret>) {
    forall q :: q in secrets ==> !Contains(s, q)
  }

  /** Text that holds no secret is not changed. */
  lemma {:induction false} CleanTextUnchanged(s: string, secrets: seq<Secret>)
    requires Clean(s, secrets)
    ensures ScrubAll(s, secrets) == s
  {
    if secrets != [] {
      assert secrets[0] in secrets;
      CleanTextUnchanged(s, secrets[1..]);
    }
  }

  /** No secret that is apart survives, whatever the other secrets are and in whatever order they come. */
  lemma {:induction false} ApartSecretGone(s: string, secrets: seq<Secret>, q: string)
    requires q in secrets && Apart(q)
    ensures !Contains(ScrubAll(s, secrets), q)
    decreases |secrets|
  {
    var t := ScrubOne(s, secrets[0]);
    if q == secrets[0] {
      ReplaceRemoves(s, q);
      ScrubKeepsAbsent(t, secrets[1..], q);
    } else {
      ApartSecretGone(t, secrets[1..], q);
    }
  }

  // ---------- secrets without brackets ----------

  predicate BracketFree(q: string) {
    '[' !in q && ']' !in q
  }

  /** A marker that begins or ends within the secret puts its bracket there. */
  lemma BracketsMeet(q: string, o: int)
    requires -|MARKER| < o < |q| && LaidOver(q, o)
    ensures o >= 0 ==> '[' in q
    ensures o + |MARKER| <= |q| ==> ']' in q
  {
    if o >= 0 { assert q[o] == MARKER[0]; }
    if o + |MARKER| <= |q| { assert q[o + 9] == MARKER[9]; }
  }

  /** Without brackets a secret is apart unless it is a piece of the marker's word. */
  lemma ApartWithoutBrackets(q: string)
    requires q != "" && BracketFree(q)
    ensures Apart(q) <==> !Contains(CORE, q)
  {
    assert MARKER[0] == '[' && MARKER[9] == ']' && MARKER[1..9] == CORE;
    forall o | -|MARKER| < o < |q| && LaidOver(q, o) ensures Contains(CORE, q) {
      BracketsMeet(q, o);
      assert CORE[-o - 1..-o - 1 + |q|] == q;
      ContainsAt(CORE, q, -o - 1);
    }
    if Contains(CORE, q) {
      var i :| 0 <= i <= |CORE| && OccursAt(CORE, q, i);
      forall j | 0 <= j < |q| ensures q[j] == MARKER[j + i + 1] {
        assert CORE[i..i + |q|][j] == CORE[i + j];
      }
      assert LaidOver(q, -(i + 1));
    }
  }

  /** The marker survives every later replacement of a bracket-free secret. */
  lemma {:induction false} MarkerPersists(s: string, q: string)
    requires q != "" && BracketFree(q) && Contains(s, MARKER)
    ensures Contains(ReplaceAll(s, q), MARKER)
    decreases |s|
  {
    var r := ReplaceAll(s, q);
    ContainsStep(s, MARKER);
    if q <= s {
      assert r[0..|MARKER|] == MARKER;
      ContainsAt(r, MARKER, 0);
    } else {
      assert r[1..] == ReplaceAll(s[1..], q);
      ContainsStep(r, MARKER);
      if Contains(s[1..], MARKER) {
        MarkerPersists(s[1..], q);
      } else {
        MarkerAtFront(s, q);
      }
    }
  }

  /** Replacing inside text that starts with the marker leaves a marker somewhere. */
  lemma {:induction false} MarkerAtFront(s: string, q: string)
    requires q != "" && BracketFree(q) && MARKER <= s
    ensures Contains(ReplaceAll(s, q), MARKER)
  {
    assert s[0] == '[' && !(q <= s);
    var r := ReplaceAll(s, q);
    assert r == ['['] + ReplaceAll(s[1..], q);
    TailOfMarker(s, q, 1);
    if !Contains(ReplaceAll(s[1..], q), MARKER) {
      assert r[..|MARKER|] == MARKER;
      assert r[0..|MARKER|] == MARKER;
      ContainsAt(r, MARKER, 0);
    } else {
      assert r[1..] == ReplaceAll(s[1..], q);
      ContainsStep(r, MARKER);
    }
  }

  /** Scanning from inside the marker either replaces something or copies the rest of the marker. */
  lemma {:induction false} TailOfMarker(s: string, q: string, k: nat)
    requires q != "" && MARKER <= s && k <= |MARKER|
    ensures var r := ReplaceAll(s[k..], q); Contains(r, MARKER) || MARKER[k..] <= r
    decreases |MARKER| - k
  {
    if k < |MARKER| {
      var r := ReplaceAll(s[k..], q);
      if q <= s[k..] {
        assert r[0..|MARKER|] == MARKER;
        ContainsAt(r, MARKER, 0);
      } else {
        assert s[k..][1..] == s[k + 1..];
        TailOfMarker(s, q, k + 1);
        assert r[1..] == ReplaceAll(s[k + 1..], q);
        ContainsStep(r, MARKER);
        assert MARKER[k..] == [MARKER[k]] + MARKER[k + 1..];
      }
    }
  }

  lemma {:induction false} ScrubKeepsMarker(s: string, secrets: seq<Secret>)
    requires forall q :: q in secrets ==> BracketFree(q)
    requires Contains(s, MARKER)
    ensures Contains(ScrubAll(s, secrets), MARKER)
    decreases |secrets|
  {
    if secrets != [] {
      MarkerPersists(s, secrets[0]);
      ScrubKeepsMarker(ScrubOne(s, secrets[0]), secrets[1..]);
    }
  }

  /** Either nothing was replaced or a marker is left. */
  lemma {:induction false} ScrubUnchangedOrMarked(s: string, secrets: seq<Secret>)
    requires forall q :: q in secrets ==> BracketFree(q)
    ensures (ScrubAll(s, secrets) == s && Clean(s, secrets)) || Contains(ScrubAll(s, secrets), MARKER)
  {
    if secrets != [] {
      var t := ScrubOne(s, secrets[0]);
      if Contains(s, secrets[0]) {
        ReplaceLeavesMarker(s, secrets[0]);
        ScrubKeepsMarker(t, secrets[1..]);
      } else {
        ScrubUnchangedOrMarked(s, secrets[1..]);
      }
    }
  }

  lemma {:induction false} ReplaceLeavesMarker(s: string, q: string)
    requires q != "" && Contains(s, q)
    ensures Contains(ReplaceAll(s, q), MARKER)
    decreases |s|
  {
    var r := ReplaceAll(s, q);
    if q <= s {
      assert s != "";
      assert r[0..|MARKER|] == MARKER;
      ContainsAt(r, MARKER, 0);
    } else {
      assert s != "";
      ContainsStep(s, q);
      ReplaceLeavesMarker(s[1..], q);
      assert r[1..] == ReplaceAll(s[1..], q);
      ContainsStep(r, MARKER);
    }
  }

  ghost predicate NoSecretEverSurvives(secrets: seq<Secret>)
  {
    forall s :: Clean(ScrubAll(s, secrets), secrets)
  }

  /** For bracket-free secrets, scrubbing is safe on every text exactly when no kept secret is
      a piece of the marker's own word. */
  lemma SafeExactlyWhenApartFromMarker(configured: seq<string>)
    requires forall q :: q in configured ==> BracketFree(q)
    ensures NoSecretEverSurvives(Kept(configured))
            <==> forall q :: q in configured && |q| >= 6 ==> !Contains("redacted", q)
  {
    var secrets := Kept(configured);
    forall q ensures q in secrets <==> q in configured && |q| >= 6 {
      KeptExactly(configured, q);
    }
    if forall q :: q in secrets ==> !Contains(CORE, q) {
      forall s, q | q in secrets ensures !Contains(ScrubAll(s, secrets), q) {
        ApartWithoutBrackets(q);
        ApartSecretGone(s, secrets, q);
      }
      assert NoSecretEverSurvives(secrets);
    }
    if q :| q in secrets && Contains(CORE, q) {
      // The secret itself is the text that fails: it is replaced by a marker holding it.
      var r := ScrubAll(q, secrets);
      ScrubUnchangedOrMarked(q, secrets);
      assert OccursAt(q, q, 0);
      ContainsAt(q, q, 0);
      assert Contains(r, MARKER);
      assert MARKER[1..1 + |CORE|] == CORE;
      ContainsAt(MARKER, CORE, 1);
      ContainsTransitive(r, MARKER, CORE);
      ContainsTransitive(r, CORE, q);
      assert !Clean(r, secrets);
    }
  }

  /** When all secrets are apart a second pass changes nothing. */
  lemma ScrubIdempotent(s: string, secrets: seq<Secret>)
    requires forall q :: q in secrets ==> Apart(q)
    ensures ScrubAll(ScrubAll(s, secrets), secrets) == ScrubAll(s, secrets)
  {
    forall q | q in secrets ensures !Contains(ScrubAll(s, secrets), q) {
      ApartSecretGone(s, secrets, q);
    }
    CleanTextUnchanged(ScrubAll(s, secrets), secrets);
  }

  // ---------- one secret on its own: exactly when it can survive ----------

  /** What of the secret lies in front of a marker laid over it at o, and behind it. */
  function Front(q: string, o: int): string
    requires o < |q|
  {
    if o <= 0 then "" else q[..o]
  }

  function Back(q: string, o: int): string
    requires -|MARKER| < o
  {
    if o + |MARKER| < |q| then q[o + |MARKER|..] else ""
  }

  /** The marker laid over the secret at o agrees with it, and the secret preceded by its own first o
      characters is not met before its time. */
  predicate Escapes(q: string, o: int)
    requires -|MARKER| < o < |q|
  {
    LaidOver(q, o) && forall i | 0 <= i < o :: !OccursAt(Front(q, o) + q, q, i)
  }

  /** A secret on its own never survives if and only if it escapes nowhere: a condition on the secret
      alone, with as many places to look at as it and the marker have characters. */
  lemma SingleSecretExactly(q: Secret)
    ensures NoSecretEverSurvives([q]) <==> forall o | -|MARKER| < o < |q| :: !Escapes(q, o)
  {
    if !NoSecretEverSurvives([q]) {
      var s :| !Clean(ScrubAll(s, [q]), [q]);
      OneScrubbed(s, q);
      assert Contains(ScrubAll(s, [q]), q);
      LeakEscapes(s, q);
    }
    if o :| -|MARKER| < o < |q| && Escapes(q, o) {
      EscapeLeaks(q, o);
      OneScrubbed(Front(q, o) + q + Back(q, o), q);
      assert q in [q];
    }
  }

  lemma OneScrubbed(s: string, q: Secret)
    ensures ScrubAll(s, [q]) == ReplaceAll(s, q)
  {
    assert ScrubAll(s, [q]) == ScrubAll(ScrubOne(s, q), []) == ScrubOne(s, q);
    if !Contains(s, q) { NothingToReplace(s, q); }
  }

  lemma {:induction false} NothingToReplace(s: string, q: string)
    requires q != "" && !Contains(s, q)
    ensures ReplaceAll(s, q) == s
  {
    if s != "" {
      ContainsStep(s, q);
      NothingToReplace(s[1..], q);
    }
  }

  /** Where the secret is found in its own replacement, a marker is laid over it. */
  lemma {:induction false} LeakEscapes(s: string, q: string)
    requires q != "" && Contains(ReplaceAll(s, q), q)
    ensures exists o | -|MARKER| < o < |q| :: Escapes(q, o)
    decreases |s|
  {
    var r := ReplaceAll(s, q);
    if s == "" {
    } else if q <= s {
      var i :| 0 <= i <= |r| && OccursAt(r, q, i);
      var rest := ReplaceAll(s[|q|..], q);
      if i < |MARKER| {
        MarkerInFront(rest, q, i);
        assert Escapes(q, 0 - i);
      } else {
        OccursBehind(MARKER, rest, q, i);
        LeakEscapes(s[|q|..], q);
      }
    } else {
      assert r[1..] == ReplaceAll(s[1..], q);
      ContainsStep(r, q);
      if q <= r {
        assert q[0..] == q && q[..0] + s == s;
        CopiedEscapes(s, q, 0);
      } else {
        LeakEscapes(s[1..], q);
      }
    }
  }

  /** The scan has copied the first k characters of the secret and comes to a marker before its end. */
  lemma {:induction false} CopiedEscapes(s: string, q: string, k: nat)
    requires q != "" && k <= |q| && q[k..] <= ReplaceAll(s, q)
    requires forall i | 0 <= i < k :: !OccursAt(q[..k] + s, q, i)
    requires k == 0 ==> !(q <= s)
    ensures exists o | -|MARKER| < o < |q| :: Escapes(q, o)
    decreases |q| - k
  {
    if k == |q| {
      assert OccursAt(q[..k] + s, q, 0);
    } else if s != "" && q <= s {
      LaidOverAt(q, k, ReplaceAll(s, q));
      forall i | 0 <= i < k ensures !OccursAt(Front(q, k) + q, q, i) {
        assert q[..k] + s == Front(q, k) + q + s[|q|..];
        OccursInFront(Front(q, k) + q, s[|q|..], q, i);
      }
      assert Escapes(q, k);
    } else {
      var r := ReplaceAll(s, q);
      assert q[k..][0] == q[k] == r[0];
      assert r[1..] == ReplaceAll(s[1..], q);
      assert q[k..][1..] == q[k + 1..] <= r[1..];
      var t := q[..k] + s;
      assert q[..k + 1] + s[1..] == t;
      OccursAfter(q[..k], s, q);
      CopiedEscapes(s[1..], q, k + 1);
    }
  }

  lemma OccursAfter(f: string, s: string, q: string)
    ensures OccursAt(f + s, q, |f|) <==> q <= s
  {
    if |q| <= |s| { assert (f + s)[|f|..|f| + |q|] == s[..|q|]; }
  }

  lemma OccursFirst(t: string, more: string, q: string)
    requires |q| <= |t|
    ensures OccursAt(t, q, 0) <==> q <= t + more
  {
    assert (t + more)[..|q|] == t[0..0 + |q|];
  }

  lemma OccursInFront(t: string, more: string, q: string, i: nat)
    ensures OccursAt(t, q, i) ==> OccursAt(t + more, q, i)
  {
    if OccursAt(t, q, i) { assert (t + more)[i..i + |q|] == t[i..i + |q|]; }
  }

  /** The text that leaks: the secret with what the marker leaves of it in front and behind. */
  lemma EscapeLeaks(q: string, o: int)
    requires q != "" && -|MARKER| < o < |q| && Escapes(q, o)
    ensures Contains(ReplaceAll(Front(q, o) + q + Back(q, o), q), q)
  {
    hide ReplaceAll, Contains;
    CopiesFront(Front(q, o), q, Back(q, o));
    TooShort(Back(q, o), q);
    Reassembled(q, o);
  }

  /** p goes on as m does from `at` on, as far as both reach. */
  predicate GoesOn(m: string, at: nat, p: string) {
    forall i | 0 <= i < |p| && i + at < |m| :: p[i] == m[i + at]
  }

  function Rest(m: string, at: nat, p: string): string
    requires at <= |m|
  {
    if |m| - at < |p| then p[|m| - at..] else ""
  }

  lemma Reassembled(q: string, o: int)
    requires -|MARKER| < o < |q| && LaidOver(q, o)
    ensures Contains(Front(q, o) + MARKER + Back(q, o), q)
  {
    if o < 0 {
      LaidOverBefore(q, o);
    } else {
      LaidOverWithin(q, o);
    }
  }

  lemma LaidOverBefore(q: string, o: int)
    requires -|MARKER| < o < 0 && LaidOver(q, o)
    ensures Contains(Front(q, o) + MARKER + Back(q, o), q)
  {
    assert GoesOn(MARKER, -o, q) && Back(q, o) == Rest(MARKER, -o, q);
    hide GoesOn, Rest, Contains, LaidOver;
    MarkerThenRest(MARKER, q, -o);
    assert Front(q, o) + MARKER + Back(q, o) == MARKER + Rest(MARKER, -o, q);
  }

  lemma LaidOverWithin(q: string, o: nat)
    requires o < |q| && LaidOver(q, o)
    ensures Contains(Front(q, o) + MARKER + Back(q, o), q)
  {
    var f, p := q[..o], q[o..];
    assert GoesOn(MARKER, 0, p) by {
      forall i | 0 <= i < |p| && i < |MARKER| ensures p[i] == MARKER[i] { assert p[i] == q[o + i]; }
    }
    assert Front(q, o) == f && Back(q, o) == Rest(MARKER, 0, p) && q == f + p;
    hide GoesOn, Rest, Contains, LaidOver, Front, Back;
    MarkerThenRest(MARKER, p, 0);
    BehindFront(f, MARKER + Rest(MARKER, 0, p), p);
    assert f + MARKER + Rest(MARKER, 0, p) == f + (MARKER + Rest(MARKER, 0, p));
  }

  lemma MarkerThenRest(m: string, p: string, at: nat)
    requires at < |m| && GoesOn(m, at, p)
    ensures Contains(m + Rest(m, at, p), p) && (at == 0 ==> OccursAt(m + Rest(m, at, p), p, 0))
  {
    var k, t := |m| - at, m + Rest(m, at, p);
    if k < |p| {
      assert p == p[..k] + p[k..] && p[..k] == m[at..];
      assert t[at..] == m[at..] + p[k..];
    } else {
      assert t[at..at + |p|] == m[at..at + |p|] == p;
    }
    ContainsAt(t, p, at);
  }

  lemma BehindFront(f: string, t: string, p: string)
    requires OccursAt(t, p, 0)
    ensures Contains(f + t, f + p)
  {
    assert (f + t)[0..0 + |f + p|] == f + t[0..0 + |p|];
    ContainsAt(f + t, f + p, 0);
  }

  lemma {:induction false} CopiesFront(f: string, q: string, z: string)
    requires q != "" && forall i | 0 <= i < |f| :: !OccursAt(f + q, q, i)
    ensures ReplaceAll(f + q + z, q) == f + MARKER + ReplaceAll(z, q)
    decreases |f|
  {
    hide ReplaceAll;
    if f == "" {
      assert f + q + z == q + z && f + MARKER + ReplaceAll(z, q) == MARKER + ReplaceAll(z, q);
      ReplacedHead(q, z);
    } else {
      OccursFirst(f + q, z, q);
      NotInTail(f, q);
      CopiesFront(f[1..], q, z);
      CopiedHead(f, q + z, q);
      assert f + (q + z) == f + q + z && f[1..] + (q + z) == f[1..] + q + z;
      assert [f[0]] + (f[1..] + MARKER + ReplaceAll(z, q)) == f + MARKER + ReplaceAll(z, q);
    }
  }

  lemma ReplacedHead(q: string, z: string)
    requires q != ""
    ensures ReplaceAll(q + z, q) == MARKER + ReplaceAll(z, q)
  {
    assert (q + z)[|q|..] == z;
  }

  lemma CopiedHead(f: string, more: string, q: string)
    requires q != "" && f != "" && !(q <= f + more)
    ensures ReplaceAll(f + more, q) == [f[0]] + ReplaceAll(f[1..] + more, q)
  {
    assert (f + more)[1..] == f[1..] + more;
  }

  lemma NotInTail(f: string, q: string)
    requires f != "" && forall i | 0 <= i < |f| :: !OccursAt(f + q, q, i)
    ensures forall i | 0 <= i < |f| - 1 :: !OccursAt(f[1..] + q, q, i)
  {
    assert (f + q)[1..] == f[1..] + q;
    forall i | 0 <= i < |f| - 1 ensures !OccursAt(f[1..] + q, q, i) {
      OccursInTail(f + q, q, i);
    }
  }

  lemma OccursInTail(t: string, q: string, i: nat)
    requires t != ""
    ensures OccursAt(t[1..], q, i) ==> OccursAt(t, q, i + 1)
  {
    if OccursAt(t[1..], q, i) { assert t[i + 1..i + 1 + |q|] == t[1..][i..i + |q|]; }
  }

  lemma {:induction false} TooShort(z: string, q: string)
    requires |z| < |q|
    ensures ReplaceAll(z, q) == z
  {
    if z != "" { TooShort(z[1..], q); }
  }

  /** Without an opening bracket the condition is that the secret is apart. */
  lemma SafeExactlyWhenApart(q: Secret)
    requires '[' !in q
    ensures NoSecretEverSurvives([q]) <==> Apart(q)
  {
    SingleSecretExactly(q);
    forall o | -|MARKER| < o < |q| ensures Escapes(q, o) <==> LaidOver(q, o) {
      if LaidOver(q, o) { BracketsMeet(q, o); }
    }
  }

  /** A secret with a bracket that leaks, since the marker's end is its beginning, and one that does not. */
  lemma BracketSecrets()
    ensures !NoSecretEverSurvives(["d]xxxxx"])
    ensures NoSecretEverSurvives(["abc[defg"])
  {
    SafeExactlyWhenApart("d]xxxxx");
    assert LaidOver("d]xxxxx", -8);
    assert Apart("abc[defg") by {
      var q := "abc[defg";
      forall o | -|MARKER| < o < |q| ensures !LaidOver(q, o) {
        if o > 0 {
          assert o == 3 ==> q[o + 1] != MARKER[1];
          assert o != 3 ==> q[o] != MARKER[0];
        } else if o == -4 {
          assert q[1] != MARKER[5];
        } else {
          assert q[0] != MARKER[-o];
        }
      }
    }
    SingleApart("abc[defg");
  }

  lemma SingleApart(q: Secret)
    requires Apart(q)
    ensures NoSecretEverSurvives([q])
  {
    SingleSecretExactly(q);
  }

  // ---------- attributes ----------

  /** A log attribute: a named group, or a value with the text that is scrubbed and the text the handler
      behind the redactor writes for it if the value is passed on as it is. The two differ where a handler
      renders a value in a way of its own, as slog's text handler does byte slices. */
  datatype Attr = Value(key: string, shown: string, written: string) | Group(key: string, members: seq<Attr>)

  const SENSITIVE_KEYS: seq<string> := ["token", "secret", "password", "passwd", "credential", "apikey",
                                        "api_key", "auth", "key", "bearer", "signature", "session"]

  predicate IsSensitiveKey(key: string) {
    exists i | 0 <= i < |SENSITIVE_KEYS| :: Contains(ToLower(key), SENSITIVE_KEYS[i])
  }

  function ScrubAttr(a: Attr, secrets: seq<Secret>): Attr
    decreases a, 0
  {
    if IsSensitiveKey(a.key) then Value(a.key, MARKER, MARKER)
    else
      match a
      case Group(key, members) => Group(key, ScrubAttrs(members, secrets))
      case Value(key, shown, _) =>
        var cleaned := ScrubAll(shown, secrets);
        if cleaned != shown then Value(key, cleaned, cleaned) else a
  }

  function ScrubAttrs(members: seq<Attr>, secrets: seq<Secret>): seq<Attr>
    decreases members, 1
  {
    if members == [] then []
    else [ScrubAttr(members[0], secrets)] + ScrubAttrs(members[1..], secrets)
  }

  /** A value at any depth, with the names of the groups around it and its own. */
  datatype Leaf = Leaf(path: seq<string>, shown: string, written: string)

  function Leaves(a: Attr, above: seq<string>): seq<Leaf>
    decreases a, 0
  {
    match a
    case Value(key, shown, written) => [Leaf(above + [key], shown, written)]
    case Group(key, members) => LeavesOf(members, above + [key])
  }

  function LeavesOf(members: seq<Attr>, above: seq<string>): seq<Leaf>
    decreases members, 1
  {
    if members == [] then [] else Leaves(members[0], above) + LeavesOf(members[1..], above)
  }

  /** One of the names from the given depth on is sensitive. */
  predicate Guarded(l: Leaf, from: nat) {
    exists i | from <= i < |l.path| :: IsSensitiveKey(l.path[i])
  }

  /** No secret is written for a value: it is withheld, or the text that was scrubbed showed a secret and is
      written instead, or nothing the handler makes of the value shows one. */
  ghost predicate Safe(l: Leaf, secrets: seq<Secret>, from: nat) {
    Guarded(l, from) || !Clean(l.shown, secrets) || Clean(l.written, secrets)
  }

  lemma ScrubbedIsClean(s: string, secrets: seq<Secret>)
    requires forall q :: q in secrets ==> Apart(q)
    ensures Clean(ScrubAll(s, secrets), secrets) && Clean(MARKER, secrets)
    ensures ScrubAll(s, secrets) == s <==> Clean(s, secrets)
  {
    forall q | q in secrets ensures !Contains(ScrubAll(s, secrets), q) && !Contains(MARKER, q) {
      ApartSecretGone(s, secrets, q);
      if Contains(MARKER, q) {
        assert MARKER + "" == MARKER;
        OccurrenceAroundMarker("", q);
      }
    }
    if Clean(s, secrets) { CleanTextUnchanged(s, secrets); }
  }

  /** At every depth, with secrets that are apart: what is written holds no secret if and only if every
      value is below a sensitive name, or shows a secret to the redactor, or shows none to the handler. */
  lemma {:induction false} WrittenCleanExactly(a: Attr, secrets: seq<Secret>, above: seq<string>)
    requires forall q :: q in secrets ==> Apart(q)
    ensures (forall l :: l in Leaves(ScrubAttr(a, secrets), above) ==> Clean(l.written, secrets))
            <==> (forall l :: l in Leaves(a, above) ==> Safe(l, secrets, |above|))
    decreases a, 0
  {
    hide Clean, IsSensitiveKey;
    if IsSensitiveKey(a.key) {
      ScrubbedIsClean("", secrets);
      forall l | l in Leaves(a, above) ensures Safe(l, secrets, |above|) {
        LeafKeepsPath(a, above, l);
        assert IsSensitiveKey(l.path[|above|]);
      }
    } else if a.Value? {
      ScrubbedIsClean(a.shown, secrets);
      assert forall x :: x in Leaves(a, above) <==> x == Leaf(above + [a.key], a.shown, a.written);
    } else {
      WrittenCleanBelow(a.members, secrets, above + [a.key]);
      assert Leaves(a, above) == LeavesOf(a.members, above + [a.key]);
      assert Leaves(ScrubAttr(a, secrets), above) == LeavesOf(ScrubAttrs(a.members, secrets), above + [a.key]);
      assert |above + [a.key]| == |above| + 1 && (above + [a.key])[|above|] == a.key;
      forall l | l in Leaves(a, above) ensures Safe(l, secrets, |above|) <==> Safe(l, secrets, |above| + 1) {
        LeafKeepsPath(a, above, l);
        assert l.path[|above|] == a.key;
      }
    }
  }

  lemma {:induction false} WrittenCleanBelow(members: seq<Attr>, secrets: seq<Secret>, above: seq<string>)
    requires forall q :: q in secrets ==> Apart(q)
    ensures (forall l :: l in LeavesOf(ScrubAttrs(members, secrets), above) ==> Clean(l.written, secrets))
            <==> (forall l :: l in LeavesOf(members, above) ==> Safe(l, secrets, |above|))
    decreases members, 1
  {
    hide Clean, Safe;
    if members != [] {
      WrittenCleanExactly(members[0], secrets, above);
      WrittenCleanBelow(members[1..], secrets, above);
      assert ScrubAttrs(members, secrets)[1..] == ScrubAttrs(members[1..], secrets);
    }
  }

  /** The name is in the key, in capitals or not. */
  predicate Inside(key: string, name: string) {
    exists i | 0 <= i <= |key| :: SpelledAt(key, name, i)
  }

  predicate SpelledAt(key: string, name: string, i: nat) {
    i + |name| <= |key| && EqualFold(key[i..i + |name|], name)
  }

  lemma LowerContains(key: string, name: string)
    requires NoCapitals(name)
    ensures Contains(ToLower(key), name) <==> Inside(key, name)
  {
    LowerNothing(name);
    forall i | 0 <= i <= |key| ensures OccursAt(ToLower(key), name, i) <==> SpelledAt(key, name, i) {
      if i + |name| <= |key| {
        var part := key[i..i + |name|];
        assert ToLower(key)[i..i + |name|] == ToLower(part);
        LowerEqual(part, name);
      }
    }
  }

  /** A name is sensitive exactly if one of these twelve is in it, in any case. */
  lemma SensitiveExactly(key: string)
    ensures IsSensitiveKey(key) <==>
            || Inside(key, "token") || Inside(key, "secret") || Inside(key, "password") || Inside(key, "passwd")
            || Inside(key, "credential") || Inside(key, "apikey") || Inside(key, "api_key") || Inside(key, "auth")
            || Inside(key, "key") || Inside(key, "bearer") || Inside(key, "signature") || Inside(key, "session")
  {
    hide Contains, Inside;
    forall i | 0 <= i < |SENSITIVE_KEYS|
      ensures Contains(ToLower(key), SENSITIVE_KEYS[i]) <==> Inside(key, SENSITIVE_KEYS[i])
    {
      LowerContains(key, SENSITIVE_KEYS[i]);
    }
    var k := SENSITIVE_KEYS;
    assert k[0] == "token" && k[1] == "secret" && k[2] == "password" && k[3] == "passwd" && k[4] == "credential"
           && k[5] == "apikey" && k[6] == "api_key" && k[7] == "auth" && k[8] == "key" && k[9] == "bearer"
           && k[10] == "signature" && k[11] == "session" && |k| == 12;
  }

  /** Below a sensitive name there is only the marker, at every depth. */
  lemma {:induction false} SensitiveWithheld(a: Attr, secrets: seq<Secret>, above: seq<string>)
    ensures forall l :: l in Leaves(ScrubAttr(a, secrets), above) && Guarded(l, |above|) ==> l.written == MARKER
    decreases a, 0
  {
    hide IsSensitiveKey;
    if !IsSensitiveKey(a.key) && a.Group? {
      SensitiveBelow(a.members, secrets, above + [a.key]);
      forall l | l in Leaves(ScrubAttr(a, secrets), above) && Guarded(l, |above|) ensures l.written == MARKER {
        LeafKeepsPath(ScrubAttr(a, secrets), above, l);
        assert Guarded(l, |above| + 1);
      }
    }
  }

  lemma {:induction false} SensitiveBelow(members: seq<Attr>, secrets: seq<Secret>, above: seq<string>)
    ensures forall l :: l in LeavesOf(ScrubAttrs(members, secrets), above) && Guarded(l, |above|) ==> l.written == MARKER
    decreases members, 1
  {
    hide Guarded;
    if members != [] {
      SensitiveWithheld(members[0], secrets, above);
      SensitiveBelow(members[1..], secrets, above);
      assert ScrubAttrs(members, secrets)[1..] == ScrubAttrs(members[1..], secrets);
    }
  }

  lemma {:induction false} LeafKeepsPath(a: Attr, above: seq<string>, l: Leaf)
    requires l in Leaves(a, above)
    ensures above + [a.key] <= l.path
    decreases a, 0
  {
    if a.Group? { LeavesKeepPath(a.members, above + [a.key], l); }
  }

  lemma {:induction false} LeavesKeepPath(members: seq<Attr>, above: seq<string>, l: Leaf)
    requires l in LeavesOf(members, above)
    ensures above <= l.path
    decreases members, 1
  {
    if l in Leaves(members[0], above) {
      LeafKeepsPath(members[0], above, l);
    } else {
      LeavesKeepPath(members[1..], above, l);
    }
  }

  /** A value the redactor sees as numbers and the handler writes as text: the secret gets through. */
  lemma BytesGetThrough(secret: Secret)
    requires Apart(secret) && !Contains("[1 2 3]", secret)
    ensures var l := Leaves(ScrubAttr(Value("body", "[1 2 3]", secret), [secret]), []);
            |l| == 1 && Contains(l[0].written, secret)
  {
    var a := Value("body", "[1 2 3]", secret);
    ScrubbedIsClean(a.shown, [secret]);
    assert OccursAt(secret, secret, 0);
    ContainsAt(secret, secret, 0);
    assert Clean(a.shown, [secret]);
    HarmlessName();
  }

  lemma HarmlessName()
    ensures !IsSensitiveKey("body")
  {
    assert ToLower("body") == "body";
    forall i | 0 <= i < |SENSITIVE_KEYS| ensures !Contains("body", SENSITIVE_KEYS[i]) {
      if Contains("body", SENSITIVE_KEYS[i]) { ContainsFirst("body", SENSITIVE_KEYS[i]); }
    }
  }
}
