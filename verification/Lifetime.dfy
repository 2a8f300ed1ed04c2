/** Configured lifetimes and their text: a duration, "unlimited", or nothing
    (internal/lifetime/lifetime.go). Durations are Go's signed 64-bit nanoseconds. */
module Lifetime {
  import opened GoStrings
  import opened GoDuration

  const DAY := 24 * HOUR
  const UNLIMITED := "unlimited"
  const MAX32 := 0x7fff_ffff

  datatype Span = Unset | Of(d: int) | Forever

  /** A lifetime that is set wins over the fallback. */
  function Or(s: Span, fallback: Span): Span {
    if s.Unset? then fallback else s
  }

  function SpanString(s: Span): string {
    match s
    case Unset => "default"
    case Forever => UNLIMITED
    case Of(d) => if d % DAY == 0 && d >= DAY then FmtInt(d / DAY) + "d" else DurationString(d)
  }

  datatype Refusal = NotALifetime | Negative | Zero

  /** Two's complement wrap-around of 64-bit arithmetic. */
  function Wrap64(x: int): (r: int)
    ensures Fits64(r) && (r == x <==> Fits64(x))
  {
    (x + TWO63) % (2 * TWO63) - TWO63
  }

  /** strings.IndexByte */
  function IndexOf(s: string, c: char): (i: int)
    ensures -1 <= i < |s| && (i == -1 <==> c !in s)
    ensures i >= 0 ==> s[i] == c && c !in s[..i]
  {
    if s == "" then -1
    else if s[0] == c then 0
    else
      var j := IndexOf(s[1..], c);
      if j < 0 then -1
      else
        assert s[..j + 1] == [s[0]] + s[1..][..j];
        j + 1
  }

  /** strconv.ParseInt(s, 10, 32) */
  function ParseInt32(s: string): Option<int>
  {
    var neg := HasPrefix(s, "-");
    var ds := if s != "" && (s[0] == '-' || s[0] == '+') then s[1..] else s;
    if ds == "" || !Digits(ds) then None
    else
      var n := Val(ds, 0);
      if neg then (if n <= MAX32 + 1 then Some(0 - n) else None)
      else if n <= MAX32 then Some(n) else None
  }

  /** A leading day count, the rest handed to the standard library. */
  function ParseWithDays(text: string): Option<int> {
    var body := TrimPrefix(TrimPrefix(text, "-"), "+");
    if 'd' !in body then ParseDuration(text) else DaysAndRest(HasPrefix(text, "-"), body)
  }

  function DaysAndRest(neg: bool, body: string): Option<int>
    requires 'd' in body
  {
    var i := IndexOf(body, 'd');
    var days, more := ParseInt32(body[..i]), After(body[i + 1..]);
    if days.None? || more.None? then None
    else
      var total := Wrap64(Wrap64(days.value * DAY) + more.value);
      Some(if neg then Wrap64(-total) else total)
  }

  /** What follows the 'd': nothing, or a Go duration. */
  function After(rest: string): Option<int> {
    if rest == "" then Some(0) else ParseDuration(rest)
  }

  function Parse(text: string): Result<Span, Refusal> {
    var t := TrimSpace(text);
    if t == "" then Ok(Unset)
    else if ToLower(t) == UNLIMITED then Ok(Forever)
    else Judged(ParseWithDays(t))
  }

  function Judged(d: Option<int>): Result<Span, Refusal> {
    if d.None? then Err(NotALifetime)
    else if d.value < 0 then Err(Negative)
    else if d.value == 0 then Err(Zero)
    else Ok(Of(d.value))
  }

  // ---------- what a text says ----------

  /** Blank text leaves the lifetime open, and nothing else does; the word alone, in any case and with white
      space around it, lifts every limit. */
  lemma ParseKinds(text: string)
    ensures Parse(text) == Ok(Unset) <==> AllSpace(text)
    ensures Parse(text) == Ok(Forever) <==> EqualFold(TrimSpace(text), "unlimited")
  {
    hide TrimSpace, ToLower, ParseWithDays;
    var t := TrimSpace(text);
    var l, r := TrimSpaceSplits(text);
    assert NoCapitals(UNLIMITED);
    LowerNothing(UNLIMITED);
    LowerEqual(t, UNLIMITED);
    assert EqualFold(t, UNLIMITED) ==> t != "";
  }

  /** A count of one of Go's units is that many of them, so long as they are 64 bits of nanoseconds. */
  lemma UnitCounts(n: nat, unit: string)
    requires PlainUnit(unit)
    ensures var worth := match unit case "ns" => 1 case "ms" => 1_000_000 case "s" => 1_000_000_000
                                    case "m" => 60_000_000_000 case "h" => 3_600_000_000_000 case _ => 1_000;
            0 < n * worth <= MAX64 ==> Parse(FmtInt(n) + unit) == Ok(Of(n * worth))
  {
    hide Parse, ParseUnits, FmtInt, ParseWithDays;
    var worth := UnitOf(unit).value;
    var t := FmtInt(n) + unit;
    assert IsDigit(FmtInt(n)[0]);
    assert t[0] == FmtInt(n)[0] && t[|t| - 1] == unit[|unit| - 1];
    if 0 < n * worth <= MAX64 {
      NumberText(t);
      PlainCount(n, unit, worth);
    }
  }

  lemma PlainCount(n: nat, unit: string, worth: nat)
    requires PlainUnit(unit) && UnitOf(unit) == Some(worth) && worth >= 1 && 0 < n * worth <= MAX64
    ensures ParseWithDays(FmtInt(n) + unit) == Some(n * worth)
  {
    hide ParseUnits, FmtInt;
    var t := FmtInt(n) + unit;
    assert IsDigit(FmtInt(n)[0]);
    assert 'd' !in t by { DigitsHaveNoD(FmtInt(n)); }
    assert t[0] == FmtInt(n)[0];
    assert TrimPrefix(TrimPrefix(t, "-"), "+") == t;
    WholeReads(n, unit, worth, "", 0);
    NothingLeft(n * worth);
    assert FmtInt(n) + unit + "" == t && |t| > 1;
  }

  /** A number alone is no lifetime: nothing says of what. */
  lemma NumbersNeedUnits(ds: string)
    requires ds != "" && Digits(ds)
    ensures Parse(ds) == if ds == "0" then Err(Zero) else Err(NotALifetime)
  {
    hide Parse, ParseUnits;
    assert IsDigit(ds[0]) && IsDigit(ds[|ds| - 1]);
    NumberText(ds);
    DigitsHaveNoD(ds);
    assert TrimPrefix(TrimPrefix(ds, "-"), "+") == ds;
    NoUnit(ds);
  }

  lemma NoUnit(ds: string)
    requires ds != "" && Digits(ds)
    ensures ParseUnits(ds, 0) == None
  {
    hide LeadingInt;
    AllRead(ds, 0);
  }

  lemma {:induction false} AllRead(ds: string, x: nat)
    requires Digits(ds)
    ensures LeadingInt(ds, x).Some? ==> LeadingInt(ds, x).value.1 == ""
    decreases |ds|
  {
    if ds != "" { AllRead(ds[1..], 10 * x + DigitVal(ds[0])); }
  }

  // ---------- what is written is read back ----------

  /** The letters of a printed duration: never a 'd', and a first and last one that are not trimmed. */
  ghost predicate Tame(s: string) {
    s != "" && 'd' !in s && !IsSpace(s[|s| - 1])
  }

  lemma DigitsHaveNoD(s: string)
    requires Digits(s)
    ensures 'd' !in s
  {
  }

  lemma {:induction false} FractionHasNoD(v: nat, prec: nat, started: bool)
    ensures 'd' !in FmtFrac(v, prec, started).0
    decreases prec
  {
    if prec > 0 { FractionHasNoD(v / 10, prec - 1, started || v % 10 != 0); }
  }

  lemma SmallTame(u: nat, prec: nat, unit: string)
    requires PlainUnit(unit)
    ensures Tame(Small(u, prec, unit))
  {
    FractionHasNoD(u, prec, false);
    var (frac, whole) := FmtFrac(u, prec, false);
    DigitsHaveNoD(FmtInt(whole));
    assert Small(u, prec, unit)[|Small(u, prec, unit)| - 1] == unit[|unit| - 1];
  }

  lemma LargeTame(u: nat)
    ensures Tame(Large(u))
  {
    LargeText(u);
    FractionHasNoD(u, 9, false);
  }

  lemma ZeroTame()
    ensures Tame("0s")
  {
  }

  lemma MagnitudeTame(u: nat)
    ensures Tame(Magnitude(u))
  {
    hide Small, Large, Tame, PlainUnit;
    if u == 0 {
      ZeroTame();
    } else if u < MICROSECOND {
      SmallTame(u, 0, "ns");
    } else if u < MILLISECOND {
      SmallTame(u, 3, "\U{00B5}s");
    } else if u < SECOND {
      SmallTame(u, 6, "ms");
    } else {
      LargeTame(u);
    }
  }

  lemma DurationTame(d: int)
    ensures Tame(DurationString(d))
    ensures var c := DurationString(d)[0]; c == '-' || IsDigit(c)
  {
    hide Magnitude;
    var u := if d < 0 then -d else d;
    MagnitudeTame(u);
    MagnitudeStarts(u);
  }

  /** A text that starts like a number is neither trimmed in front nor the word. */
  lemma NumberText(t: string)
    requires t != "" && (t[0] == '-' || IsDigit(t[0])) && !IsSpace(t[|t| - 1])
    ensures Parse(t) == Judged(ParseWithDays(t))
  {
    hide TrimSpace, ToLower, ParseWithDays;
    TrimSpaceNothingToTrim(t);
    NotTheWord(t);
  }

  lemma NotTheWord(t: string)
    requires t != "" && (t[0] == '-' || IsDigit(t[0]))
    ensures ToLower(t) != UNLIMITED
  {
    assert ToLower(t)[0] != UNLIMITED[0];
  }

  lemma PlainDuration(d: int)
    requires Fits64(d)
    ensures Parse(DurationString(d)) == Judged(Some(d))
  {
    hide TrimSpace, ToLower, ParseDuration, Parse, DurationString;
    var t := DurationString(d);
    DurationTame(d);
    DurationRoundTrip(d);
    NumberText(t);
    var body := TrimPrefix(TrimPrefix(t, "-"), "+");
    assert 'd' !in body;
  }

  /** The text of a lifetime is read back as that lifetime exactly when it is one somebody may
      configure: unlimited, or a positive duration. */
  lemma RoundTripExactly(s: Span)
    requires s.Of? ==> Fits64(s.d)
    ensures Parse(SpanString(s)) == Ok(s) <==> s == Forever || (s.Of? && s.d > 0)
    ensures s == Unset || (s.Of? && s.d <= 0) ==> Parse(SpanString(s)).Err?
  {
    hide TrimSpace, ToLower, ParseWithDays, Parse, FmtInt, DurationString;
    match s
    case Unset => DefaultRefused();
    case Forever => UnlimitedRead();
    case Of(d) =>
      if d % DAY == 0 && d >= DAY {
        WholeDaysRead(d / DAY);
      } else {
        PlainDuration(d);
      }
  }

  lemma WholeDaysRead(n: nat)
    requires n >= 1 && Fits64(n * DAY)
    ensures Parse(FmtInt(n) + "d") == Ok(Of(n * DAY))
  {
    hide Parse, FmtInt, Val;
    ValFmtInt(n);
    DaysAlone(FmtInt(n));
  }

  lemma UnlimitedRead()
    ensures Parse(UNLIMITED) == Ok(Forever)
  {
    hide ParseWithDays, TrimSpace;
    TrimSpaceNothingToTrim(UNLIMITED);
    assert ToLower(UNLIMITED) == UNLIMITED;
  }

  lemma DefaultRefused()
    ensures Parse("default") == Err(NotALifetime)
  {
    TrimSpaceNothingToTrim("default");
    assert IndexOf("default", 'd') == 0;
  }

  // ---------- what a day count means ----------

  lemma Congruent(a: int, b: int)
    ensures Wrap64(Wrap64(a) + b) == Wrap64(a + b)
    ensures Wrap64(-Wrap64(a)) == Wrap64(-a)
  {
    var m := 2 * TWO63;
    var k := (a + TWO63) / m;
    assert Wrap64(a) == a - k * m;
    WrapShift(a + b, -k);
    WrapShift(-a, k);
  }

  lemma WrapShift(x: int, k: int)
    ensures Wrap64(x + k * (2 * TWO63)) == Wrap64(x)
  {
    ModShift(x + TWO63, k, 2 * TWO63);
  }

  lemma ModShift(x: int, k: int, m: nat)
    requires m > 0
    ensures (x + k * m) % m == x % m
  {
    var q := x / m;
    assert x == q * m + x % m;
    assert x + k * m == (q + k) * m + x % m by { Distribute(q, k, m); }
    ModUnique(x + k * m, m, q + k, x % m);
  }

  lemma Distribute(q: int, k: int, m: int)
    ensures (q + k) * m == q * m + k * m
  {
  }

  lemma ModUnique(x: int, m: nat, q: int, r: nat)
    requires m > 0 && x == q * m + r && r < m
    ensures x % m == r
  {
    var p := x / m;
    assert p * m + x % m == x;
    if p < q { MulMono(m, p + 1, q); } else if q < p { MulMono(m, q + 1, p); }
  }

  lemma {:induction false} IndexOfFirst(a: string, c: char, rest: string)
    requires c !in a
    ensures IndexOf(a + [c] + rest, c) == |a|
    ensures (a + [c] + rest)[..|a|] == a && (a + [c] + rest)[|a| + 1..] == rest
    decreases |a|
  {
    if a != "" {
      IndexOfFirst(a[1..], c, rest);
      assert (a + [c] + rest)[1..] == a[1..] + [c] + rest;
    }
  }

  /** Days and rest add up, wrapped to 64 bits once at the end. */
  lemma SumOfDays(neg: bool, num: string, rest: string, days: int)
    requires 'd' !in num && ParseInt32(num) == Some(days) && After(rest).Some?
    ensures 'd' in num + "d" + rest
    ensures DaysAndRest(neg, num + "d" + rest)
            == Some(Wrap64(if neg then -(days * DAY + After(rest).value) else days * DAY + After(rest).value))
  {
    hide ParseInt32, After, IndexOf, Wrap64;
    var body := num + "d" + rest;
    assert body[|num|] == 'd';
    IndexOfFirst(num, 'd', rest);
    Congruent(days * DAY, After(rest).value);
    Congruent(days * DAY + After(rest).value, 0);
  }

  lemma Numeral(ds: string)
    requires ds != "" && Digits(ds)
    ensures 'd' !in ds && ds[0] != '-' && ds[0] != '+'
    ensures ParseInt32(ds) == if Val(ds, 0) > MAX32 then None else Some(Val(ds, 0))
    ensures Val(ds, 0) <= MAX32 ==> ParseInt32("-" + ds) == Some(0 - Val(ds, 0))
  {
    hide Val;
    assert IsDigit(ds[0]);
    assert ("-" + ds)[1..] == ds;
  }

  /** A count of n days and a rest of r mean n * 24h + r, wrapped to 64 bits. */
  lemma DayCount(ds: string, rest: string)
    requires ds != "" && Digits(ds) && After(rest).Some?
    ensures ParseWithDays(ds + "d" + rest)
            == if Val(ds, 0) > MAX32 then None else Some(Wrap64(Val(ds, 0) * DAY + After(rest).value))
  {
    hide Val, Wrap64, IndexOf, After, Digits, ParseInt32, ParseDuration;
    Numeral(ds);
    var t := ds + "d" + rest;
    assert t[0] == ds[0] && t[|ds|] == 'd';
    assert TrimPrefix(TrimPrefix(t, "-"), "+") == t;
    if Val(ds, 0) <= MAX32 {
      SumOfDays(false, ds, rest, Val(ds, 0));
    } else {
      IndexOfFirst(ds, 'd', rest);
    }
  }

  /** With a day count in front a lifetime is read exactly when the sum fits 64 bits (and is
      positive, and the count fits 32); otherwise it is refused or is some other lifetime,
      the sum short of a whole multiple of 2^64. */
  lemma DaysExactly(ds: string, rest: string)
    requires ds != "" && Digits(ds) && After(rest).Some? && (rest != "" ==> !IsSpace(rest[|rest| - 1]))
    ensures var sum, read := Val(ds, 0) * DAY + After(rest).value, Parse(ds + "d" + rest);
            && (read == Ok(Of(sum)) <==> Val(ds, 0) <= 0x7fff_ffff && 0 < sum <= MAX64)
            && (read.Ok? ==> read == Ok(Of(Wrap64(sum))))
  {
    hide ParseWithDays, Parse, Val, After;
    var t := ds + "d" + rest;
    NumberText(t);
    DayCount(ds, rest);
  }

  /** A bare day count is read as that many days up to 106751 and never beyond. */
  lemma DaysAlone(ds: string)
    requires ds != "" && Digits(ds)
    ensures Parse(ds + "d") == Ok(Of(Val(ds, 0) * DAY)) <==> 1 <= Val(ds, 0) <= 106751
  {
    hide Parse, Val;
    assert ds + "d" + "" == ds + "d";
    DaysExactly(ds, "");
    DayLimit(Val(ds, 0));
  }

  lemma DayLimit(n: nat)
    ensures n <= MAX32 && 0 < n * DAY <= MAX64 <==> 1 <= n <= 106751
  {
  }

  lemma WrittenDays(n: nat)
    requires n <= MAX32
    ensures Parse(FmtInt(n) + "d") == Judged(Some(Wrap64(n * DAY)))
  {
    hide Parse, Val, FmtInt, ParseWithDays;
    var ds := FmtInt(n);
    assert ds + "d" + "" == ds + "d";
    ValFmtInt(n);
    NumberText(ds + "d");
    DayCount(ds, "");
  }

  lemma NextDigit(n: nat, d: nat)
    requires n >= 1 && d < 10
    ensures FmtInt(10 * n + d) == FmtInt(n) + [DigitChar(d)]
  {
  }

  lemma Numerals()
    ensures FmtInt(106752) == "106752" && FmtInt(213504) == "213504"
  {
    assert FmtInt(1) == "1" && FmtInt(2) == "2";
    hide FmtInt;
    NextDigit(1, 0); NextDigit(10, 6); NextDigit(106, 7); NextDigit(1067, 5); NextDigit(10675, 2);
    NextDigit(2, 1); NextDigit(21, 3); NextDigit(213, 5); NextDigit(2135, 0); NextDigit(21350, 4);
  }

  /** The first day count past the limit comes out negative and is refused; the double of it
      comes out as 25 minutes and is accepted. */
  lemma PastTheLimit()
    ensures Parse("106752d") == Err(Negative)
    ensures Parse("213504d") == Ok(Of(1526290448384))
  {
    hide Parse, FmtInt;
    Numerals();
    WrittenDays(106752);
    WrittenDays(213504);
    assert "106752" + "d" == "106752d" && "213504" + "d" == "213504d";
  }

  /** What the days and the rest behind a leading minus sign add up to before the sign counts, if they
      are read at all. */
  function SumBehindMinus(body: string): Option<int> {
    if 'd' !in body then None
    else
      var i := IndexOf(body, 'd');
      var days, more := ParseInt32(body[..i]), After(body[i + 1..]);
      if days.None? || more.None? then None else Some(days.value * DAY + more.value)
  }

  /** A text with a minus sign in front is accepted exactly when there is a day count, it and the rest
      are read, and their sum, itself signed, comes out positive when it is negated in 64 bits; that is
      then the lifetime. */
  lemma LeadingMinusExactly(text: string)
    requires HasPrefix(TrimSpace(text), "-")
    ensures var sum := SumBehindMinus(TrimPrefix(TrimSpace(text)[1..], "+"));
            && (Parse(text).Ok? <==> sum.Some? && Wrap64(-sum.value) > 0)
            && (Parse(text).Ok? ==> Parse(text) == Ok(Of(Wrap64(-sum.value))))
  {
    var t := TrimSpace(text);
    NotTheWord(t);
    assert Parse(text) == Judged(ParseWithDays(t)) by { hide ParseWithDays, TrimSpace, ToLower; }
    MinusTaken(t);
  }

  lemma MinusTaken(t: string)
    requires HasPrefix(t, "-")
    ensures var body := TrimPrefix(t[1..], "+");
            if 'd' in body then ParseWithDays(t) == (var sum := SumBehindMinus(body);
                                                     if sum.None? then None else Some(Wrap64(-sum.value)))
            else ParseWithDays(t).None? || ParseWithDays(t).value <= 0
  {
    hide IndexOf, ParseInt32, Wrap64, After, ParseUnits;
    var body := TrimPrefix(t[1..], "+");
    assert TrimPrefix(TrimPrefix(t, "-"), "+") == body;
    if 'd' in body && SumBehindMinus(body).Some? {
      var i := IndexOf(body, 'd');
      var days, more := ParseInt32(body[..i]).value, After(body[i + 1..]).value;
      Congruent(days * DAY, more);
      Congruent(days * DAY + more, 0);
    }
  }

  /** So long as the sum fits 64 bits, that is: exactly when it is negative. */
  lemma MinusOfNegative(sum: int)
    requires Fits64(sum)
    ensures Wrap64(-sum) > 0 <==> -TWO63 < sum < 0
    ensures -TWO63 < sum < 0 ==> Wrap64(-sum) == -sum
  {
  }

  /** A bare day count behind a minus sign is refused; a second sign on the count, or a rest that
      outweighs it, has the lifetime accepted. */
  lemma MinusSigns(ds: string)
    requires ds != "" && Digits(ds) && 1 <= Val(ds, 0) <= 106751
    ensures Parse("-" + ds + "d") == Err(Negative)
    ensures Parse("--" + ds + "d") == Ok(Of(Val(ds, 0) * DAY))
    ensures Parse("-1d-30h") == Ok(Of(6 * HOUR))
  {
    hide Val, Parse, ParseWithDays, Digits;
    OneMinus(ds);
    TwoMinus(ds);
    NumberText("-" + ds + "d");
    NumberText("--" + ds + "d");
    DayLimit(Val(ds, 0));
    DayLessThirtyHours();
  }

  lemma DayLessThirtyHours()
    ensures Parse("-1d-30h") == Ok(Of(6 * HOUR))
  {
    hide Parse, ParseWithDays, ParseInt32, After, SumBehindMinus, Wrap64, TrimPrefix, IsSpace, Val, ParseDuration;
    OneDay();
    ThirtyHours();
    var t := "-1d-30h";
    NumberText(t);
    MinusTaken(t);
    SumRead("1d-30h", "1", "-30h");
    MinusOfNegative(DAY - 30 * HOUR);
  }

  lemma OneDay()
    ensures 'd' !in "1" && ParseInt32("1") == Some(1)
    ensures "-1d-30h"[1..] == "1d-30h" && TrimPrefix("1d-30h", "+") == "1d-30h" && "1d-30h" == "1" + "d" + "-30h"
    ensures HasPrefix("-1d-30h", "-") && "-1d-30h"[|"-1d-30h"| - 1] == 'h' && !IsSpace('h')
  {
    assert "1"[1..] == "" && Val("", 1) == 1;
    assert "1d-30h" == "1" + "d" + "-30h";
    assert "1d-30h"[0] != "+"[0];
  }

  lemma SumRead(body: string, num: string, rest: string)
    requires body == num + "d" + rest && 'd' !in num && ParseInt32(num).Some? && After(rest).Some?
    ensures 'd' in body && SumBehindMinus(body) == Some(ParseInt32(num).value * DAY + After(rest).value)
  {
    hide ParseInt32, After;
    assert body[|num|] == 'd';
    IndexOfFirst(num, 'd', rest);
  }

  lemma ThirtyHours()
    ensures After("-30h") == Some(-30 * HOUR)
  {
    assert FmtInt(3) == "3" && FmtInt(30) == "30";
    hide ParseUnits, FmtInt;
    HoursRead(30, "", 0);
    NothingLeft(30 * HOUR);
    assert "30" + "h" + "" == "30h" && "-30h"[1..] == "30h";
  }

  lemma OneMinus(ds: string)
    requires ds != "" && Digits(ds) && Val(ds, 0) <= MAX32
    ensures ParseWithDays("-" + ds + "d") == Some(Wrap64(0 - Val(ds, 0) * DAY))
  {
    hide Val, Digits, ParseInt32, ParseWithDays, SumBehindMinus, Wrap64;
    Numeral(ds);
    assert ds + "d" + "" == ds + "d" && ("-" + ds + "d")[1..] == ds + "d" && (ds + "d")[0] == ds[0];
    SumRead(ds + "d", ds, "");
    MinusTaken("-" + ds + "d");
  }

  lemma TwoMinus(ds: string)
    requires ds != "" && Digits(ds) && Val(ds, 0) <= MAX32
    ensures ParseWithDays("--" + ds + "d") == Some(Wrap64(Val(ds, 0) * DAY))
  {
    hide Val, Digits, ParseInt32, ParseWithDays, SumBehindMinus, Wrap64;
    Numeral(ds);
    var body := "-" + ds + "d";
    assert body + "" == body && ("--" + ds + "d")[1..] == body && body[0] == '-' && 'd' !in "-" + ds;
    SumRead(body, "-" + ds, "");
    MinusTaken("--" + ds + "d");
  }
}
