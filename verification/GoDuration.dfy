/** Go's time.Duration text form: Duration.String and time.ParseDuration, on 64-bit nanoseconds.
    A fraction contributes the floor of its exact value, which is what the float arithmetic of
    ParseDuration yields on every text String prints. */
module GoDuration {
  import opened GoStrings

  const TWO63 := 0x8000_0000_0000_0000
  const MAX64 := TWO63 - 1
  const MICROSECOND := 1_000
  const MILLISECOND := 1_000_000
  const SECOND := 1_000_000_000
  const MINUTE := 60_000_000_000
  const HOUR := 3_600_000_000_000

  predicate Fits64(x: int) {
    -TWO63 <= x <= MAX64
  }

  // ---------- digits ----------

  predicate IsDigit(c: char) {
    '0' <= c <= '9'
  }

  predicate Digits(s: string) {
    forall i | 0 <= i < |s| :: IsDigit(s[i])
  }

  function DigitChar(d: nat): char
    requires d < 10
    ensures IsDigit(DigitChar(d))
  {
    '0' + d as char
  }

  function DigitVal(c: char): nat
    requires IsDigit(c)
  {
    (c - '0') as int
  }

  function FmtInt(n: nat): (s: string)
    ensures s != "" && Digits(s)
  {
    if n < 10 then [DigitChar(n)] else FmtInt(n / 10) + [DigitChar(n % 10)]
  }

  /** The value of a digit string read after x. */
  function Val(ds: string, x: nat): (v: nat)
    requires Digits(ds)
    ensures v >= x
    decreases |ds|
  {
    if ds == "" then x else Val(ds[1..], 10 * x + DigitVal(ds[0]))
  }

  lemma {:induction false} ValAppend(a: string, c: char, x: nat)
    requires Digits(a) && IsDigit(c)
    ensures Digits(a + [c]) && Val(a + [c], x) == 10 * Val(a, x) + DigitVal(c)
    decreases |a|
  {
    if a == "" {
      assert [c][1..] == "";
    } else {
      ValAppend(a[1..], c, 10 * x + DigitVal(a[0]));
      assert (a + [c])[1..] == a[1..] + [c];
    }
  }

  lemma {:induction false} ValFmtInt(n: nat)
    ensures Val(FmtInt(n), 0) == n
  {
    if n >= 10 {
      ValFmtInt(n / 10);
      ValAppend(FmtInt(n / 10), DigitChar(n % 10), 0);
    }
  }

  // ---------- String ----------

  /** Up to prec digits behind a point, trailing zeros omitted, and what is left in front of it. */
  function FmtFrac(v: nat, prec: nat, started: bool): (string, nat) {
    if prec == 0 then (if started then "." else "", v)
    else
      var on := started || v % 10 != 0;
      var (front, rest) := FmtFrac(v / 10, prec - 1, on);
      (front + (if on then [DigitChar(v % 10)] else ""), rest)
  }

  function Small(u: nat, prec: nat, unit: string): string {
    var (frac, whole) := FmtFrac(u, prec, false);
    FmtInt(whole) + frac + unit
  }

  function Large(u: nat): string {
    var (frac, seconds) := FmtFrac(u, 9, false);
    var s := FmtInt(seconds % 60) + frac + "s";
    var minutes := seconds / 60;
    if minutes == 0 then s
    else if minutes / 60 == 0 then FmtInt(minutes % 60) + "m" + s
    else FmtInt(minutes / 60) + "h" + (FmtInt(minutes % 60) + "m" + s)
  }

  function Magnitude(u: nat): string {
    if u == 0 then "0s"
    else if u < MICROSECOND then Small(u, 0, "ns")
    else if u < MILLISECOND then Small(u, 3, "\U{00B5}s")
    else if u < SECOND then Small(u, 6, "ms")
    else Large(u)
  }

  /** Duration.String */
  function DurationString(d: int): string {
    if d < 0 then "-" + Magnitude(-d) else Magnitude(d)
  }

  // ---------- ParseDuration ----------

  function LeadingInt(s: string, x: nat): Option<(nat, string)>
    decreases |s|
  {
    if s == "" || !IsDigit(s[0]) then Some((x, s))
    else if x > TWO63 / 10 then None
    else if 10 * x + DigitVal(s[0]) > TWO63 then None
    else LeadingInt(s[1..], 10 * x + DigitVal(s[0]))
  }

  /** The digits behind the point; once they overflow the rest is skipped. */
  function LeadingFraction(s: string, x: nat, scale: nat, overflow: bool): (nat, nat, string)
    decreases |s|
  {
    if s == "" || !IsDigit(s[0]) then (x, scale, s)
    else if overflow || x > MAX64 / 10 || 10 * x + DigitVal(s[0]) > TWO63
    then LeadingFraction(s[1..], x, scale, true)
    else LeadingFraction(s[1..], 10 * x + DigitVal(s[0]), 10 * scale, false)
  }

  function UnitLength(s: string): (n: nat)
    ensures n <= |s|
  {
    if s == "" || s[0] == '.' || IsDigit(s[0]) then 0 else 1 + UnitLength(s[1..])
  }

  function UnitOf(u: string): Option<nat> {
    if u == "ns" then Some(1)
    else if u == "us" || u == "\U{00B5}s" || u == "\U{03BC}s" then Some(MICROSECOND)
    else if u == "ms" then Some(MILLISECOND)
    else if u == "s" then Some(SECOND)
    else if u == "m" then Some(MINUTE)
    else if u == "h" then Some(HOUR)
    else None
  }

  lemma {:induction false} LeadingIntShrinks(s: string, x: nat)
    ensures var r := LeadingInt(s, x);
            r.Some? ==> |r.value.1| <= |s| && (s != "" && IsDigit(s[0]) ==> |r.value.1| < |s|)
    decreases |s|
  {
    if s != "" && IsDigit(s[0]) { LeadingIntShrinks(s[1..], 10 * x + DigitVal(s[0])); }
  }

  lemma {:induction false} LeadingFractionShrinks(s: string, x: nat, scale: nat, overflow: bool)
    requires scale >= 1
    ensures var r := LeadingFraction(s, x, scale, overflow); |r.2| <= |s| && r.1 >= 1
    decreases |s|
  {
    if s != "" && IsDigit(s[0]) {
      if overflow || x > MAX64 / 10 || 10 * x + DigitVal(s[0]) > TWO63 {
        LeadingFractionShrinks(s[1..], x, scale, true);
      } else {
        LeadingFractionShrinks(s[1..], 10 * x + DigitVal(s[0]), 10 * scale, false);
      }
    }
  }

  /** The number in front of a unit: value, fraction, scale of the fraction, and what follows. */
  datatype Number = Number(v: nat, f: nat, scale: nat, rest: string)

  function ReadNumber(s: string): (r: Option<Number>)
    ensures r.Some? ==> r.value.scale >= 1 && |r.value.rest| < |s|
  {
    if s == "" || !(s[0] == '.' || IsDigit(s[0])) then None
    else
      LeadingIntShrinks(s, 0);
      var lead := LeadingInt(s, 0);
      if lead.None? then None
      else
        var (v, after) := lead.value;
        if after != "" && after[0] == '.' then
          LeadingFractionShrinks(after[1..], 0, 1, false);
          var (f, scale, rest) := LeadingFraction(after[1..], 0, 1, false);
          if after == s && rest == after[1..] then None else Some(Number(v, f, scale, rest))
        else Some(Number(v, 0, 1, after))
  }

  /** A number of units, the fraction cut to whole nanoseconds. */
  function Amount(v: nat, f: nat, scale: nat, unit: nat): nat
    requires scale >= 1
  {
    v * unit + f * unit / scale
  }

  function ParseUnits(s: string, d: nat): Option<nat>
    decreases |s|
  {
    if s == "" then Some(d)
    else
      var num := ReadNumber(s);
      if num.None? then None
      else
        var Number(v, f, scale, rest) := num.value;
        var n := UnitLength(rest);
        var unit := UnitOf(rest[..n]);
        if n == 0 || unit.None? || v > TWO63 / unit.value then None
        else
          var total := Amount(v, f, scale, unit.value);
          if total > TWO63 || d + total > TWO63 then None else ParseUnits(rest[n..], d + total)
  }

  /** time.ParseDuration */
  function ParseDuration(text: string): Option<int>
  {
    var neg := text != "" && text[0] == '-';
    var s := if text != "" && (text[0] == '-' || text[0] == '+') then text[1..] else text;
    if s == "0" then Some(0)
    else if s == "" then None
    else
      var d := ParseUnits(s, 0);
      match d
      case None => None
      case Some(n) => if neg then Some(0 - n) else if n > MAX64 then None else Some(n)
  }

  // ---------- reading back what was printed ----------

  function Pow10(n: nat): (p: nat)
    ensures p >= 1
  {
    if n == 0 then 1 else 10 * Pow10(n - 1)
  }

  /** Where a number or unit ends. */
  predicate Stops(rest: string) {
    rest == "" || !IsDigit(rest[0])
  }

  lemma {:induction false} LeadingIntReads(ds: string, rest: string, x: nat)
    requires Digits(ds) && Stops(rest) && Val(ds, x) <= TWO63
    ensures LeadingInt(ds + rest, x) == Some((Val(ds, x), rest))
    decreases |ds|
  {
    if ds == "" {
      assert ds + rest == rest;
    } else {
      assert (ds + rest)[1..] == ds[1..] + rest;
      LeadingIntReads(ds[1..], rest, 10 * x + DigitVal(ds[0]));
    }
  }

  lemma MulMono(m: nat, a: int, b: int)
    requires a <= b
    ensures m * a <= m * b
  {
  }

  lemma TenInside(a: int, b: int)
    ensures (10 * a) * b == a * (10 * b) == 10 * (a * b)
  {
  }

  lemma {:induction false} LeadingFractionReads(ds: string, rest: string, x: nat, scale: nat)
    requires Digits(ds) && Stops(rest) && Val(ds, x) <= SECOND
    ensures LeadingFraction(ds + rest, x, scale, false) == (Val(ds, x), scale * Pow10(|ds|), rest)
    decreases |ds|
  {
    if ds == "" {
      assert ds + rest == rest;
    } else {
      assert (ds + rest)[1..] == ds[1..] + rest;
      var y := 10 * x + DigitVal(ds[0]);
      assert y <= Val(ds, x);
      TenInside(scale, Pow10(|ds| - 1));
      LeadingFractionReads(ds[1..], rest, y, 10 * scale);
    }
  }

  /** What FmtFrac prints: nothing for a whole number, else a point and digits whose value,
      scaled up by the omitted zeros, is the fractional part. */
  ghost predicate FracPrinted(frac: string, v: nat, prec: nat, started: bool) {
    if frac == "" then !started && v % Pow10(prec) == 0
    else
      && frac[0] == '.' && Digits(frac[1..])
      && |frac| - 1 <= prec && (started ==> |frac| - 1 == prec) && (started || |frac| > 1)
      && Scaled(frac, prec) == v % Pow10(prec)
  }

  ghost function Scaled(frac: string, prec: nat): nat
    requires frac != "" && Digits(frac[1..]) && |frac| - 1 <= prec
  {
    Val(frac[1..], 0) * Pow10(prec + 1 - |frac|)
  }

  lemma DivModSplit(v: nat, p: nat)
    requires p >= 1
    ensures v % (10 * p) == 10 * (v / 10 % p) + v % 10
    ensures v / 10 / p == v / (10 * p)
  {
    var q := v / 10;
    TenInside(p, q / p);
    DivModUnique(v, 10 * p, q / p, 10 * (q % p) + v % 10);
  }

  lemma DivModUnique(v: nat, m: nat, a: nat, b: nat)
    requires m >= 1 && v == m * a + b && b < m
    ensures v / m == a && v % m == b
  {
    var q := v / m;
    if q < a {
      MulMono(m, q + 1, a);
    } else if q > a {
      MulMono(m, a + 1, q);
    }
  }

  lemma ScaledOneMore(frac: string, prec: nat)
    requires frac != "" && Digits(frac[1..]) && |frac| - 1 <= prec
    ensures Scaled(frac, prec + 1) == 10 * Scaled(frac, prec)
  {
    TenInside(Val(frac[1..], 0), Pow10(prec + 1 - |frac|));
  }

  lemma ScaledAppend(front: string, c: char)
    requires front != "" && Digits(front[1..]) && IsDigit(c)
    ensures Digits((front + [c])[1..])
    ensures Scaled(front + [c], |front|) == 10 * Scaled(front, |front| - 1) + DigitVal(c)
  {
    assert (front + [c])[1..] == front[1..] + [c];
    ValAppend(front[1..], c, 0);
  }

  /** One more digit printed behind what is there. */
  lemma FracDigit(front: string, v: nat, prec: nat, started: bool)
    requires prec > 0 && (started || v % 10 != 0)
    requires FracPrinted(front, v / 10, prec - 1, true)
    ensures FracPrinted(front + [DigitChar(v % 10)], v, prec, started)
  {
    DivModSplit(v, Pow10(prec - 1));
    ScaledAppend(front, DigitChar(v % 10));
    assert DigitVal(DigitChar(v % 10)) == v % 10;
  }

  /** A trailing zero left out. */
  lemma FracSkip(front: string, v: nat, prec: nat)
    requires prec > 0 && v % 10 == 0
    requires FracPrinted(front, v / 10, prec - 1, false)
    ensures FracPrinted(front, v, prec, false)
  {
    DivModSplit(v, Pow10(prec - 1));
    if front != "" { ScaledOneMore(front, prec - 1); }
  }

  lemma {:induction false} FmtFracPrints(v: nat, prec: nat, started: bool)
    ensures FmtFrac(v, prec, started).1 == v / Pow10(prec)
    ensures FracPrinted(FmtFrac(v, prec, started).0, v, prec, started)
    decreases prec
  {
    if prec > 0 {
      var on := started || v % 10 != 0;
      var (front, rest) := FmtFrac(v / 10, prec - 1, on);
      FmtFracPrints(v / 10, prec - 1, on);
      assert rest == v / Pow10(prec) by { DivModSplit(v, Pow10(prec - 1)); }
      if on {
        FracDigit(front, v, prec, started);
        assert FmtFrac(v, prec, started).0 == front + [DigitChar(v % 10)];
      } else {
        FracSkip(front, v, prec);
        assert FmtFrac(v, prec, started).0 == front + "" == front;
      }
    }
  }

  predicate PlainUnit(u: string) {
    u in {"ns", "\U{00B5}s", "ms", "s", "m", "h"}
  }

  predicate StartsNumber(rest: string) {
    rest == "" || IsDigit(rest[0])
  }

  lemma UnitReads(u: string, rest: string)
    requires PlainUnit(u) && StartsNumber(rest)
    ensures UnitLength(u + rest) == |u| && (u + rest)[..|u|] == u && (u + rest)[|u|..] == rest
    ensures UnitOf(u).Some? && UnitOf(u).value >= 1 && Stops(u + rest) && (u + rest)[0] != '.'
  {
    assert (u + rest)[1..] == u[1..] + rest;
    if |u| == 2 {
      assert (u + rest)[1..][1..] == rest;
    } else {
      assert (u + rest)[1..] == rest;
    }
  }

  /** The number in front of a unit is read whole. */
  lemma WholeNumberReads(n: nat, after: string)
    requires n <= TWO63 && Stops(after) && (after == "" || after[0] != '.')
    ensures ReadNumber(FmtInt(n) + after) == Some(Number(n, 0, 1, after))
  {
    ValFmtInt(n);
    LeadingIntReads(FmtInt(n), after, 0);
  }

  lemma FractionNumberReads(n: nat, frac: string, after: string)
    requires n <= TWO63 && Stops(after) && |frac| > 1 && frac[0] == '.' && Digits(frac[1..])
    requires Val(frac[1..], 0) <= SECOND
    ensures ReadNumber(FmtInt(n) + (frac + after)) == Some(Number(n, Val(frac[1..], 0), Pow10(|frac| - 1), after))
  {
    hide FmtInt, LeadingInt, LeadingFraction, Val, Pow10;
    var tail := frac + after;
    ValFmtInt(n);
    LeadingIntReads(FmtInt(n), tail, 0);
    assert tail[1..] == frac[1..] + after && |after| < |tail[1..]|;
    LeadingFractionReads(frac[1..], after, 0, 1);
  }

  /** One turn of the parser's loop. */
  lemma ParseStep(s: string, num: Number, u: string, unit: nat, rest: string, d: nat, amount: nat)
    requires s != "" && ReadNumber(s) == Some(num) && num.rest == u + rest && num.scale >= 1
    requires PlainUnit(u) && StartsNumber(rest) && UnitOf(u) == Some(unit) && unit >= 1
    requires num.v <= TWO63 / unit
    requires Amount(num.v, num.f, num.scale, unit) == amount && d + amount <= TWO63
    ensures ParseUnits(s, d) == ParseUnits(rest, d + amount)
  {
    UnitReads(u, rest);
  }

  /** What a printed component is worth. */
  function Worth(n: nat, frac: string, v: nat, unit: nat): nat
    requires unit >= 1
  {
    n * unit + if frac == "" then 0 else v % unit
  }

  lemma FractionAmount(n: nat, frac: string, v: nat, prec: nat)
    requires FracPrinted(frac, v, prec, false) && frac != ""
    ensures Amount(n, Val(frac[1..], 0), Pow10(|frac| - 1), Pow10(prec)) == Worth(n, frac, v, Pow10(prec))
    ensures Val(frac[1..], 0) <= Pow10(prec)
  {
    FractionValue(Val(frac[1..], 0), |frac| - 1, prec + 1 - |frac|, v % Pow10(prec));
  }

  lemma CountBound(n: nat, unit: nat, more: nat)
    requires unit >= 1 && n * unit + more <= TWO63
    ensures n <= TWO63 / unit && n <= TWO63
  {
    QuotientBound(n, unit, TWO63);
    MulMono(n, 1, unit);
  }

  /** A component without a fraction is read as one step of the parser. */
  lemma WholeReads(n: nat, u: string, unit: nat, rest: string, d: nat)
    requires PlainUnit(u) && StartsNumber(rest)
    requires UnitOf(u) == Some(unit) && unit >= 1 && d + n * unit <= TWO63
    ensures ParseUnits(FmtInt(n) + u + rest, d) == ParseUnits(rest, d + n * unit)
  {
    hide ParseUnits, ReadNumber, FmtInt, UnitOf, UnitLength;
    var after := u + rest;
    assert Stops(after) && (after == "" || after[0] != '.') by { UnitReads(u, rest); }
    CountBound(n, unit, d);
    WholeNumberReads(n, after);
    AmountWhole(n, unit);
    assert FmtInt(n) + u + rest == FmtInt(n) + after;
    ParseStep(FmtInt(n) + after, Number(n, 0, 1, after), u, unit, rest, d, n * unit);
  }

  /** So is one with a fraction. */
  lemma FractionReads(n: nat, frac: string, v: nat, prec: nat, u: string, rest: string, d: nat)
    requires PlainUnit(u) && StartsNumber(rest) && frac != ""
    requires FracPrinted(frac, v, prec, false) && Pow10(prec) <= SECOND && UnitOf(u) == Some(Pow10(prec))
    requires d + Worth(n, frac, v, Pow10(prec)) <= TWO63
    ensures ParseUnits(FmtInt(n) + frac + u + rest, d) == ParseUnits(rest, d + Worth(n, frac, v, Pow10(prec)))
  {
    hide ParseUnits, ReadNumber, FmtInt, UnitOf, UnitLength, Scaled;
    var after, f, unit := u + rest, Val(frac[1..], 0), Pow10(prec);
    assert Stops(after) by { UnitReads(u, rest); }
    CountBound(n, unit, d);
    FractionAmount(n, frac, v, prec);
    FractionNumberReads(n, frac, after);
    assert FmtInt(n) + frac + u + rest == FmtInt(n) + (frac + after);
    ParseStep(FmtInt(n) + (frac + after), Number(n, f, Pow10(|frac| - 1), after), u, unit, rest, d,
              Worth(n, frac, v, unit));
  }

  /** One printed component is read as one step of the parser. */
  lemma ComponentReads(n: nat, frac: string, v: nat, prec: nat, u: string, rest: string, d: nat)
    requires PlainUnit(u) && StartsNumber(rest)
    requires FracPrinted(frac, v, prec, false) && Pow10(prec) <= SECOND && UnitOf(u) == Some(Pow10(prec))
    requires d + Worth(n, frac, v, Pow10(prec)) <= TWO63
    ensures ParseUnits(FmtInt(n) + frac + u + rest, d) == ParseUnits(rest, d + Worth(n, frac, v, Pow10(prec)))
  {
    hide ParseUnits, FmtInt, UnitOf, FracPrinted;
    if frac == "" {
      assert FmtInt(n) + frac + u + rest == FmtInt(n) + u + rest;
      WholeReads(n, u, Pow10(prec), rest, d);
    } else {
      FractionReads(n, frac, v, prec, u, rest, d);
    }
  }

  lemma AmountWhole(n: nat, unit: nat)
    ensures Amount(n, 0, 1, unit) == n * unit
  {
  }

  lemma QuotientBound(n: nat, unit: nat, bound: nat)
    requires unit >= 1 && n * unit <= bound
    ensures n <= bound / unit
  {
    if n > bound / unit {
      MulMono(unit, bound / unit + 1, n);
    }
  }

  lemma {:induction false} Pow10Sum(a: nat, b: nat)
    ensures Pow10(a + b) == Pow10(a) * Pow10(b)
  {
    if a > 0 { Pow10Sum(a - 1, b); }
  }

  /** The digits behind the point, scaled by the unit, are the fractional part exactly. */
  lemma FractionValue(f: nat, len: nat, k: nat, part: nat)
    requires f * Pow10(k) == part
    ensures f * Pow10(len + k) / Pow10(len) == part
    ensures f <= part
  {
    Pow10Sum(len, k);
    var p, q := Pow10(len), Pow10(k);
    Regroup(f, p, q);
    DivModUnique(f * Pow10(len + k), p, part, 0);
    MulMono(f, 1, q);
  }

  lemma Regroup(f: int, p: int, q: int)
    ensures f * (p * q) == p * (f * q)
  {
  }

  lemma NothingLeft(d: nat)
    ensures ParseUnits("", d) == Some(d)
  {
  }

  lemma FractionOmitted(u: nat, prec: nat, frac: string)
    requires FracPrinted(frac, u, prec, false)
    ensures frac == "" ==> u % Pow10(prec) == 0
  {
  }

  lemma SmallReads(u: nat, prec: nat, unit: string)
    requires PlainUnit(unit) && UnitOf(unit) == Some(Pow10(prec)) && Pow10(prec) <= SECOND && u < SECOND
    ensures ParseUnits(Small(u, prec, unit), 0) == Some(u)
  {
    hide ParseUnits, FmtFrac, FmtInt, FracPrinted;
    var (frac, whole) := FmtFrac(u, prec, false);
    FmtFracPrints(u, prec, false);
    var p := Pow10(prec);
    assert u == whole * p + u % p;
    ComponentReads(whole, frac, u, prec, unit, "", 0);
    NothingLeft(u);
    FractionOmitted(u, prec, frac);
    assert Small(u, prec, unit) == FmtInt(whole) + frac + unit + "";
  }

  lemma Pow10Nine()
    ensures Pow10(0) == 1 && Pow10(3) == MICROSECOND && Pow10(6) == MILLISECOND && Pow10(9) == SECOND
  {
    assert Pow10(3) == 10 * Pow10(2) == 100 * Pow10(1) == 1000 * Pow10(0);
    assert Pow10(6) == 10 * Pow10(5) == 100 * Pow10(4) == 1000 * Pow10(3);
    assert Pow10(9) == 10 * Pow10(8) == 100 * Pow10(7) == 1000 * Pow10(6);
  }

  /** The seconds component, the last one. */
  lemma SecondsRead(seconds: nat, frac: string, u: nat, d: nat)
    requires FracPrinted(frac, u, 9, false)
    requires d + Worth(seconds, frac, u, SECOND) <= TWO63
    ensures ParseUnits(FmtInt(seconds) + frac + "s", d) == Some(d + Worth(seconds, frac, u, SECOND))
  {
    hide ParseUnits, FmtInt, FracPrinted;
    Pow10Nine();
    ComponentReads(seconds, frac, u, 9, "s", "", d);
    NothingLeft(d + Worth(seconds, frac, u, SECOND));
    assert FmtInt(seconds) + frac + "s" + "" == FmtInt(seconds) + frac + "s";
  }

  lemma HoursRead(n: nat, rest: string, d: nat)
    requires StartsNumber(rest) && d + n * HOUR <= TWO63
    ensures ParseUnits(FmtInt(n) + "h" + rest, d) == ParseUnits(rest, d + n * HOUR)
  {
    hide ParseUnits, FmtInt;
    WholeReads(n, "h", HOUR, rest, d);
  }

  lemma MinutesRead(n: nat, rest: string, d: nat)
    requires StartsNumber(rest) && d + n * MINUTE <= TWO63
    ensures ParseUnits(FmtInt(n) + "m" + rest, d) == ParseUnits(rest, d + n * MINUTE)
  {
    hide ParseUnits, FmtInt;
    WholeReads(n, "m", MINUTE, rest, d);
  }

  /** Hours, minutes, seconds and the fraction make up the whole. */
  lemma ClockParts(u: nat, h: nat, m: nat, sec: nat)
    requires h == u / SECOND / 60 / 60 && m == u / SECOND / 60 % 60 && sec == u / SECOND % 60
    ensures u == h * HOUR + m * MINUTE + sec * SECOND + u % SECOND
    ensures u / SECOND / 60 == 0 ==> h == 0 && m == 0
  {
  }

  function SecondsText(seconds: nat, frac: string): string {
    FmtInt(seconds) + frac + "s"
  }

  function MinutesText(minutes: nat, s: string): string {
    FmtInt(minutes) + "m" + s
  }

  function HoursText(hours: nat, s: string): string {
    FmtInt(hours) + "h" + s
  }

  lemma SecondsTextReads(sec: nat, frac: string, u: nat, d: nat)
    requires FracPrinted(frac, u, 9, false)
    requires d + sec * SECOND + u % SECOND <= TWO63
    ensures StartsNumber(SecondsText(sec, frac))
    ensures ParseUnits(SecondsText(sec, frac), d) == Some(d + sec * SECOND + u % SECOND)
  {
    hide ParseUnits;
    Pow10Nine();
    SecondsRead(sec, frac, u, d);
  }

  lemma MinutesTextReads(minutes: nat, s: string, d: nat)
    requires StartsNumber(s) && d + minutes * MINUTE <= TWO63
    ensures StartsNumber(MinutesText(minutes, s))
    ensures ParseUnits(MinutesText(minutes, s), d) == ParseUnits(s, d + minutes * MINUTE)
  {
    hide ParseUnits;
    MinutesRead(minutes, s, d);
  }

  /** The text of u nanoseconds, split at its units. */
  lemma LargeText(u: nat)
    ensures var frac, seconds := FmtFrac(u, 9, false).0, FmtFrac(u, 9, false).1;
            var s := SecondsText(seconds % 60, frac);
            Large(u) == if seconds / 60 == 0 then s
                        else if seconds / 60 / 60 == 0 then MinutesText(seconds / 60 % 60, s)
                        else HoursText(seconds / 60 / 60, MinutesText(seconds / 60 % 60, s))
  {
  }

  lemma HoursTextReads(hours: nat, s: string)
    requires StartsNumber(s) && hours * HOUR <= TWO63
    ensures ParseUnits(HoursText(hours, s), 0) == ParseUnits(s, hours * HOUR)
  {
    hide ParseUnits;
    HoursRead(hours, s, 0);
  }

  lemma MinutesLeft(m: nat, s: string, u: nat)
    requires StartsNumber(s) && m * MINUTE <= TWO63 && ParseUnits(s, m * MINUTE) == Some(u)
    ensures m == 0 ==> ParseUnits(s, 0) == Some(u)
    ensures ParseUnits(MinutesText(m, s), 0) == Some(u)
  {
    hide ParseUnits, MinutesText;
    MinutesTextReads(m, s, 0);
  }

  lemma HoursLeft(h: nat, m: nat, s: string, u: nat)
    requires StartsNumber(s) && h * HOUR + m * MINUTE <= TWO63
    requires ParseUnits(s, h * HOUR + m * MINUTE) == Some(u)
    ensures ParseUnits(HoursText(h, MinutesText(m, s)), 0) == Some(u)
  {
    hide ParseUnits, MinutesText, HoursText;
    var t := MinutesText(m, s);
    assert StartsNumber(t) && ParseUnits(t, h * HOUR) == Some(u) by { MinutesTextReads(m, s, h * HOUR); }
    HoursTextReads(h, t);
  }

  lemma ClockReads(h: nat, m: nat, sec: nat, frac: string, u: nat)
    requires FracPrinted(frac, u, 9, false) && u == h * HOUR + m * MINUTE + sec * SECOND + u % SECOND <= TWO63
    ensures h == 0 && m == 0 ==> ParseUnits(SecondsText(sec, frac), 0) == Some(u)
    ensures h == 0 ==> ParseUnits(MinutesText(m, SecondsText(sec, frac)), 0) == Some(u)
    ensures ParseUnits(HoursText(h, MinutesText(m, SecondsText(sec, frac))), 0) == Some(u)
  {
    hide ParseUnits, SecondsText, MinutesText, HoursText;
    var s := SecondsText(sec, frac);
    SecondsTextReads(sec, frac, u, h * HOUR + m * MINUTE);
    if h == 0 { MinutesLeft(m, s, u); }
    HoursLeft(h, m, s, u);
  }

  lemma LargeReads(u: nat)
    requires SECOND <= u <= TWO63
    ensures ParseUnits(Large(u), 0) == Some(u)
  {
    hide ParseUnits, FmtFrac, FracPrinted, FmtInt;
    FmtFracPrints(u, 9, false);
    Pow10Nine();
    var (frac, seconds) := FmtFrac(u, 9, false);
    assert seconds == u / SECOND;
    var h, m, sec := seconds / 60 / 60, seconds / 60 % 60, seconds % 60;
    ClockParts(u, h, m, sec);
    ClockReads(h, m, sec, frac, u);
    LargeText(u);
  }

  /** The text of every magnitude starts with a digit. */
  lemma MagnitudeStarts(u: nat)
    ensures Magnitude(u) != "" && IsDigit(Magnitude(u)[0])
  {
  }

  lemma MagnitudeReads(u: nat)
    requires u <= TWO63
    ensures ParseUnits(Magnitude(u), 0) == Some(u)
    ensures Magnitude(u) != "0"
  {
    hide ParseUnits, Small, Large;
    ZeroReads();
    Pow10Nine();
    if u == 0 {
    } else if u < MICROSECOND {
      SmallReads(u, 0, "ns");
    } else if u < MILLISECOND {
      SmallReads(u, 3, "\U{00B5}s");
    } else if u < SECOND {
      SmallReads(u, 6, "ms");
    } else {
      LargeReads(u);
    }
  }

  lemma ZeroReads()
    ensures ParseUnits("0s", 0) == Some(0) && ParseUnits("0", 0) == None
  {
    assert "0s"[1..] == "s" && "s"[1..] == "" && "0"[1..] == "";
    assert LeadingInt("0s", 0) == Some((0, "s")) && LeadingInt("0", 0) == Some((0, ""));
    assert ReadNumber("0s") == Some(Number(0, 0, 1, "s")) && ReadNumber("0") == Some(Number(0, 0, 1, ""));
    assert UnitLength("s") == 1 && "s"[..1] == "s";
  }

  lemma NonNegativeReads(s: string, u: nat)
    requires s != "" && IsDigit(s[0]) && s != "0" && u <= TWO63 && ParseUnits(s, 0) == Some(u)
    ensures u < TWO63 ==> ParseDuration(s) == Some(u)
    ensures ParseDuration("-" + s) == Some(0 - u)
  {
    hide ParseUnits;
    assert ("-" + s)[1..] == s;
  }

  /** Every 64-bit duration is read back as it was printed. */
  lemma DurationRoundTrip(d: int)
    requires Fits64(d)
    ensures ParseDuration(DurationString(d)) == Some(d)
  {
    hide ParseUnits, ParseDuration, Magnitude;
    var u := if d < 0 then -d else d;
    MagnitudeStarts(u);
    MagnitudeReads(u);
    NonNegativeReads(Magnitude(u), u);
  }
}
