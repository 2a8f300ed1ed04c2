/** The comparison of a certificate request with the permitted names (internal/csrcheck/csrcheck.go). */
module CsrCheck {
  import opened GoStrings

  /** What a request asks for: DNS names, the common name, and identities that are no DNS names. */
  datatype Request = Request(dnsNames: seq<string>, commonName: string, others: seq<string>)

  function TrimDot(s: string): string {
    if s != "" && s[|s| - 1] == '.' then s[..|s| - 1] else s
  }

  function Normal(name: string): string {
    TrimDot(ToLower(TrimSpace(name)))
  }

  /** A name in small letters, without white space around it or a dot at its end. */
  predicate PlainName(n: string) {
    n != "" && NoCapitals(n) && Trimmed(n) && n[|n| - 1] != '.'
  }

  /** Such a name is its own normal form, and that of itself with a dot at its end. */
  lemma PlainNameStays(n: string)
    requires PlainName(n)
    ensures Normal(n) == n && Normal(n + ".") == n
  {
    hide TrimSpace;
    TrimSpaceNothingToTrim(n);
    TrimSpaceNothingToTrim(n + ".");
    LowerNothing(n);
    LowerNothing(n + ".");
  }

  /** Two names count as one exactly when, without the white space around them and one dot at the end, they
      are equal up to case. */
  lemma SameNameExactly(a: string, b: string)
    ensures Normal(a) == Normal(b) <==> EqualFold(TrimDot(TrimSpace(a)), TrimDot(TrimSpace(b)))
  {
    hide TrimSpace;
    DotThenLower(TrimSpace(a));
    DotThenLower(TrimSpace(b));
    LowerEqual(TrimDot(TrimSpace(a)), TrimDot(TrimSpace(b)));
  }

  lemma DotThenLower(s: string)
    ensures TrimDot(ToLower(s)) == ToLower(TrimDot(s))
  {
    if s != "" && s[|s| - 1] == '.' { assert ToLower(s)[..|s| - 1] == ToLower(s[..|s| - 1]); }
  }

  /** The findings, each a set of names or the list of other identities. */
  datatype Mismatch = Mismatch(missing: set<string>, extra: set<string>, others: seq<string>)
  {
    predicate OK() { missing == {} && extra == {} && others == [] }
  }

  predicate Names(names: seq<string>, n: string) {
    n != "" && exists i | 0 <= i < |names| :: Normal(names[i]) == n
  }

  predicate Asks(r: Request, n: string) {
    Names(r.dnsNames, n) || (n != "" && n == Normal(r.commonName))
  }

  function NameSet(names: seq<string>): (s: set<string>)
    ensures forall n :: n in s <==> Names(names, n)
  {
    set i | 0 <= i < |names| && Normal(names[i]) != "" :: Normal(names[i])
  }

  function Asked(r: Request): (s: set<string>)
    ensures forall n :: n in s <==> Asks(r, n)
  {
    NameSet(r.dnsNames) + if Normal(r.commonName) == "" then {} else {Normal(r.commonName)}
  }

  /** A request is accepted: nothing but DNS names, and as a set the permitted ones. */
  predicate Accepts(r: Request, permitted: seq<string>) {
    r.others == [] && Asked(r) == NameSet(permitted)
  }

  method NormaliseSet(names: seq<string>) returns (s: set<string>)
    ensures s == NameSet(names)
  {
    hide Normal, NameSet;
    s := {};
    for i := 0 to |names|
      invariant forall n :: n in s <==> Names(names[..i], n)
    {
      assert names[..i + 1] == names[..i] + [names[i]];
      OneMoreName(names[..i], names[i]);
      var n := Normal(names[i]);
      if n != "" { s := s + {n}; }
    }
    assert names[..|names|] == names;
    assert forall n :: n in s <==> n in NameSet(names);
  }

  lemma OneMoreName(names: seq<string>, name: string)
    ensures forall n :: Names(names + [name], n) <==> Names(names, n) || (n != "" && n == Normal(name))
  {
    hide Normal;
    var all := names + [name];
    assert all[|names|] == name && forall i | 0 <= i < |names| :: all[i] == names[i];
  }

  /** Missing and extra are told apart, and the request is OK exactly when it is accepted. */
  method Check(r: Request, permitted: seq<string>) returns (res: Mismatch)
    ensures forall n :: n in res.missing <==> Names(permitted, n) && !Asks(r, n)
    ensures forall n :: n in res.extra <==> Asks(r, n) && !Names(permitted, n)
    ensures res.others == r.others
    ensures res.OK() <==> Accepts(r, permitted)
  {
    hide Names, Normal, NameSet;
    var want := NormaliseSet(permitted);
    var got := NormaliseSet(r.dnsNames);
    var cn := Normal(r.commonName);
    if cn != "" { got := got + {cn}; }
    assert got == Asked(r);
    res := Mismatch(want - got, got - want, r.others);
    assert res.missing == {} && res.extra == {} <==> want == got;
  }

  /** With plain names on both sides, a request is accepted exactly when its DNS names, together with a
      common name if there is one, are the permitted names, and there is nothing else in it. */
  lemma PlainNamesExactly(r: Request, permitted: seq<string>)
    requires (forall n | n in r.dnsNames :: PlainName(n)) && (forall n | n in permitted :: PlainName(n))
    requires r.commonName == "" || PlainName(r.commonName)
    ensures Accepts(r, permitted) <==>
            && r.others == []
            && forall n :: n in permitted <==> n in r.dnsNames || (n != "" && n == r.commonName)
  {
    hide Normal, PlainName, NameSet;
    PlainNames(r.dnsNames);
    PlainNames(permitted);
    EmptyName();
    if r.commonName != "" { PlainNameStays(r.commonName); }
    var asked, wanted := Asked(r), NameSet(permitted);
    assert forall n :: n in asked <==> n in r.dnsNames || (n != "" && n == r.commonName);
    assert asked == wanted <==> forall n :: n in asked <==> n in wanted;
  }

  lemma EmptyName()
    ensures Normal("") == ""
  {
  }

  lemma PlainNames(names: seq<string>)
    requires forall n | n in names :: PlainName(n)
    ensures forall n :: Names(names, n) <==> n in names
  {
    hide Normal;
    forall i | 0 <= i < |names| ensures Normal(names[i]) == names[i] && names[i] != "" {
      assert names[i] in names;
      PlainNameStays(names[i]);
    }
  }
}
