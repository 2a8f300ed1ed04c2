/** Slash-separated paths and their lexical cleaning: path.Clean, path.Join and strings.Cut as
    the backup archive uses them (internal/backup/backup.go:191-195, 393-416). */
module PathClean {
  import opened GoStrings

  // ---------- the parts of a path ----------

  /** The pieces between the slashes, empty ones included. */
  function Split(s: string): (r: seq<string>)
    ensures |r| >= 1
  {
    if s == "" then [""]
    else if s[0] == '/' then [""] + Split(s[1..])
    else Grow(s[0], Split(s[1..]))
  }

  /** One more character in front of the first part. */
  function Grow(c: char, parts: seq<string>): seq<string>
    requires parts != []
  {
    [[c] + parts[0]] + parts[1..]
  }

  function Join(parts: seq<string>): string
    requires parts != []
  {
    if |parts| == 1 then parts[0] else parts[0] + "/" + Join(parts[1..])
  }

  predicate Slashless(parts: seq<string>) {
    forall i | 0 <= i < |parts| :: '/' !in parts[i]
  }

  lemma {:induction false} JoinSplit(s: string)
    ensures Join(Split(s)) == s
    ensures Slashless(Split(s))
  {
    if s != "" {
      JoinSplit(s[1..]);
      var r := Split(s[1..]);
      assert s == [s[0]] + s[1..];
      if s[0] == '/' {
        JoinFirst("", r);
      } else {
        LongerFirst(s[0], r);
      }
    }
  }

  lemma JoinFirst(a: string, r: seq<string>)
    requires r != []
    ensures Join([a] + r) == a + "/" + Join(r)
  {
    assert ([a] + r)[1..] == r;
  }

  lemma LongerFirst(c: char, r: seq<string>)
    requires r != []
    ensures Join(Grow(c, r)) == [c] + Join(r)
  {
    var longer := Grow(c, r);
    assert longer[1..] == r[1..];
    if |r| > 1 {
      assert [c] + r[0] + "/" + Join(r[1..]) == [c] + (r[0] + "/" + Join(r[1..]));
    }
  }

  lemma {:induction false} SplitPart(a: string, rest: string)
    requires '/' !in a
    ensures Split(a) == [a]
    ensures Split(a + "/" + rest) == [a] + Split(rest)
  {
    if a == "" {
      assert (a + "/" + rest)[1..] == rest;
    } else {
      SplitPart(a[1..], rest);
      assert (a + "/" + rest)[1..] == a[1..] + "/" + rest;
      assert a == [a[0]] + a[1..];
    }
  }

  lemma {:induction false} SplitJoin(parts: seq<string>)
    requires parts != [] && Slashless(parts)
    ensures Split(Join(parts)) == parts
  {
    hide Split;
    SplitPart(parts[0], "");
    if |parts| == 1 {
      assert parts == [parts[0]];
    } else {
      SplitJoin(parts[1..]);
      SplitPart(parts[0], Join(parts[1..]));
      assert parts == [parts[0]] + parts[1..];
    }
  }

  lemma {:induction false} SplitConcat(a: string, b: string)
    ensures Split(a + "/" + b) == Split(a) + Split(b)
    decreases |a|
  {
    hide Split, Grow;
    if a == "" {
      SplitPart("", b);
    } else {
      SplitConcat(a[1..], b);
      SlashInside(a, b);
      SplitStep(a + "/" + b);
      SplitStep(a);
      GrowFirst(a[0], Split(a[1..]), Split(b));
    }
  }

  lemma SlashInside(a: string, b: string)
    requires a != ""
    ensures (a + "/" + b)[0] == a[0] && (a + "/" + b)[1..] == a[1..] + "/" + b
  {
  }

  lemma GrowFirst(c: char, x: seq<string>, y: seq<string>)
    requires x != []
    ensures Grow(c, x + y) == Grow(c, x) + y
    ensures [""] + (x + y) == [""] + x + y
  {
  }

  lemma SplitStep(s: string)
    requires s != ""
    ensures Split(s) == if s[0] == '/' then [""] + Split(s[1..]) else Grow(s[0], Split(s[1..]))
  {
  }

  // ---------- path.Clean ----------

  predicate Rooted(s: string) {
    HasPrefix(s, "/")
  }

  /** One part met: an empty one or a dot is dropped, two dots take back the part before them. */
  function Push(rooted: bool, kept: seq<string>, part: string): seq<string> {
    if part == "" || part == "." then kept
    else if part == ".." then
      if kept != [] && kept[|kept| - 1] != ".." then kept[..|kept| - 1]
      else if rooted then kept
      else kept + [".."]
    else kept + [part]
  }

  function Reduce(rooted: bool, parts: seq<string>): seq<string> {
    if parts == [] then []
    else Push(rooted, Reduce(rooted, parts[..|parts| - 1]), parts[|parts| - 1])
  }

  function CleanParts(s: string): seq<string> {
    Reduce(Rooted(s), Split(s))
  }

  function Clean(s: string): string {
    var kept := CleanParts(s);
    if Rooted(s) then "/" + (if kept == [] then "" else Join(kept))
    else if kept == [] then "."
    else Join(kept)
  }

  /** A name that stays as it is: not empty, not a dot or two, without a slash. */
  predicate Plain(part: string) {
    part != "" && part != "." && part != ".." && '/' !in part
  }

  predicate AllPlain(parts: seq<string>) {
    forall i | 0 <= i < |parts| :: Plain(parts[i])
  }

  /** Two dots in front, if the path is not rooted, and then plain names only. */
  predicate Reduced(rooted: bool, parts: seq<string>) {
    && (forall i | 0 <= i < |parts| :: parts[i] == ".." || Plain(parts[i]))
    && (forall i | 0 <= i < |parts| && parts[i] == ".." :: !rooted)
    && (forall i | 0 < i < |parts| && parts[i] == ".." :: parts[i - 1] == "..")
  }

  lemma {:induction false} ReduceReduces(rooted: bool, parts: seq<string>)
    requires Slashless(parts)
    ensures Reduced(rooted, Reduce(rooted, parts))
  {
    if parts != [] {
      var n := |parts| - 1;
      ReduceReduces(rooted, parts[..n]);
      PushKeepsReduced(rooted, Reduce(rooted, parts[..n]), parts[n]);
    }
  }

  lemma PushKeepsReduced(rooted: bool, kept: seq<string>, part: string)
    requires Reduced(rooted, kept) && '/' !in part
    ensures Reduced(rooted, Push(rooted, kept, part))
  {
  }

  lemma ReducedFront(rooted: bool, parts: seq<string>)
    requires Reduced(rooted, parts) && parts != []
    ensures Reduced(rooted, parts[..|parts| - 1])
    ensures Push(rooted, parts[..|parts| - 1], parts[|parts| - 1]) == parts
  {
    var n := |parts| - 1;
    assert parts == parts[..n] + [parts[n]];
    if n > 0 { assert parts[..n][n - 1] == parts[n - 1]; }
  }

  lemma {:induction false} ReducedStays(rooted: bool, parts: seq<string>)
    requires Reduced(rooted, parts)
    ensures Reduce(rooted, parts) == parts
  {
    hide Reduced, Push;
    if parts != [] {
      ReducedFront(rooted, parts);
      ReducedStays(rooted, parts[..|parts| - 1]);
    }
  }

  /** Plain names are only ever added to what is there. */
  lemma {:induction false} PlainAdded(rooted: bool, base: seq<string>, parts: seq<string>)
    requires AllPlain(parts)
    ensures Reduce(rooted, base + parts) == Reduce(rooted, base) + parts
    decreases |parts|
  {
    if parts == [] {
      assert base + parts == base;
    } else {
      var n := |parts| - 1;
      assert (base + parts)[..|base + parts| - 1] == base + parts[..n];
      PlainAdded(rooted, base, parts[..n]);
      assert Plain(parts[n]);
      assert parts == parts[..n] + [parts[n]];
    }
  }

  /** A path as the file system takes it, without links: rooted or not, and its reduced parts. */
  datatype Path = Path(rooted: bool, parts: seq<string>)

  function Resolve(s: string): Path {
    Path(Rooted(s), CleanParts(s))
  }

  lemma ReducedText(rooted: bool, parts: seq<string>)
    requires Reduced(rooted, parts) && parts != []
    ensures Slashless(parts) && Join(parts) != "" && Join(parts)[0] != '/'
  {
    forall i | 0 <= i < |parts| ensures '/' !in parts[i] {
      assert parts[i] == ".." || Plain(parts[i]);
    }
    assert parts[0] == ".." || Plain(parts[0]);
    assert parts[0] <= Join(parts);
    assert parts[0][0] in parts[0];
  }

  /** Cleaning changes the text but not the place, so cleaning twice is cleaning once. */
  lemma CleanKeepsPlace(s: string)
    ensures Resolve(Clean(s)) == Resolve(s)
    ensures Clean(Clean(s)) == Clean(s)
  {
    hide Reduced;
    var rooted, kept := Rooted(s), CleanParts(s);
    JoinSplit(s);
    ReduceReduces(rooted, Split(s));
    if kept == [] {
      NothingKept();
    } else {
      WrittenOut(rooted, kept);
    }
  }

  lemma WrittenOut(rooted: bool, kept: seq<string>)
    requires Reduced(rooted, kept) && kept != []
    ensures Resolve((if rooted then "/" else "") + Join(kept)) == Path(rooted, kept)
    ensures "" + Join(kept) == Join(kept)
  {
    assert Split(Join(kept)) == kept && Reduce(rooted, kept) == kept && !Rooted(Join(kept)) by {
      ReducedText(rooted, kept);
      ReducedStays(rooted, kept);
      SplitJoin(kept);
    }
    hide Reduced, Join, Reduce, Split;
    if rooted {
      WrittenRooted(kept, Join(kept));
    } else {
      assert "" + Join(kept) == Join(kept);
    }
  }

  lemma WrittenRooted(kept: seq<string>, text: string)
    requires Split(text) == kept && Reduce(true, kept) == kept
    ensures Resolve("/" + text) == Path(true, kept)
  {
    hide Reduce;
    SplitPart("", text);
    assert "" + "/" + text == "/" + text;
    EmptyFirst(true, kept);
  }

  lemma {:induction false} EmptyFirst(rooted: bool, parts: seq<string>)
    ensures Reduce(rooted, [""] + parts) == Reduce(rooted, parts)
    decreases |parts|
  {
    if parts == [] {
      assert [""][..0] == [];
    } else {
      var all := [""] + parts;
      assert all[..|all| - 1] == [""] + parts[..|parts| - 1];
      EmptyFirst(rooted, parts[..|parts| - 1]);
    }
  }

  lemma NothingKept()
    ensures CleanParts(".") == [] && CleanParts("/") == []
  {
    SplitPart(".", "");
    SplitPart("", "");
    assert "" + "/" + "" == "/";
    assert ["."][..0] == [] && ["", ""][..1] == [""] && [""][..0] == [];
    assert Reduce(true, [""]) == [];
  }

  /** path.Join and filepath.Join of two texts that are not empty. */
  function JoinPath(a: string, b: string): string {
    Clean(a + "/" + b)
  }

  // ---------- places ----------

  /** Where a path leads on a file system without links: a relative one starts at the working
      directory. */
  function Place(cwd: seq<string>, s: string): seq<string> {
    if Rooted(s) then CleanParts(s) else Reduce(true, cwd + Split(s))
  }

  lemma ReduceMore(rooted: bool, parts: seq<string>, part: string)
    ensures Reduce(rooted, parts + [part]) == Push(rooted, Reduce(rooted, parts), part)
  {
    assert (parts + [part])[..|parts|] == parts;
  }

  /** Pushing a part onto a relative path and then going there is going there and then pushing it. */
  lemma PushThere(cwd: seq<string>, kept: seq<string>, part: string)
    requires Reduced(false, kept)
    ensures Reduce(true, cwd + Push(false, kept, part)) == Push(true, Reduce(true, cwd + kept), part)
  {
    var n := |kept| - 1;
    if part == "" || part == "." {
    } else if part == ".." && kept != [] && kept[n] != ".." {
      assert Plain(kept[n]) && cwd + kept == cwd + kept[..n] + [kept[n]];
      ReduceMore(true, cwd + kept[..n], kept[n]);
    } else {
      assert cwd + (kept + [part]) == cwd + kept + [part];
      ReduceMore(true, cwd + kept, part);
    }
  }

  lemma {:induction false} ReduceThere(cwd: seq<string>, parts: seq<string>)
    requires Slashless(parts)
    ensures Reduce(true, cwd + Reduce(false, parts)) == Reduce(true, cwd + parts)
    decreases |parts|
  {
    hide Reduced, Push;
    if parts != [] {
      var n := |parts| - 1;
      ReduceThere(cwd, parts[..n]);
      ReduceReduces(false, parts[..n]);
      PushThere(cwd, Reduce(false, parts[..n]), parts[n]);
      assert cwd + parts == cwd + parts[..n] + [parts[n]];
      ReduceMore(true, cwd + parts[..n], parts[n]);
    }
  }

  /** Cleaning a path does not change where it leads. */
  lemma CleanLeadsThere(cwd: seq<string>, s: string)
    ensures Place(cwd, Clean(s)) == Place(cwd, s)
  {
    CleanKeepsPlace(s);
    if !Rooted(s) {
      JoinSplit(s);
      JoinSplit(Clean(s));
      hide Clean, Split;
      ReduceThere(cwd, Split(s));
      ReduceThere(cwd, Split(Clean(s)));
    }
  }

  /** Plain names joined to a root lead to that many steps below the root and nowhere else. */
  lemma JoinedBelow(cwd: seq<string>, root: string, parts: seq<string>)
    requires root != "" && parts != [] && AllPlain(parts)
    ensures Place(cwd, JoinPath(root, Join(parts))) == Place(cwd, root) + parts
  {
    hide Place, Clean, Join, Split, AllPlain;
    PlainJoined(parts);
    CleanLeadsThere(cwd, root + "/" + Join(parts));
    TextBelow(cwd, root, Join(parts), parts);
  }

  lemma TextBelow(cwd: seq<string>, root: string, text: string, parts: seq<string>)
    requires root != "" && Split(text) == parts && AllPlain(parts)
    ensures Place(cwd, root + "/" + text) == Place(cwd, root) + parts
  {
    hide Split, Reduce, AllPlain;
    SplitConcat(root, text);
    assert Rooted(root + "/" + text) == Rooted(root);
    if Rooted(root) {
      PlainAdded(true, Split(root), parts);
    } else {
      PlainAdded(true, cwd + Split(root), parts);
      assert cwd + (Split(root) + parts) == cwd + Split(root) + parts;
    }
  }

  // ---------- the name of an archive entry ----------

  /** The entry names Restore does not refuse, split into area and rest. */
  function AreaAndRest(name: string): Option<(string, string)> {
    var clean := Clean(name);
    if clean != name || HasPrefix(clean, "/") || clean == ".." || HasPrefix(clean, "../") || Contains(clean, "/../")
    then None
    else
      match Cut(clean, '/')
      case None => None
      case Some((area, rest)) => if rest == "" then None else Some((area, rest))
  }

  lemma PlainJoined(parts: seq<string>)
    requires parts != [] && AllPlain(parts)
    ensures Slashless(parts) && Split(Join(parts)) == parts && Clean(Join(parts)) == Join(parts)
  {
    forall i | 0 <= i < |parts| ensures '/' !in parts[i] { assert Plain(parts[i]); }
    SplitJoin(parts);
    assert Reduced(false, parts);
    ReducedText(false, parts);
    ReducedStays(false, parts);
  }

  lemma TwoDotsInside(s: string)
    requires Contains(s, "/../")
    ensures ".." in Split(s)
  {
    var i :| 0 <= i <= |s| && OccursAt(s, "/../", i);
    var x, y := s[..i], s[i + 4..];
    assert s == x + "/" + (".." + "/" + y) by {
      assert s == s[..i] + s[i..i + 4] + s[i + 4..];
    }
    SplitConcat(x, ".." + "/" + y);
    SplitPart("..", y);
    assert ([".."] + Split(y))[0] == "..";
  }

  lemma NoDotsAmongPlain(parts: seq<string>)
    requires AllPlain(parts)
    ensures ".." !in parts
  {
    forall i | 0 <= i < |parts| ensures parts[i] != ".." { assert Plain(parts[i]); }
  }

  lemma FirstPart(name: string)
    ensures HasPrefix(name, "../") ==> Split(name)[0] == ".."
  {
    if HasPrefix(name, "../") {
      assert name == ".." + "/" + name[3..];
      SplitPart("..", name[3..]);
    }
  }

  lemma FirstDots(kept: seq<string>)
    requires kept != []
    ensures kept[0] == ".." ==> Join(kept) == ".." || "../" <= Join(kept)
  {
  }

  /** Two or more plain names joined by slashes are taken, and taken apart, as they are. */
  lemma PlainAccepted(parts: seq<string>)
    requires |parts| >= 2 && AllPlain(parts)
    ensures AreaAndRest(Join(parts)) == Some((parts[0], Join(parts[1..])))
  {
    var name, more := Join(parts), parts[1..];
    PlainJoined(parts);
    forall i | 0 <= i < |more| ensures Plain(more[i]) { assert more[i] == parts[i + 1]; }
    assert Plain(parts[0]) && name == parts[0] + "/" + Join(more);
    CutAtFirst(parts[0], '/', Join(more));
    ReducedText(false, parts);
    ReducedText(false, more);
    NoDotsAmongPlain(parts);
    if Contains(name, "/../") { TwoDotsInside(name); }
    FirstPart(name);
    assert name != ".." by { SplitPart("..", ""); }
  }

  /** A name is taken exactly when it is two or more plain names joined by slashes: nothing empty, no
      dots, nothing rooted. */
  lemma AcceptedExactly(name: string)
    ensures AreaAndRest(name).Some? <==> |Split(name)| >= 2 && AllPlain(Split(name))
  {
    JoinSplit(name);
    if |Split(name)| >= 2 && AllPlain(Split(name)) {
      PlainAccepted(Split(name));
    }
    if AreaAndRest(name).Some? {
      CleanIsPlain(name);
    }
  }

  lemma CleanIsPlain(name: string)
    requires AreaAndRest(name).Some?
    ensures |Split(name)| >= 2 && AllPlain(Split(name))
  {
    var kept := CleanParts(name);
    JoinSplit(name);
    ReduceReduces(false, Split(name));
    assert name != "." by { CutAtFirst(".", '/', ""); }
    assert kept != [] && name == Join(kept);
    ReducedText(false, kept);
    SplitJoin(kept);
    if |kept| == 1 { CutAtFirst(kept[0], '/', ""); }
    DotsInFront(kept);
    FirstDots(kept);
  }

  lemma {:induction false} DotsInFront(kept: seq<string>)
    requires Reduced(false, kept) && kept != []
    ensures kept[0] == ".." || AllPlain(kept)
  {
    if |kept| > 1 {
      var n := |kept| - 1;
      DotsInFront(kept[..n]);
      if kept[n] == ".." { assert kept[..n][n - 1] == ".."; }
    }
  }
}
