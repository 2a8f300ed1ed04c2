/** Exactly when Restore undoes Create, on the same host or on one with other directories; what redaction
    leaves in an archive (internal/backup/backup.go:126-246, 328-465). */
module BackupRoundTrip {
  import opened GoStrings
  import opened PathClean
  import opened Backup

  // ---------- places that have nothing to do with each other ----------

  /** One of the two places is, or is below, the other. */
  predicate Related(p: Spot, q: Spot) {
    p <= q || q <= p
  }

  lemma BelowRelated(p: Spot, x: Spot, q: Spot, y: Spot)
    requires Related(p + x, q + y)
    ensures Related(p, q)
    ensures p == q ==> Related(x, y)
  {
    if p + x <= q + y {
      OverPrefix(p, x, q, y);
    } else {
      OverPrefix(q, y, p, x);
    }
  }

  lemma OverPrefix(p: Spot, x: Spot, q: Spot, y: Spot)
    requires p + x <= q + y
    ensures Related(p, q) && (p == q ==> x <= y)
  {
    var t := q + y;
    assert p == t[..|p|] && q == t[..|q|] && x == t[|p|..|p + x|];
    if |p| <= |q| {
      assert p == q[..|p|];
    } else {
      assert q == p[..|q|];
    }
    if p == q { assert x == y[..|x|]; }
  }

  /** The files of a disk lie in a tree: none is below another, and their names are names. */
  ghost predicate ProperDisk(d: Files) {
    && (forall p, q | p in d && q in d && Related(p, q) :: p == q)
    && (forall p | p in d :: p != [] && AllPlain(p))
  }

  /** Areas and listed names are plain, and an area is a directory or a list of files, not both. */
  predicate Named(l: Layout) {
    && (forall a | a in l.dirs :: Plain(a))
    && (forall a | a in l.files :: Plain(a) && a !in l.dirs)
    && (forall a, n | a in l.files && n in l.files[a] :: Plain(n))
  }

  predicate RootsAreDirectories(d: Files, cwd: Spot, l: Layout) {
    forall a | a in l.dirs && l.dirs[a] != "" :: Place(cwd, l.dirs[a]) !in d
  }

  predicate KeepsDir(l: Layout, a: string) {
    a in l.dirs && l.dirs[a] != ""
  }

  predicate KeepsFile(l: Layout, a: string, n: string) {
    a in l.files && n in l.files[a] && l.files[a][n] != ""
  }

  /** No directory or listed file of the layout is in another. */
  ghost predicate Separate(cwd: Spot, l: Layout) {
    && (forall a, b | KeepsDir(l, a) && KeepsDir(l, b) && a != b :: !Related(Place(cwd, l.dirs[a]), Place(cwd, l.dirs[b])))
    && (forall a, b, n | KeepsDir(l, a) && KeepsFile(l, b, n) ::
          !Related(Place(cwd, l.dirs[a]), Place(cwd, l.files[b][n])))
    && (forall a, n, b, m | KeepsFile(l, a, n) && KeepsFile(l, b, m) && (a, n) != (b, m) ::
          !Related(Place(cwd, l.files[a][n]), Place(cwd, l.files[b][m])))
  }

  // ---------- the items of an archive and where they go ----------

  predicate PlainlyNamed(it: Item) {
    Plain(it.area) && AllPlain(it.below)
  }

  lemma ItemsPlainlyNamed(it: Item, d: Files, cwd: Spot, l: Layout)
    requires ProperDisk(d) && Named(l) && (IsWalked(it, d, cwd, l) || IsListed(it, d, cwd, l))
    ensures PlainlyNamed(it) && it.spot in d
  {
    hide Plain, Place;
    if IsWalked(it, d, cwd, l) {
      var root := Place(cwd, l.dirs[it.area]);
      forall i | 0 <= i < |it.below| ensures Plain(it.below[i]) {
        assert it.spot[|root| + i] == it.below[i];
      }
    }
  }

  lemma BelowItsRoot(it: Item, d: Files, cwd: Spot, l: Layout)
    requires RootsAreDirectories(d, cwd, l) && (IsWalked(it, d, cwd, l) || IsListed(it, d, cwd, l))
    ensures it.below != []
  {
    hide Place;
    if IsWalked(it, d, cwd, l) {
      var root := Place(cwd, l.dirs[it.area]);
      assert root + [] == root;
    }
  }

  predicate IsItem(it: Item, d: Files, cwd: Spot, l: Layout) {
    IsWalked(it, d, cwd, l) || IsListed(it, d, cwd, l)
  }

  /** Within an area no two items are in each other's way. */
  lemma ItemsApart(x: Item, y: Item, d: Files, cwd: Spot, l: Layout)
    requires ProperDisk(d) && Named(l)
    ensures x != y && x.area == y.area && IsItem(x, d, cwd, l) && IsItem(y, d, cwd, l) ==> !Related(x.below, y.below)
  {
    hide Plain, AllPlain, Place;
    if x != y && x.area == y.area && IsItem(x, d, cwd, l) && IsItem(y, d, cwd, l) {
      if IsWalked(x, d, cwd, l) {
        assert IsWalked(y, d, cwd, l);
        var root := Place(cwd, l.dirs[x.area]);
        if Related(x.below, y.below) { UnderRelated(root, x.below, y.below); }
      } else {
        assert IsListed(y, d, cwd, l);
        assert x.below == [x.below[0]] && y.below == [y.below[0]];
      }
    }
  }

  lemma UnderRelated(root: Spot, x: Spot, y: Spot)
    requires Related(x, y)
    ensures Related(root + x, root + y)
  {
    if x <= y { assert (root + y)[..|root + x|] == root + x; } else { assert (root + x)[..|root + y|] == root + y; }
  }

  /** Where Restore puts an item; the file that is itself an area's directory goes nowhere. */
  function TargetOf(it: Item, cwd: Spot, l: Layout): Option<Spot> {
    if it.below == [] then None else Target(it.area, it.below, cwd, l)
  }

  lemma SameText(x: seq<string>, y: seq<string>)
    requires x != [] && y != [] && AllPlain(x) && AllPlain(y) && Join(x) == Join(y)
    ensures x == y
  {
    hide Join, Split;
    PlainJoined(x);
    PlainJoined(y);
  }

  /** On a host whose directories are separate, neither are their targets. */
  lemma TargetsApart(x: Item, y: Item, cwd: Spot, l: Layout)
    requires Separate(cwd, l) && PlainlyNamed(x) && PlainlyNamed(y)
    requires x.area == y.area ==> !Related(x.below, y.below)
    requires TargetOf(x, cwd, l).Some? && TargetOf(y, cwd, l).Some?
    ensures !Related(TargetOf(x, cwd, l).value, TargetOf(y, cwd, l).value)
  {
    hide Plain, Place, Join;
    var n, m := Join(x.below), Join(y.below);
    var p, q := TargetOf(x, cwd, l).value, TargetOf(y, cwd, l).value;
    if KeepsFile(l, x.area, n) && KeepsFile(l, y.area, m) {
      if n == m { SameText(x.below, y.below); }
      assert (x.area, n) != (y.area, m);
    } else if KeepsFile(l, x.area, n) {
      DirFromFile(p, Place(cwd, l.dirs[y.area]), y.below);
    } else if KeepsFile(l, y.area, m) {
      DirFromFile(q, Place(cwd, l.dirs[x.area]), x.below);
    } else {
      DirFromDir(Place(cwd, l.dirs[x.area]), x.below, Place(cwd, l.dirs[y.area]), y.below);
    }
  }

  lemma DirFromFile(p: Spot, root: Spot, below: Spot)
    requires !Related(root, p)
    ensures !Related(p, root + below) && !Related(root + below, p)
  {
    assert p + [] == p;
    if Related(p + [], root + below) { BelowRelated(p, [], root, below); }
  }

  lemma DirFromDir(root: Spot, x: Spot, other: Spot, y: Spot)
    requires root != other ==> !Related(root, other)
    requires root == other ==> !Related(x, y)
    ensures !Related(root + x, other + y)
  {
    if Related(root + x, other + y) { BelowRelated(root, x, other, y); }
  }

  // ---------- Restore, entry by entry ----------

  /** What a file becomes: the same bytes, the narrowed mode. */
  function Narrowed(f: File): File {
    File(f.data, Narrow(f.mode, LooksSecret(f.data)))
  }

  predicate Fits(f: File) {
    |f.data| <= 0x1000_0000
  }

  /** The last item that goes to p. */
  function Winner(items: seq<Item>, p: Spot, cwd: Spot, l: Layout): (k: int)
    ensures -1 <= k < |items| && (k >= 0 ==> TargetOf(items[k], cwd, l) == Some(p))
    ensures forall j | k < j < |items| :: TargetOf(items[j], cwd, l) != Some(p)
  {
    var n := |items| - 1;
    if items == [] then -1
    else if TargetOf(items[n], cwd, l) == Some(p) then n
    else
      WinnerInFront(items, p, cwd, l);
      Winner(items[..n], p, cwd, l)
  }

  /** What the front of a list says about places holds in the list. */
  lemma WinnerInFront(items: seq<Item>, p: Spot, cwd: Spot, l: Layout)
    requires items != []
    ensures var front := items[..|items| - 1];
            forall j | 0 <= j < |front| :: front[j] == items[j] && TargetOf(front[j], cwd, l) == TargetOf(items[j], cwd, l)
  {
  }

  predicate Same(before: Files, after: Files, p: Spot) {
    (p in after <==> p in before) && (p in after ==> after[p] == before[p])
  }

  /** Every place items go to holds the last of them, and nothing else has changed. */
  ghost predicate PutBack(after: Files, before: Files, items: seq<Item>, d: Files, cwd: Spot, l: Layout)
    requires forall it | it in items :: it.spot in d
  {
    forall p :: var k := Winner(items, p, cwd, l);
                if k < 0 then Same(before, after, p) else p in after && after[p] == Narrowed(d[items[k].spot])
  }

  /** Of two different places one is below the other. */
  predicate Nested(x: Option<Spot>, y: Option<Spot>) {
    x.Some? && y.Some? && (x.value < y.value || y.value < x.value)
  }

  /** The item has a name Restore takes, and if it goes anywhere it fits and finds nothing in its way. */
  predicate Settles(it: Item, f: File, before: Files, cwd: Spot, l: Layout) {
    var target := TargetOf(it, cwd, l);
    it.below != [] && (target.Some? ==> Fits(f) && !InTheWay(before, target.value))
  }

  /** Every item settles, and none is to be put below another. */
  ghost predicate Restorable(items: seq<Item>, d: Files, before: Files, cwd: Spot, l: Layout)
    requires forall it | it in items :: it.spot in d
  {
    && (forall i | 0 <= i < |items| :: Settles(items[i], d[items[i].spot], before, cwd, l))
    && (forall i, j | 0 <= i < j < |items| :: !Nested(TargetOf(items[i], cwd, l), TargetOf(items[j], cwd, l)))
  }

  /** The entry made of a file is restored as that file, narrowed. */
  lemma EntryNarrowed(it: Item, f: File)
    ensures var e := EntryOf(it, f, false);
            && e.name == EntryName(it.area, it.below) && e.data == f.data
            && File(e.data, Narrow(e.mode & 0x1FF, LooksSecret(e.data))) == Narrowed(f)
  {
    assert ((f.mode & 0x1FF) & 0x1FF) & 0x1A4 == f.mode & 0x1A4;
  }

  lemma OneRestored(it: Item, f: File, mid: Files, cwd: Spot, l: Layout)
    requires PlainlyNamed(it)
    ensures var o, target := RestoreOne(mid, cwd, l, EntryOf(it, f, false)), TargetOf(it, cwd, l);
            && (o.error == None <==> Settles(it, f, mid, cwd, l))
            && (o.error == None ==> o.files == if target.None? then mid else mid[target.value := Narrowed(f)])
  {
    hide Plain, AllPlain, Narrow, Narrowed, EntryOf, Join, EntryName, AreaAndRest, JoinPath, Place, Target, DestinationFor;
    EntryNarrowed(it, f);
    if it.below == [] {
      RootFileRefused(it.area, l);
    } else {
      NameGoesToTarget(it, cwd, l);
      hide TargetOf, InTheWay;
    }
  }

  lemma NameGoesToTarget(it: Item, cwd: Spot, l: Layout)
    requires PlainlyNamed(it) && it.below != []
    ensures var r, target := DestinationFor(EntryName(it.area, it.below), l), TargetOf(it, cwd, l);
            r.Ok? && (if target.None? then r.value == "" else r.value != "" && Place(cwd, r.value) == target.value)
  {
    hide EntryName, DestinationFor, Place, Join, Target;
    CreatedNamesAccepted(it.area, it.below, cwd, l);
  }

  /** What is in an item's way when its turn comes: what was there before, or an item it is nested with. */
  lemma InTheWayThen(mid: Files, before: Files, items: seq<Item>, d: Files, p: Spot, cwd: Spot, l: Layout)
    requires (forall it | it in items :: it.spot in d) && PutBack(mid, before, items, d, cwd, l)
    ensures InTheWay(mid, p) <==>
            InTheWay(before, p) || exists i | 0 <= i < |items| :: Nested(TargetOf(items[i], cwd, l), Some(p))
  {
    hide TargetOf, Narrowed;
    forall q ensures q in mid <==> q in before || exists i | 0 <= i < |items| :: TargetOf(items[i], cwd, l) == Some(q) {
      var k := Winner(items, q, cwd, l);
      assert k >= 0 ==> TargetOf(items[k], cwd, l) == Some(q);
    }
    forall i | 0 <= i < |items| && Nested(TargetOf(items[i], cwd, l), Some(p)) ensures InTheWay(mid, p) {
      assert TargetOf(items[i], cwd, l).value in mid;
    }
  }

  lemma OneMorePut(items: seq<Item>, d: Files, before: Files, mid: Files, cwd: Spot, l: Layout)
    requires items != [] && forall it | it in items :: it.spot in d
    requires PutBack(mid, before, items[..|items| - 1], d, cwd, l)
    ensures var it := items[|items| - 1]; var target := TargetOf(it, cwd, l);
            PutBack(if target.None? then mid else mid[target.value := Narrowed(d[it.spot])], before, items, d, cwd, l)
  {
    hide TargetOf, Narrowed;
  }

  lemma OneMoreSettles(items: seq<Item>, d: Files, before: Files, mid: Files, cwd: Spot, l: Layout)
    requires items != [] && forall it | it in items :: it.spot in d
    requires PutBack(mid, before, items[..|items| - 1], d, cwd, l)
    ensures var n := |items| - 1;
            Restorable(items, d, before, cwd, l) <==>
            Restorable(items[..n], d, before, cwd, l) && Settles(items[n], d[items[n].spot], mid, cwd, l)
  {
    hide TargetOf, InTheWay, Fits, PutBack;
    var n := |items| - 1;
    var front, target := items[..n], TargetOf(items[n], cwd, l);
    assert forall i | 0 <= i < n :: front[i] == items[i];
    if target.Some? { InTheWayThen(mid, before, front, d, target.value, cwd, l); }
  }

  /** Restoring the entries succeeds if and only if they are restorable; what is then on the disk. */
  lemma {:induction false} RestoreSucceedsExactly(items: seq<Item>, d: Files, before: Files, cwd: Spot, l: Layout)
    requires forall it | it in items :: PlainlyNamed(it) && it.spot in d
    ensures var o := RestoreAll(before, cwd, l, EntriesOf(items, d, false));
            && (o.error == None <==> Restorable(items, d, before, cwd, l))
            && (o.error == None ==> PutBack(o.files, before, items, d, cwd, l))
    decreases |items|
  {
    if items != [] {
      var n := |items| - 1;
      var front, es := items[..n], EntriesOf(items, d, false);
      assert es[..n] == EntriesOf(front, d, false);
      assert es[n] == EntryOf(items[n], d[items[n].spot], false) && items[n] in items;
      hide Restorable, PutBack, EntryOf, EntriesOf, RestoreOne, PlainlyNamed, TargetOf, Settles, Narrowed;
      RestoreSucceedsExactly(front, d, before, cwd, l);
      var o := RestoreAll(before, cwd, l, es[..n]);
      if o.error == None {
        OneRestored(items[n], d[items[n].spot], o.files, cwd, l);
        OneMorePut(items, d, before, o.files, cwd, l);
        OneMoreSettles(items, d, before, o.files, cwd, l);
      } else {
        FrontRestorable(items, d, before, cwd, l);
      }
    }
  }

  lemma FrontRestorable(items: seq<Item>, d: Files, before: Files, cwd: Spot, l: Layout)
    requires items != [] && forall it | it in items :: it.spot in d
    ensures Restorable(items, d, before, cwd, l) ==> Restorable(items[..|items| - 1], d, before, cwd, l)
  {
    hide Settles, Nested, TargetOf;
    var front := items[..|items| - 1];
    assert forall i | 0 <= i < |front| :: front[i] == items[i];
  }

  // ---------- the whole way ----------

  /** Items that go to one place are, there, one file. */
  ghost predicate Agreeing(items: seq<Item>, d: Files, cwd: Spot, l: Layout)
    requires forall it | it in items :: it.spot in d
  {
    forall i, j | 0 <= i < j < |items| && TargetOf(items[i], cwd, l).Some?
                  && TargetOf(items[i], cwd, l) == TargetOf(items[j], cwd, l) ::
      Narrowed(d[items[i].spot]) == Narrowed(d[items[j].spot])
  }

  /** The file of the item is where it belongs, with its bytes and its narrowed mode. */
  predicate Back(it: Item, after: Files, d: Files, cwd: Spot, l: Layout)
    requires it.spot in d
  {
    var target := TargetOf(it, cwd, l);
    target.Some? ==> target.value in after && after[target.value] == Narrowed(d[it.spot])
  }

  lemma AgreeingAllBack(items: seq<Item>, d: Files, before: Files, after: Files, cwd: Spot, l: Layout, i: nat)
    requires (forall it | it in items :: it.spot in d) && i < |items|
    requires PutBack(after, before, items, d, cwd, l) && Agreeing(items, d, cwd, l)
    ensures Back(items[i], after, d, cwd, l)
  {
    hide TargetOf, Narrowed;
    var target := TargetOf(items[i], cwd, l);
    if target.Some? {
      var k := Winner(items, target.value, cwd, l);
      assert k >= i;
    }
  }

  /** Restoring a full archive of a host succeeds on a host if and only if it is restorable there: no
      directory of the first is a file, every file the second keeps is within the limit, nothing is in
      their way and none is to be put below another. Then every place items go to holds the last of them
      with its bytes and narrowed mode, so each item is back if those that share a place agree; and no
      other file of the host has changed. The order of the entries plays no part in whether it succeeds. */
  lemma RoundTrip(items: seq<Item>, d: Files, from: Spot, l: Layout, before: Files, cwd: Spot, host: Layout)
    requires ProperDisk(d) && Named(l) && Enumerates(items, d, from, l)
    ensures var o := RestoreSpec(before, cwd, host, ArchiveOf(items, d, false));
            && (o.error == None <==> Restorable(items, d, before, cwd, host))
            && (o.error == None ==> PutBack(o.files, before, items, d, cwd, host))
            && (o.error == None && Agreeing(items, d, cwd, host) ==>
                  forall it | it in items :: Back(it, o.files, d, cwd, host))
  {
    hide PlainlyNamed, IsWalked, IsListed, ProperDisk, Named, Restorable, PutBack, Agreeing, Back, EntriesOf;
    forall it | it in items ensures PlainlyNamed(it) && it.spot in d { ItemsPlainlyNamed(it, d, from, l); }
    RestoreSucceedsExactly(items, d, before, cwd, host);
    var o := RestoreSpec(before, cwd, host, ArchiveOf(items, d, false));
    if o.error == None && Agreeing(items, d, cwd, host) {
      forall it | it in items ensures Back(it, o.files, d, cwd, host) {
        var i :| 0 <= i < |items| && items[i] == it;
        AgreeingAllBack(items, d, before, o.files, cwd, host, i);
      }
    }
  }

  /** Everything the host keeps fits, and its targets are free. */
  predicate RoomFor(it: Item, d: Files, before: Files, cwd: Spot, l: Layout)
    requires it.spot in d
  {
    TargetOf(it, cwd, l).Some? ==> Fits(d[it.spot]) && !InTheWay(before, TargetOf(it, cwd, l).value)
  }

  /** On another host: with its directories and listed files apart from each other it is enough that there
      is room for each file. */
  lemma OntoAnotherHost(items: seq<Item>, d: Files, from: Spot, l: Layout, before: Files, cwd: Spot, host: Layout)
    requires ProperDisk(d) && Named(l) && RootsAreDirectories(d, from, l) && Enumerates(items, d, from, l)
    requires Separate(cwd, host) && forall it | it in items :: RoomFor(it, d, before, cwd, host)
    ensures Restorable(items, d, before, cwd, host) && Agreeing(items, d, cwd, host)
  {
    hide IsWalked, IsListed, Related, ProperDisk, Named, RootsAreDirectories, Separate, Fits, InTheWay, TargetOf;
    forall it | it in items ensures it.spot in d && Settles(it, d[it.spot], before, cwd, host) {
      ItemsPlainlyNamed(it, d, from, l);
      BelowItsRoot(it, d, from, l);
    }
    forall i, j | 0 <= i < j < |items|
      ensures !Nested(TargetOf(items[i], cwd, host), TargetOf(items[j], cwd, host))
      ensures TargetOf(items[i], cwd, host).Some? ==> TargetOf(items[i], cwd, host) != TargetOf(items[j], cwd, host)
    {
      var x, y := items[i], items[j];
      assert x in items && y in items;
      ItemsPlainlyNamed(x, d, from, l);
      ItemsPlainlyNamed(y, d, from, l);
      ItemsApart(x, y, d, from, l);
      if TargetOf(x, cwd, host).Some? && TargetOf(y, cwd, host).Some? {
        TargetsApart(x, y, cwd, host);
        NotNested(TargetOf(x, cwd, host).value, TargetOf(y, cwd, host).value);
      }
    }
  }

  lemma NotNested(p: Spot, q: Spot)
    requires !Related(p, q)
    ensures p != q && !Nested(Some(p), Some(q))
  {
  }

  /** On the host it was made on, or one laid out like it, it is enough too, however directories and
      listed files lie in each other: every target is the place the file came from. */
  lemma OntoTheSameLayout(items: seq<Item>, d: Files, cwd: Spot, l: Layout, before: Files)
    requires ProperDisk(d) && Named(l) && RootsAreDirectories(d, cwd, l) && Enumerates(items, d, cwd, l)
    requires forall it | it in items :: RoomFor(it, d, before, cwd, l)
    ensures Restorable(items, d, before, cwd, l) && Agreeing(items, d, cwd, l)
    ensures forall it | it in items :: TargetOf(it, cwd, l) == Some(it.spot)
  {
    hide Fits, InTheWay, Place, RootsAreDirectories;
    forall it | it in items
      ensures TargetOf(it, cwd, l) == Some(it.spot) && Settles(it, d[it.spot], before, cwd, l)
    {
      BelowItsRoot(it, d, cwd, l);
      OwnTarget(it, d, cwd, l);
    }
    hide TargetOf, Settles, Named, IsWalked, IsListed;
    forall i, j | 0 <= i < j < |items|
      ensures !Nested(TargetOf(items[i], cwd, l), TargetOf(items[j], cwd, l))
    {
      var x, y := items[i], items[j];
      assert x in items && y in items;
      ItemsPlainlyNamed(x, d, cwd, l);
      ItemsPlainlyNamed(y, d, cwd, l);
      if x.spot != y.spot { NotNested(x.spot, y.spot); }
    }
  }

  lemma OwnTarget(it: Item, d: Files, cwd: Spot, l: Layout)
    requires Named(l) && it.below != [] && (IsWalked(it, d, cwd, l) || IsListed(it, d, cwd, l))
    ensures TargetOf(it, cwd, l) == Some(it.spot)
  {
    hide Place, Plain;
    if IsListed(it, d, cwd, l) {
      assert it.below == [it.below[0]] && Join(it.below) == it.below[0];
    }
  }

  /** Said of one file: wherever it was below its area's directory, it is there below the host's. */
  lemma EveryFileIsBack(items: seq<Item>, d: Files, from: Spot, l: Layout, after: Files,
                        cwd: Spot, host: Layout, area: string, below: Spot)
    requires Enumerates(items, d, from, l) && forall it | it in items :: it.spot in d && Back(it, after, d, cwd, host)
    requires KeepsDir(l, area) && KeepsDir(host, area) && area !in host.files && below != []
    requires Place(from, l.dirs[area]) + below in d
    ensures var there := Place(cwd, host.dirs[area]) + below;
            there in after && after[there] == Narrowed(d[Place(from, l.dirs[area]) + below])
  {
    hide Place, Join;
    var it := Item(area, below, Place(from, l.dirs[area]) + below, false);
    assert it in items;
    assert TargetOf(it, cwd, host) == Some(Place(cwd, host.dirs[area]) + below);
  }

  /** And of one listed on its own: wherever the first host kept it, it is where the other keeps it. */
  lemma EveryListedFileIsBack(items: seq<Item>, d: Files, from: Spot, l: Layout, after: Files,
                              cwd: Spot, host: Layout, area: string, name: string)
    requires Enumerates(items, d, from, l) && forall it | it in items :: it.spot in d && Back(it, after, d, cwd, host)
    requires KeepsFile(l, area, name) && KeepsFile(host, area, name) && Place(from, l.files[area][name]) in d
    ensures var there := Place(cwd, host.files[area][name]);
            there in after && after[there] == Narrowed(d[Place(from, l.files[area][name])])
  {
    hide Place;
    var it := Item(area, [name], Place(from, l.files[area][name]), true);
    assert it in items && Join([name]) == name;
    assert TargetOf(it, cwd, host) == Some(Place(cwd, host.files[area][name]));
  }

  /** What a restored file is: the same bytes, and the bits of 0644 it had, or 0600 if it had none of them or
      holds a key. */
  lemma NarrowedExactly(f: File)
    ensures Narrowed(f).data == f.data
    ensures Contains(f.data, "PRIVATE KEY-----") || f.mode & 0x1A4 == 0 ==> Narrowed(f).mode == 0x180
    ensures !Contains(f.data, "PRIVATE KEY-----") && f.mode & 0x1A4 != 0 ==> Narrowed(f).mode == f.mode & 0x1A4
  {
  }

  /** Over itself: restoring a full archive of a host on that host succeeds exactly if no file of it is larger
      than 256 MiB. Then the same places hold files as before, and only modes are narrowed. */
  lemma OntoItself(items: seq<Item>, d: Files, cwd: Spot, l: Layout)
    requires ProperDisk(d) && Named(l) && RootsAreDirectories(d, cwd, l) && Enumerates(items, d, cwd, l)
    ensures var o := RestoreSpec(d, cwd, l, ArchiveOf(items, d, false));
            && (o.error == None <==> forall it | it in items :: |d[it.spot].data| <= 0x1000_0000)
            && (o.error == None ==>
                  && (forall p :: p in o.files <==> p in d)
                  && forall p | p in d :: o.files[p] == if exists it :: it in items && it.spot == p then Narrowed(d[p])
                                                        else d[p])
  {
    hide *;
    AtHome(items, d, cwd, l);
    RoundTrip(items, d, cwd, l, d, cwd, l);
    var o := RestoreSpec(d, cwd, l, ArchiveOf(items, d, false));
    if forall it | it in items :: |d[it.spot].data| <= 0x1000_0000 {
      RoomAtHome(items, d, cwd, l);
      OntoTheSameLayout(items, d, cwd, l, d);
    }
    if o.error == None {
      AllFit(items, d, cwd, l);
      EachInItsPlace(items, d, o.files, cwd, l);
    }
  }

  /** Every item of a host is to be put where it is, and nothing there is in its way. */
  lemma AtHome(items: seq<Item>, d: Files, cwd: Spot, l: Layout)
    requires ProperDisk(d) && Named(l) && RootsAreDirectories(d, cwd, l) && Enumerates(items, d, cwd, l)
    ensures forall it | it in items ::
              it.spot in d && TargetOf(it, cwd, l) == Some(it.spot) && !InTheWay(d, it.spot)
  {
    hide IsWalked, IsListed, TargetOf, InTheWay, ProperDisk, Named, RootsAreDirectories;
    forall it | it in items ensures it.spot in d && TargetOf(it, cwd, l) == Some(it.spot) && !InTheWay(d, it.spot) {
      ItemsPlainlyNamed(it, d, cwd, l);
      BelowItsRoot(it, d, cwd, l);
      OwnTarget(it, d, cwd, l);
      NotInItsOwnWay(d, it.spot);
    }
  }

  lemma RoomAtHome(items: seq<Item>, d: Files, cwd: Spot, l: Layout)
    requires forall it | it in items ::
               it.spot in d && TargetOf(it, cwd, l) == Some(it.spot) && !InTheWay(d, it.spot)
    requires forall it | it in items :: |d[it.spot].data| <= 0x1000_0000
    ensures forall it | it in items :: RoomFor(it, d, d, cwd, l)
  {
    hide TargetOf, InTheWay;
  }

  lemma AllFit(items: seq<Item>, d: Files, cwd: Spot, l: Layout)
    requires forall it | it in items :: it.spot in d && TargetOf(it, cwd, l) == Some(it.spot)
    requires Restorable(items, d, d, cwd, l)
    ensures forall it | it in items :: |d[it.spot].data| <= 0x1000_0000
  {
    hide TargetOf, InTheWay;
    forall i | 0 <= i < |items| ensures |d[items[i].spot].data| <= 0x1000_0000 {
      assert items[i] in items;
      assert Settles(items[i], d[items[i].spot], d, cwd, l);
    }
  }

  lemma NotInItsOwnWay(d: Files, p: Spot)
    requires ProperDisk(d) && p in d
    ensures !InTheWay(d, p)
  {
    hide Plain;
    forall q | q in d ensures !(q < p || p < q) { assert Related(p, q) ==> p == q; }
  }

  lemma EachInItsPlace(items: seq<Item>, d: Files, after: Files, cwd: Spot, l: Layout)
    requires forall it | it in items :: it.spot in d && TargetOf(it, cwd, l) == Some(it.spot)
    requires PutBack(after, d, items, d, cwd, l)
    ensures forall p :: p in after <==> p in d
    ensures forall p | p in d :: after[p] == if exists it :: it in items && it.spot == p then Narrowed(d[p]) else d[p]
  {
    hide TargetOf, Narrowed;
    assert forall i | 0 <= i < |items| :: items[i] in items && TargetOf(items[i], cwd, l) == Some(items[i].spot);
    forall p ensures p in after <==> p in d
      ensures p in d ==> after[p] == if exists it :: it in items && it.spot == p then Narrowed(d[p]) else d[p]
    {
      var k := Winner(items, p, cwd, l);
      assert k >= 0 ==> items[k] in items && items[k].spot == p;
      assert k < 0 ==> Same(d, after, p);
    }
  }

  /** Onto a host with nothing on it, its directories and listed files apart from each other and none the root
      of the file system: it succeeds if no file is larger than 256 MiB, every file is back, and no other. */
  lemma OntoAnEmptyHost(items: seq<Item>, d: Files, from: Spot, l: Layout, cwd: Spot, host: Layout)
    requires ProperDisk(d) && Named(l) && RootsAreDirectories(d, from, l) && Enumerates(items, d, from, l)
    requires Separate(cwd, host) && forall a, n | KeepsFile(host, a, n) :: Place(cwd, host.files[a][n]) != []
    requires forall it | it in items :: |d[it.spot].data| <= 0x1000_0000
    ensures var o := RestoreSpec(map[], cwd, host, ArchiveOf(items, d, false));
            && o.error == None && (forall it | it in items :: Back(it, o.files, d, cwd, host))
            && forall p | p in o.files :: exists i | 0 <= i < |items| :: TargetOf(items[i], cwd, host) == Some(p)
  {
    hide *;
    forall it | it in items ensures it.spot in d && RoomFor(it, d, map[], cwd, host) {
      ItemOf(items, d, from, l, it);
      ItemsPlainlyNamed(it, d, from, l);
      RoomOnNothing(it, d, cwd, host);
    }
    OntoAnotherHost(items, d, from, l, map[], cwd, host);
    RoundTrip(items, d, from, l, map[], cwd, host);
    var o := RestoreSpec(map[], cwd, host, ArchiveOf(items, d, false));
    forall p | p in o.files ensures exists i | 0 <= i < |items| :: TargetOf(items[i], cwd, host) == Some(p) {
      OnlyItems(o.files, items, d, cwd, host, p);
    }
  }

  lemma ItemOf(items: seq<Item>, d: Files, cwd: Spot, l: Layout, it: Item)
    requires Enumerates(items, d, cwd, l) && it in items
    ensures IsWalked(it, d, cwd, l) || IsListed(it, d, cwd, l)
  {
  }

  lemma RoomOnNothing(it: Item, d: Files, cwd: Spot, l: Layout)
    requires it.spot in d && |d[it.spot].data| <= 0x1000_0000
    requires forall a, n | KeepsFile(l, a, n) :: Place(cwd, l.files[a][n]) != []
    ensures RoomFor(it, d, map[], cwd, l)
  {
    hide Place, Join;
    if it.below != [] && it.area in l.files && Join(it.below) in l.files[it.area] {
      assert l.files[it.area][Join(it.below)] == "" || KeepsFile(l, it.area, Join(it.below));
    }
  }

  lemma OnlyItems(after: Files, items: seq<Item>, d: Files, cwd: Spot, l: Layout, p: Spot)
    requires forall it | it in items :: it.spot in d
    ensures PutBack(after, map[], items, d, cwd, l) && p in after ==>
              exists i | 0 <= i < |items| :: TargetOf(items[i], cwd, l) == Some(p)
  {
    hide TargetOf, Narrowed;
    if PutBack(after, map[], items, d, cwd, l) {
      var k := Winner(items, p, cwd, l);
      assert k < 0 ==> Same(map[], after, p);
    }
  }

  // ---------- whatever the archive ----------

  /** Strictly below a directory of the layout, or one of its listed files. */
  ghost predicate Home(p: Spot, cwd: Spot, l: Layout) {
    || (exists a :: KeepsDir(l, a) && Place(cwd, l.dirs[a]) < p)
    || (exists a, n :: KeepsFile(l, a, n) && Place(cwd, l.files[a][n]) == p)
  }

  /** A file as Restore may leave it: nobody but its owner can write it, nobody run it, and if it holds a key
      nobody else read it. */
  predicate Harmless(f: File) {
    f.mode & 0x05B == 0 && (Contains(f.data, "PRIVATE KEY-----") ==> f.mode == 0x180)
  }

  lemma OneStaysHome(d: Files, cwd: Spot, l: Layout, e: Entry, p: Spot)
    ensures var after := RestoreOne(d, cwd, l, e).files;
            && (p in d ==> p in after)
            && (!Same(d, after, p) ==> p in after && Home(p, cwd, l) && Harmless(after[p]))
  {
    hide Place, Narrow, LooksSecret, DestinationFor, Harmless, Home, InTheWay;
    WrittenHarmless(e);
    var dest := DestinationFor(e.name, l);
    if dest.Ok? && dest.value != "" { SentHome(e.name, cwd, l); }
  }

  lemma WrittenHarmless(e: Entry)
    ensures Harmless(File(e.data, Narrow(e.mode & 0x1FF, LooksSecret(e.data))))
  {
    NeverWidened(e.mode & 0x1FF, LooksSecret(e.data));
    ModeComesBack(e.mode & 0x1FF, LooksSecret(e.data));
    hide Narrow, Contains;
  }

  lemma SentHome(name: string, cwd: Spot, l: Layout)
    requires DestinationFor(name, l).Ok? && DestinationFor(name, l).value != ""
    ensures Home(Place(cwd, DestinationFor(name, l).value), cwd, l)
  {
    hide Place, Plain, AllPlain, Split, Join, DestinationFor;
    NeverOutside(name, l, cwd);
    var parts, dest := Split(name), DestinationFor(name, l).value;
    var area, rest := parts[0], parts[1..];
    if area in l.files && Join(rest) in l.files[area] && dest == l.files[area][Join(rest)] {
      assert KeepsFile(l, area, Join(rest));
    } else {
      assert KeepsDir(l, area) && Place(cwd, l.dirs[area]) + rest == Place(cwd, dest) && rest != [];
    }
  }

  /** Whatever an archive holds and however far its restoring gets: no file is removed, and each that is new or
      changed is at home in the layout, harmless in its mode. */
  lemma {:induction false} RestoreStaysHome(before: Files, cwd: Spot, l: Layout, es: seq<Entry>, p: Spot)
    ensures var after := RestoreAll(before, cwd, l, es).files;
            && (p in before ==> p in after)
            && (!Same(before, after, p) ==> p in after && Home(p, cwd, l) && Harmless(after[p]))
    decreases |es|
  {
    if es != [] {
      hide RestoreOne, Home, Harmless;
      var front := es[..|es| - 1];
      RestoreStaysHome(before, cwd, l, front, p);
      OneStaysHome(RestoreAll(before, cwd, l, front).files, cwd, l, es[|es| - 1], p);
    }
  }

  // ---------- redaction ----------

  lemma PlaceholderIsNoKey()
    ensures !LooksSecret(PLACEHOLDER)
  {
    assert 'P' !in "[redacted by FlyingCerts " && 'P' !in "backup -redact: this ";
    assert 'P' !in "archive cannot be " && 'P' !in "restored]\n";
    if LooksSecret(PLACEHOLDER) { ContainsFirst(PLACEHOLDER, KEY_MARK); }
  }

  /** After redaction no entry has a key in it, the masked entries are named, and the archive is
      refused before anything is written. */
  lemma RedactedIsNoRecoveryPoint(items: seq<Item>, a: Archive, d: Files, before: Files, cwd: Spot, host: Layout)
    requires (forall it | it in items :: it.spot in d) && a == ArchiveOf(items, d, true)
    ensures forall i | 0 <= i < |a.entries| :: !LooksSecret(a.entries[i].data)
    ensures forall i | 0 <= i < |items| && LooksSecret(d[items[i].spot].data) ::
              a.entries[i].data == PLACEHOLDER && a.entries[i].name in a.manifest.redactedFiles
    ensures RestoreSpec(before, cwd, host, a) == Outcome(before, Some(NotRestorable))
  {
    hide LooksSecret, EntryName;
    PlaceholderIsNoKey();
    forall i | 0 <= i < |items| && LooksSecret(d[items[i].spot].data)
      ensures a.entries[i].name in a.manifest.redactedFiles
    {
      assert items[i] in items;
    }
  }

  /** A full archive says it holds keys exactly when some entry does. */
  lemma SecretsAreDeclared(items: seq<Item>, d: Files)
    requires forall it | it in items :: it.spot in d
    ensures ManifestOf(items, d, false).containsSecrets
            <==> exists i | 0 <= i < |items| :: LooksSecret(EntriesOf(items, d, false)[i].data)
  {
    hide LooksSecret, EntryName;
    var es := EntriesOf(items, d, false);
    assert forall i | 0 <= i < |items| :: es[i].data == d[items[i].spot].data;
    if AnySecret(items, d) {
      var it :| it in items && LooksSecret(d[it.spot].data);
      var i :| 0 <= i < |items| && items[i] == it;
      assert LooksSecret(es[i].data);
    }
    if i :| 0 <= i < |items| && LooksSecret(es[i].data) {
      assert items[i] in items;
    }
  }
}
