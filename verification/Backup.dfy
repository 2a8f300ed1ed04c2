/** The backup archive: what Create puts into it and where Restore puts it back
    (internal/backup/backup.go). Bytes are characters; a disk is its regular files by place, and
    directories are implied by them. */
module Backup {
  import opened GoStrings
  import opened PathClean

  const FORMAT_VERSION := 1
  const MAX_ENTRY_SIZE := 256 * 1024 * 1024
  const KEY_MARK := "PRIVATE KEY-----"
  const PLACEHOLDER := "[redacted by FlyingCerts " + "backup -redact: this " + "archive cannot be " + "restored]\n"

  type Spot = seq<string>

  datatype File = File(data: string, mode: bv16)

  type Files = map<Spot, File>

  /** Where each area lives: directories copied whole, and single files by their name in the archive. */
  datatype Layout = Layout(dirs: map<string, string>, files: map<string, map<string, string>>)

  datatype Entry = Entry(name: string, mode: bv16, data: string)

  datatype Manifest = Manifest(format: int, areas: set<string>, restorable: bool, containsSecrets: bool,
                               redactedFiles: set<string>)

  datatype Archive = Archive(manifest: Manifest, entries: seq<Entry>)

  predicate LooksSecret(data: string) {
    Contains(data, KEY_MARK)
  }

  /** Every private key in PEM is taken for one, whatever kind its label names; where the words do not stand
      there is none. */
  lemma KeysAreSecret(data: string, kind: string)
    ensures Contains(data, "-----BEGIN " + kind + "PRIVATE KEY-----") ==> LooksSecret(data)
    ensures !Contains(data, "PRIVATE KEY") ==> !LooksSecret(data)
  {
    var front := "-----BEGIN " + kind;
    var line := front + "PRIVATE KEY-----";
    assert OccursAt(line, "PRIVATE KEY-----", |front|);
    ContainsAt(line, "PRIVATE KEY-----", |front|);
    assert OccursAt("PRIVATE KEY-----", "PRIVATE KEY", 0);
    ContainsAt("PRIVATE KEY-----", "PRIVATE KEY", 0);
    assert line == "-----BEGIN " + kind + "PRIVATE KEY-----";
    if Contains(data, line) { ContainsTransitive(data, line, "PRIVATE KEY-----"); }
    if LooksSecret(data) { ContainsTransitive(data, "PRIVATE KEY-----", "PRIVATE KEY"); }
  }

  // ---------- what goes in ----------

  /** One file to be archived: its area, its name below the area, where it is, and whether it is
      listed on its own or was met in a directory. */
  datatype Item = Item(area: string, below: seq<string>, spot: Spot, listed: bool)

  /** The name path.Join makes of the area and the path relative to it. */
  function EntryName(area: string, below: seq<string>): string {
    JoinPath(area, if below == [] then "." else Join(below))
  }

  predicate IsWalked(it: Item, d: Files, cwd: Spot, l: Layout) {
    && !it.listed && it.area in l.dirs && l.dirs[it.area] != ""
    && it.spot in d && it.spot == Place(cwd, l.dirs[it.area]) + it.below
  }

  predicate IsListed(it: Item, d: Files, cwd: Spot, l: Layout) {
    && it.listed && it.area in l.files && |it.below| == 1 && it.below[0] in l.files[it.area]
    && l.files[it.area][it.below[0]] != ""
    && it.spot in d && it.spot == Place(cwd, l.files[it.area][it.below[0]])
  }

  /** Every file below a directory and every listed file that is there, each once. */
  ghost predicate Enumerates(items: seq<Item>, d: Files, cwd: Spot, l: Layout) {
    && (forall it :: it in items <==> IsWalked(it, d, cwd, l) || IsListed(it, d, cwd, l))
    && NoRepeats(items)
  }

  function EntryOf(it: Item, f: File, redact: bool): Entry {
    Entry(EntryName(it.area, it.below), f.mode & 0x1FF,
          if redact && LooksSecret(f.data) then PLACEHOLDER else f.data)
  }

  function EntriesOf(items: seq<Item>, d: Files, redact: bool): (es: seq<Entry>)
    requires forall it | it in items :: it.spot in d
    ensures |es| == |items| && forall i | 0 <= i < |items| :: es[i] == EntryOf(items[i], d[items[i].spot], redact)
  {
    seq(|items|, i requires 0 <= i < |items| => EntryOf(items[i], d[items[i].spot], redact))
  }

  function ManifestOf(items: seq<Item>, d: Files, redact: bool): Manifest
    requires forall it | it in items :: it.spot in d
  {
    Manifest(FORMAT_VERSION, AreasOf(items), !redact, !redact && AnySecret(items, d),
             if redact then SecretNames(items, d) else {})
  }

  function ArchiveOf(items: seq<Item>, d: Files, redact: bool): Archive
    requires forall it | it in items :: it.spot in d
  {
    Archive(ManifestOf(items, d, redact), EntriesOf(items, d, redact))
  }

  function AreasOf(items: seq<Item>): set<string> {
    set it | it in items :: it.area
  }

  predicate AnySecret(items: seq<Item>, d: Files)
    requires forall it | it in items :: it.spot in d
  {
    exists it | it in items :: LooksSecret(d[it.spot].data)
  }

  function SecretNames(items: seq<Item>, d: Files): set<string>
    requires forall it | it in items :: it.spot in d
  {
    set it | it in items && LooksSecret(d[it.spot].data) :: EntryName(it.area, it.below)
  }

  lemma OneMoreItem(items: seq<Item>, it: Item, d: Files)
    requires forall x | x in items + [it] :: x.spot in d
    ensures forall x | x in items :: x.spot in d
    ensures AreasOf(items + [it]) == AreasOf(items) + {it.area}
    ensures AnySecret(items + [it], d) <==> AnySecret(items, d) || LooksSecret(d[it.spot].data)
    ensures SecretNames(items + [it], d)
            == SecretNames(items, d) + if LooksSecret(d[it.spot].data) then {EntryName(it.area, it.below)} else {}
    ensures forall redact :: EntriesOf(items + [it], d, redact)
                             == EntriesOf(items, d, redact) + [EntryOf(it, d[it.spot], redact)]
  {
    hide LooksSecret, EntryName, EntryOf;
    var all := items + [it];
    assert forall x :: x in all <==> x in items || x == it;
  }

  // ---------- where it goes ----------

  datatype RestoreError = BadFormat | NotRestorable | Refused(name: string) | TooBig(name: string) | Blocked(spot: Spot)

  /** The path an entry is written to, empty when this host does not keep its area. */
  function DestinationFor(name: string, l: Layout): Result<string, RestoreError> {
    match AreaAndRest(name)
    case None => Err(Refused(name))
    case Some((area, rest)) =>
      if area in l.files && rest in l.files[area] then Ok(l.files[area][rest])
      else if area !in l.dirs || l.dirs[area] == "" then Ok("")
      else Ok(JoinPath(l.dirs[area], rest))
  }

  /** Every name that is not refused goes to a listed file, to nothing, or strictly below the
      configured root of its area. */
  lemma NeverOutside(name: string, l: Layout, cwd: Spot)
    requires DestinationFor(name, l).Ok?
    ensures var parts, dest := Split(name), DestinationFor(name, l).value;
            && |parts| >= 2 && AllPlain(parts)
            && var area := parts[0];
               || (area in l.files && Join(parts[1..]) in l.files[area] && dest == l.files[area][Join(parts[1..])])
               || dest == ""
               || (area in l.dirs && l.dirs[area] != "" && Place(cwd, dest) == Place(cwd, l.dirs[area]) + parts[1..])
  {
    hide Place, JoinPath, Split, Join, Plain;
    AcceptedExactly(name);
    var parts := Split(name);
    JoinSplit(name);
    PlainAccepted(parts);
    forall i | 0 <= i < |parts| - 1 ensures Plain(parts[1..][i]) { assert parts[1..][i] == parts[i + 1]; }
    var area := parts[0];
    if area in l.dirs && l.dirs[area] != "" {
      JoinedBelow(cwd, l.dirs[area], parts[1..]);
    }
  }

  /** The place an item belongs to on a host with layout l. */
  function Target(area: string, below: seq<string>, cwd: Spot, l: Layout): Option<Spot>
    requires below != []
  {
    if area in l.files && Join(below) in l.files[area] then
      var dest := l.files[area][Join(below)];
      if dest == "" then None else Some(Place(cwd, dest))
    else if area !in l.dirs || l.dirs[area] == "" then None
    else Some(Place(cwd, l.dirs[area]) + below)
  }

  /** The names Create makes are the area and the file names below it, joined by slashes; Restore takes
      every one of them and sends it to its target. */
  lemma CreatedNamesAccepted(area: string, below: seq<string>, cwd: Spot, l: Layout)
    requires Plain(area) && AllPlain(below) && below != []
    ensures EntryName(area, below) == Join([area] + below)
    ensures var r, target := DestinationFor(EntryName(area, below), l), Target(area, below, cwd, l);
            r.Ok? && (if target.None? then r.value == "" else r.value != "" && Place(cwd, r.value) == target.value)
  {
    hide Place, Clean, Plain;
    var parts := [area] + below;
    assert parts[1..] == below && Join(parts) == area + "/" + Join(below);
    assert AllPlain(parts);
    PlainJoined(parts);
    PlainAccepted(parts);
    if area in l.dirs && l.dirs[area] != "" {
      JoinedBelow(cwd, l.dirs[area], below);
      CleanNotEmpty(l.dirs[area] + "/" + Join(below));
    }
  }

  lemma CleanNotEmpty(s: string)
    ensures Clean(s) != ""
  {
    var kept := CleanParts(s);
    JoinSplit(s);
    ReduceReduces(Rooted(s), Split(s));
    if kept != [] { ReducedText(Rooted(s), kept); }
  }

  /** A directory that is itself a file gives an entry named like its area, which Restore refuses. */
  lemma RootFileRefused(area: string, l: Layout)
    requires Plain(area)
    ensures EntryName(area, []) == area && DestinationFor(area, l) == Err(Refused(area))
  {
    SplitPart(area, ".");
    SplitPart(".", "");
    SplitPart(area, "");
    AcceptedExactly(area);
    assert Split(area + "/" + ".") == [area, "."];
    assert [area, "."][..1] == [area] && [area][..0] == [];
    assert Reduce(false, [area]) == [area];
    assert !Rooted(area + "/" + ".");
  }

  /** A key is 0600 whatever the archive says, and nothing else is group- or world-writable. */
  function Narrow(archived: bv16, secret: bool): bv16 {
    var mode := archived & 0x1A4;
    if secret || mode == 0 then 0x180 else mode
  }

  lemma NeverWidened(archived: bv16, secret: bool)
    ensures Narrow(archived, secret) & 0x05B == 0
    ensures secret ==> Narrow(archived, secret) & 0x03F == 0
    ensures Narrow(archived, secret) & archived == Narrow(archived, secret) || Narrow(archived, secret) == 0x180
  {
    assert 0x1A4 & 0x05B == 0 as bv16 && 0x180 & 0x05B == 0 as bv16 && 0x180 & 0x03F == 0 as bv16;
    var mode := archived & 0x1A4;
    assert mode & 0x05B == 0 && mode & archived == mode;
  }

  /** Of a file that is not a key the bits of 0644 come back as they were, so 0644 itself does; a key, or a
      file with none of them, is 0600. */
  lemma ModeComesBack(archived: bv16, secret: bool)
    ensures secret || archived & 0x1A4 == 0 ==> Narrow(archived, secret) == 0x180
    ensures !secret && archived & 0x1A4 != 0 ==> Narrow(archived, secret) & 0x1A4 == archived & 0x1A4
    ensures !secret && archived & 0x1A4 != 0 ==> Narrow(archived, secret) & 0xFE5B == 0
    ensures !secret && archived & 0x1FF == 0x1A4 ==> Narrow(archived, secret) == 0x1A4
  {
    assert (archived & 0x1FF) & 0x1A4 == archived & 0x1A4;
    assert (archived & 0x1A4) & 0x1A4 == archived & 0x1A4 && (archived & 0x1A4) & 0xFE5B == 0;
  }

  /** A file cannot be put where a directory is, nor below a file. */
  predicate InTheWay(d: Files, p: Spot) {
    p == [] || exists q | q in d :: q < p || p < q
  }

  datatype Outcome = Outcome(files: Files, error: Option<RestoreError>)

  function RestoreOne(d: Files, cwd: Spot, l: Layout, e: Entry): Outcome {
    var dest := DestinationFor(e.name, l);
    if dest.Err? then Outcome(d, Some(dest.error))
    else if dest.value == "" then Outcome(d, None)
    else if |e.data| > MAX_ENTRY_SIZE then Outcome(d, Some(TooBig(e.name)))
    else
      var p := Place(cwd, dest.value);
      if InTheWay(d, p) then Outcome(d, Some(Blocked(p)))
      else Outcome(d[p := File(e.data, Narrow(e.mode & 0x1FF, LooksSecret(e.data)))], None)
  }

  /** The entries in order, up to the first that fails. */
  function RestoreAll(d: Files, cwd: Spot, l: Layout, es: seq<Entry>): Outcome {
    if es == [] then Outcome(d, None)
    else
      var o := RestoreAll(d, cwd, l, es[..|es| - 1]);
      if o.error.Some? then o else RestoreOne(o.files, cwd, l, es[|es| - 1])
  }

  function RestoreSpec(d: Files, cwd: Spot, l: Layout, a: Archive): Outcome {
    if a.manifest.format != FORMAT_VERSION then Outcome(d, Some(BadFormat))
    else if !a.manifest.restorable then Outcome(d, Some(NotRestorable))
    else RestoreAll(d, cwd, l, a.entries)
  }

  lemma {:induction false} FailsOnward(d: Files, cwd: Spot, l: Layout, es: seq<Entry>, k: nat)
    requires k <= |es| && RestoreAll(d, cwd, l, es[..k]).error.Some?
    ensures RestoreAll(d, cwd, l, es) == RestoreAll(d, cwd, l, es[..k])
    decreases |es|
  {
    if k == |es| {
      assert es[..k] == es;
    } else {
      var front := es[..|es| - 1];
      assert front[..k] == es[..k];
      FailsOnward(d, cwd, l, front, k);
    }
  }

  ghost predicate NoRepeats(items: seq<Item>) {
    forall i, j | 0 <= i < j < |items| :: items[i] != items[j]
  }

  lemma DistinctTogether(x: seq<Item>, y: seq<Item>)
    requires NoRepeats(x) && NoRepeats(y) && forall it | it in x :: it !in y
    ensures NoRepeats(x + y)
  {
    forall i, j | 0 <= i < j < |x + y| ensures (x + y)[i] != (x + y)[j] {
      if i < |x| <= j { assert x[i] in x && y[j - |x|] in y; }
    }
  }

  class Disk {
    var files: Files

    constructor (files: Files)
      ensures this.files == files
    {
      this.files := files;
    }

    /** filepath.WalkDir and the listed files, in no particular order. */
    method Collect(cwd: Spot, l: Layout) returns (items: seq<Item>)
      ensures Enumerates(items, files, cwd, l)
    {
      items := [];
      var areas := l.dirs.Keys;
      while areas != {}
        invariant areas <= l.dirs.Keys
        invariant forall it :: it in items <==> it.area !in areas && IsWalked(it, files, cwd, l)
        invariant NoRepeats(items)
        decreases |areas|
      {
        var area :| area in areas;
        areas := areas - {area};
        var found := Walk(area, l.dirs[area], cwd);
        DistinctTogether(items, found);
        forall it ensures it in items + found <==> it.area !in areas && IsWalked(it, files, cwd, l) {
        }
        items := items + found;
      }
      var listed := CollectListed(cwd, l);
      DistinctTogether(items, listed);
      items := items + listed;
    }

    method Walk(area: string, root: string, cwd: Spot) returns (items: seq<Item>)
      ensures forall it :: it in items <==>
                !it.listed && it.area == area && root != "" && it.spot in files && it.spot == Place(cwd, root) + it.below
      ensures NoRepeats(items)
    {
      items := [];
      if root == "" { return; }
      var base := Place(cwd, root);
      var left := files.Keys;
      while left != {}
        invariant left <= files.Keys
        invariant forall it :: it in items <==>
                    !it.listed && it.area == area && it.spot in files && it.spot !in left && it.spot == base + it.below
        invariant NoRepeats(items)
        decreases |left|
      {
        var p :| p in left;
        left := left - {p};
        if base <= p {
          var it := Item(area, p[|base|..], p, false);
          assert p == base + p[|base|..];
          assert forall x: Item | x.spot == p && p == base + x.below :: x.below == p[|base|..];
          items := items + [it];
        }
      }
    }

    method CollectListed(cwd: Spot, l: Layout) returns (items: seq<Item>)
      ensures forall it :: it in items <==> IsListed(it, files, cwd, l)
      ensures NoRepeats(items)
    {
      items := [];
      var areas := l.files.Keys;
      while areas != {}
        invariant areas <= l.files.Keys
        invariant forall it :: it in items <==> it.area !in areas && IsListed(it, files, cwd, l)
        invariant NoRepeats(items)
        decreases |areas|
      {
        var area :| area in areas;
        areas := areas - {area};
        var found := ListedIn(area, l.files[area], cwd);
        DistinctTogether(items, found);
        forall it ensures it in items + found <==> it.area !in areas && IsListed(it, files, cwd, l) {
        }
        items := items + found;
      }
    }

    method ListedIn(area: string, named: map<string, string>, cwd: Spot) returns (items: seq<Item>)
      ensures forall it :: it in items <==>
                it.listed && it.area == area && |it.below| == 1 && it.below[0] in named && named[it.below[0]] != ""
                && it.spot in files && it.spot == Place(cwd, named[it.below[0]])
      ensures NoRepeats(items)
    {
      hide Place;
      items := [];
      var names := named.Keys;
      while names != {}
        invariant names <= named.Keys
        invariant forall it :: it in items <==>
                    it.listed && it.area == area && |it.below| == 1 && it.below[0] in named && named[it.below[0]] != ""
                    && it.spot in files && it.spot == Place(cwd, named[it.below[0]]) && it.below[0] !in names
        invariant NoRepeats(items)
        decreases |names|
      {
        var name :| name in names;
        names := names - {name};
        var src := named[name];
        if src != "" && Place(cwd, src) in files {
          var it := Item(area, [name], Place(cwd, src), true);
          assert forall x: Item | |x.below| == 1 && x.below[0] == name :: x.below == [name];
          items := items + [it];
        }
      }
    }

    /** Nothing is written before every file has been read. */
    method Create(cwd: Spot, l: Layout, redact: bool) returns (a: Archive)
      ensures exists items :: Enumerates(items, files, cwd, l) && a == ArchiveOf(items, files, redact)
    {
      hide Place;
      var items := Collect(cwd, l);
      a := Write(items, redact);
    }

    method Write(items: seq<Item>, redact: bool) returns (a: Archive)
      requires forall it | it in items :: it.spot in files
      ensures a == ArchiveOf(items, files, redact)
    {
      hide LooksSecret, EntryName;
      var areas, masked, secrets, entries := {}, {}, false, [];
      for i := 0 to |items|
        invariant entries == EntriesOf(items[..i], files, redact)
        invariant areas == AreasOf(items[..i]) && secrets == (!redact && AnySecret(items[..i], files))
        invariant masked == if redact then SecretNames(items[..i], files) else {}
      {
        hide AreasOf, AnySecret, SecretNames, EntriesOf;
        var it := items[i];
        var f := files[it.spot];
        var name := EntryName(it.area, it.below);
        var data := f.data;
        assert items[..i + 1] == items[..i] + [it];
        OneMoreItem(items[..i], it, files);
        if LooksSecret(data) {
          if redact {
            masked := masked + {name};
            data := PLACEHOLDER;
          } else {
            secrets := true;
          }
        }
        areas := areas + {it.area};
        entries := entries + [Entry(name, f.mode & 0x1FF, data)];
        assert entries == EntriesOf(items[..i], files, redact) + [EntryOf(it, f, redact)];
      }
      assert items[..|items|] == items;
      a := Archive(Manifest(FORMAT_VERSION, areas, !redact, secrets, masked), entries);
    }

    method WriteRestored(spot: Spot, data: string, archived: bv16, secret: bool)
      modifies this
      ensures files == old(files)[spot := File(data, Narrow(archived, secret))]
    {
      var mode := archived & 0x1A4;
      if secret { mode := 0x180; }
      if mode == 0 { mode := 0x180; }
      files := files[spot := File(data, mode)];
    }

    method Restore(a: Archive, cwd: Spot, l: Layout) returns (r: Result<Manifest, RestoreError>)
      modifies this
      ensures var o := RestoreSpec(old(files), cwd, l, a);
              files == o.files && r == if o.error.None? then Ok(a.manifest) else Err(o.error.value)
    {
      if a.manifest.format != FORMAT_VERSION { return Err(BadFormat); }
      if !a.manifest.restorable { return Err(NotRestorable); }
      var es := a.entries;
      for i := 0 to |es|
        invariant RestoreAll(old(files), cwd, l, es[..i]) == Outcome(files, None)
      {
        hide DestinationFor, Narrow, LooksSecret, Place, InTheWay;
        assert es[..i + 1][..i] == es[..i];
        ghost var next := RestoreAll(old(files), cwd, l, es[..i + 1]);
        if next.error.Some? { FailsOnward(old(files), cwd, l, es, i + 1); }
        var dest := DestinationFor(es[i].name, l);
        if dest.Err? { return Err(dest.error); }
        if dest.value == "" { continue; }
        if |es[i].data| > MAX_ENTRY_SIZE { return Err(TooBig(es[i].name)); }
        var spot := Place(cwd, dest.value);
        if InTheWay(files, spot) { return Err(Blocked(spot)); }
        WriteRestored(spot, es[i].data, es[i].mode & 0x1FF, LooksSecret(es[i].data));
      }
      assert es[..|es|] == es;
      r := Ok(a.manifest);
    }
  }
}
