/** Certificates on disk: a key, a chain and a metadata file for each name, each file replaced as a
    whole, the three of them not (internal/certstore/certstore.go). */
module CertStore {
  import opened GoStrings

  /** A chain carries the key its leaf was made for; `serial` is all else there is to it. */
  datatype Chain = Chain(key: nat, serial: nat)

  type Key = nat

  /** certinfo.LoadPair */
  predicate Matches(chain: Chain, key: Key) {
    chain.key == key
  }

  datatype Disk = Disk(keys: map<string, Key>, chains: map<string, Chain>, metas: map<string, Chain>)

  datatype StoreError = BadName | Mismatched | NotFound | NoKey | Unusable | Stopped

  predicate SafeChar(c: char) {
    'a' <= c <= 'z' || '0' <= c <= '9'
  }

  predicate ValidName(name: string) {
    && 0 < |name| <= 64 && SafeChar(name[0]) && SafeChar(name[|name| - 1])
    && forall i | 0 <= i < |name| :: SafeChar(name[i]) || name[i] in "._-"
  }

  /** A name Load and Save take leads to no other directory, and every short name of small letters and
      digits, dots, dashes and underscores inside it, is one. */
  lemma ValidNamesAreSafe(name: string)
    ensures ValidName(name) ==> 0 < |name| <= 64 && '/' !in name && '\\' !in name && name[0] != '.' && name != ".."
    ensures 0 < |name| <= 64 && (forall i | 0 <= i < |name| :: 'a' <= name[i] <= 'z' || '0' <= name[i] <= '9') ==>
              ValidName(name)
  {
    if ValidName(name) {
      forall c | c in name ensures c != '/' && c != '\\' {
        var i :| 0 <= i < |name| && name[i] == c;
        assert SafeChar(name[i]) || name[i] in "._-";
      }
    }
  }

  /** The first `done` of the three writes of a Save: key, chain, metadata. */
  function Written(d: Disk, name: string, chain: Chain, key: Key, done: nat): Disk {
    Disk(if done >= 1 then d.keys[name := key] else d.keys,
         if done >= 2 then d.chains[name := chain] else d.chains,
         if done >= 3 then d.metas[name := chain] else d.metas)
  }

  /** Load, its two reads made at two moments. */
  function LoadSpec(earlier: Disk, later: Disk, name: string): Result<(Chain, Key), StoreError> {
    if !ValidName(name) then Err(BadName)
    else if name !in earlier.chains then Err(NotFound)
    else if name !in later.keys then Err(NoKey)
    else if !Matches(earlier.chains[name], later.keys[name]) then Err(Unusable)
    else Ok((earlier.chains[name], later.keys[name]))
  }

  class Store {
    var keys: map<string, Key>
    var chains: map<string, Chain>
    var metas: map<string, Chain>

    constructor ()
      ensures Value() == Disk(map[], map[], map[])
    {
      keys, chains, metas := map[], map[], map[];
    }

    function Value(): Disk
      reads this
    {
      Disk(keys, chains, metas)
    }

    /** `upTo` is how many of the writes get to the disk before one fails or the host goes down. A
        pair that does not match leaves no trace. */
    method Save(name: string, chain: Chain, key: Key, upTo: nat) returns (r: Result<Chain, StoreError>)
      modifies this
      ensures r == if !ValidName(name) then Err(BadName)
                   else if !Matches(chain, key) then Err(Mismatched)
                   else if upTo < 3 then Err(Stopped) else Ok(chain)
      ensures Value() == if ValidName(name) && Matches(chain, key) then Written(old(Value()), name, chain, key, upTo)
                         else old(Value())
    {
      if !ValidName(name) { return Err(BadName); }
      if !Matches(chain, key) { return Err(Mismatched); }
      if upTo < 1 { return Err(Stopped); }
      keys := keys[name := key];
      if upTo < 2 { return Err(Stopped); }
      chains := chains[name := chain];
      if upTo < 3 { return Err(Stopped); }
      metas := metas[name := chain];
      r := Ok(chain);
    }

    method Load(name: string) returns (r: Result<(Chain, Key), StoreError>)
      ensures r == LoadSpec(Value(), Value(), name)
    {
      if !ValidName(name) { return Err(BadName); }
      if name !in chains { return Err(NotFound); }
      if name !in keys { return Err(NoKey); }
      if !Matches(chains[name], keys[name]) { return Err(Unusable); }
      r := Ok((chains[name], keys[name]));
    }
  }

  // ---------- one writer, any readers ----------

  /** A Save as far as it got: `done` of its three writes are on the disk. */
  datatype Attempt = Attempt(name: string, chain: Chain, key: Key, done: nat)

  /** Names are checked, pairs match, and no key is saved twice. */
  ghost predicate Genuine(h: seq<Attempt>) {
    && (forall i | 0 <= i < |h| :: ValidName(h[i].name) && Matches(h[i].chain, h[i].key) && h[i].done <= 3)
    && (forall i, j | 0 <= i < j < |h| :: h[i].key != h[j].key)
  }

  /** A moment: `saves` attempts are over, and the next one has made `writes` of its writes. */
  datatype Moment = Moment(saves: nat, writes: nat)

  predicate Real(h: seq<Attempt>, m: Moment) {
    (m.saves < |h| && m.writes <= h[m.saves].done) || m == Moment(|h|, 0)
  }

  predicate NotAfter(a: Moment, b: Moment) {
    a.saves < b.saves || (a.saves == b.saves && a.writes <= b.writes)
  }

  function Over(h: seq<Attempt>, n: nat): Disk
    requires n <= |h|
  {
    if n == 0 then Disk(map[], map[], map[])
    else Written(Over(h, n - 1), h[n - 1].name, h[n - 1].chain, h[n - 1].key, h[n - 1].done)
  }

  function At(h: seq<Attempt>, m: Moment): Disk
    requires Real(h, m)
  {
    if m.saves == |h| then Over(h, |h|)
    else Written(Over(h, m.saves), h[m.saves].name, h[m.saves].chain, h[m.saves].key, m.writes)
  }

  /** How many of the writes of attempt i are on the disk at a moment. */
  function DoneBy(h: seq<Attempt>, i: nat, m: Moment): nat
    requires i < |h|
  {
    if i < m.saves then h[i].done else if i == m.saves then m.writes else 0
  }

  /** Attempt i is the last for its name to have made its w-th write by the moment m. */
  ghost predicate LastToWrite(h: seq<Attempt>, i: nat, w: nat, name: string, m: Moment) {
    && i < |h| && h[i].name == name && DoneBy(h, i, m) >= w
    && forall j | i < j < |h| && h[j].name == name :: DoneBy(h, j, m) < w
  }

  lemma {:induction false} OverHolds(h: seq<Attempt>, n: nat, name: string) returns (k: int, c: int)
    requires n <= |h|
    ensures var d := Over(h, n);
            && (if k < 0 then name !in d.keys && NoneWrote(h, n, 1, name)
                else k < n && LastOf(h, n, k, 1, name) && name in d.keys && d.keys[name] == h[k].key)
            && (if c < 0 then name !in d.chains && NoneWrote(h, n, 2, name)
                else c < n && LastOf(h, n, c, 2, name) && name in d.chains && d.chains[name] == h[c].chain)
  {
    k, c := -1, -1;
    if n > 0 {
      k, c := OverHolds(h, n - 1, name);
      if h[n - 1].name == name {
        if h[n - 1].done >= 1 { k := n - 1; }
        if h[n - 1].done >= 2 { c := n - 1; }
      }
    }
  }

  predicate NoneWrote(h: seq<Attempt>, n: nat, w: nat, name: string)
    requires n <= |h|
  {
    forall j | 0 <= j < n && h[j].name == name :: h[j].done < w
  }

  predicate LastOf(h: seq<Attempt>, n: nat, i: nat, w: nat, name: string)
    requires i < n <= |h|
  {
    h[i].name == name && h[i].done >= w && forall j | i < j < n && h[j].name == name :: h[j].done < w
  }

  /** At every moment the key on disk is that of the last attempt to have written its key, and the
      chain that of the last to have written its chain. */
  lemma DiskAt(h: seq<Attempt>, m: Moment, name: string) returns (k: int, c: int)
    requires Real(h, m)
    ensures var d := At(h, m);
            && (if k < 0 then name !in d.keys && forall j | 0 <= j < |h| && h[j].name == name :: DoneBy(h, j, m) < 1
                else LastToWrite(h, k, 1, name, m) && name in d.keys && d.keys[name] == h[k].key)
            && (if c < 0 then name !in d.chains && forall j | 0 <= j < |h| && h[j].name == name :: DoneBy(h, j, m) < 2
                else LastToWrite(h, c, 2, name, m) && name in d.chains && d.chains[name] == h[c].chain)
  {
    k, c := OverHolds(h, m.saves, name);
    if m.saves < |h| && h[m.saves].name == name {
      if m.writes >= 1 { k := m.saves; }
      if m.writes >= 2 { c := m.saves; }
    }
  }

  lemma DoneByGrows(h: seq<Attempt>, i: nat, a: Moment, b: Moment)
    requires i < |h| && Real(h, a) && Real(h, b) && NotAfter(a, b)
    ensures DoneBy(h, i, a) <= DoneBy(h, i, b)
  {
  }

  /** What a Load finds that reads the chain at one moment and the key at a later one, in terms of the
      attempts that wrote them: the pair of one attempt, or a key whose attempt had written its key by
      the later moment but not its chain by the earlier, because it was at work in between or stopped. */
  lemma LoadExactly(h: seq<Attempt>, a: Moment, b: Moment, name: string)
    requires Genuine(h) && Real(h, a) && Real(h, b) && NotAfter(a, b) && ValidName(name)
    ensures var r := LoadSpec(At(h, a), At(h, b), name);
            && (r == Err(NotFound) <==> forall i | 0 <= i < |h| && h[i].name == name :: DoneBy(h, i, a) < 2)
            && (r.Ok? ==> exists i: nat :: LastToWrite(h, i, 2, name, a) && LastToWrite(h, i, 1, name, b)
                                           && r.value == (h[i].chain, h[i].key))
            && (r.Err? ==> r.error == NotFound || r.error == Unusable)
            && (r == Err(Unusable) <==> exists i: nat, j: nat :: Torn(h, i, j, name, a, b))
  {
    var k0, c := DiskAt(h, a, name);
    var k, c1 := DiskAt(h, b, name);
    if c >= 0 {
      DoneByGrows(h, c, a, b);
      assert k >= c;
      if k == c {
        LastIsUnique(h, name, a, b);
      } else {
        DoneByGrows(h, k, a, b);
        assert Torn(h, c, k, name, a, b);
      }
    }
  }

  /** Attempt j had written its key at the later moment but not its chain at the earlier one, where the
      chain was still that of attempt i. */
  ghost predicate Torn(h: seq<Attempt>, i: nat, j: nat, name: string, a: Moment, b: Moment) {
    i < j && LastToWrite(h, i, 2, name, a) && LastToWrite(h, j, 1, name, b) && DoneBy(h, j, a) < 2
  }

  lemma LastIsUnique(h: seq<Attempt>, name: string, a: Moment, b: Moment)
    ensures forall w: nat, i: nat, j: nat | LastToWrite(h, i, w, name, a) && LastToWrite(h, j, w, name, a) :: i == j
    ensures forall w: nat, i: nat, j: nat | LastToWrite(h, i, w, name, b) && LastToWrite(h, j, w, name, b) :: i == j
  {
  }

  /** Once a Save has written its chain and before the next begins, every Load returns its pair: a
      completed Save puts right whatever was there before. */
  lemma SaveHeals(h: seq<Attempt>, i: nat, a: Moment, b: Moment)
    requires Genuine(h) && Real(h, a) && Real(h, b) && NotAfter(a, b)
    requires i < |h| && DoneBy(h, i, a) >= 2 && forall j | i < j < |h| && h[j].name == h[i].name :: DoneBy(h, j, b) < 1
    ensures LoadSpec(At(h, a), At(h, b), h[i].name) == Ok((h[i].chain, h[i].key))
  {
    var name := h[i].name;
    var k0, c := DiskAt(h, a, name);
    var k, c1 := DiskAt(h, b, name);
    DoneByGrows(h, i, a, b);
    forall j | i < j < |h| && h[j].name == name ensures DoneBy(h, j, a) < 1 { DoneByGrows(h, j, a, b); }
    assert LastToWrite(h, i, 2, name, a) && LastToWrite(h, i, 1, name, b);
    LastIsUnique(h, name, a, b);
  }

  /** A Save that stops after its key leaves a name that had a certificate without a usable one, though
      its metadata is still listed. */
  lemma StoppedAfterKey(h: seq<Attempt>, i: nat, j: nat)
    requires Genuine(h) && i < j < |h| && h[i].name == h[j].name && h[i].done == 3 && h[j].done == 1
    requires forall n | i < n < |h| && n != j :: h[n].name != h[i].name
    ensures var d := At(h, Moment(|h|, 0));
            LoadSpec(d, d, h[i].name) == Err(Unusable) && h[i].name in d.metas
  {
    var name, end := h[i].name, Moment(|h|, 0);
    assert LastToWrite(h, i, 2, name, end) && LastToWrite(h, j, 1, name, end);
    assert Torn(h, i, j, name, end, end);
    LoadExactly(h, end, end, name);
    MetaStays(h, i, |h|);
  }

  lemma {:induction false} MetaStays(h: seq<Attempt>, i: nat, n: nat)
    requires i < n <= |h| && h[i].done >= 3
    ensures h[i].name in Over(h, n).metas
  {
    if n > i + 1 { MetaStays(h, i, n - 1); }
  }
}
