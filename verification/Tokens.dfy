/** Bootstrap tokens and their store (internal/enroll/token.go, internal/enroll/store.go).

    A token is spent by renaming its record out of the pending directory. This module holds the
    records, the checks, and the store as one caller at a time sees it; TokenProtocol interleaves callers. */
module Tokens {
  import opened GoStrings

  const DEFAULT_LIFETIME := 300_000_000_000
  const CLOCK_SKEW := 60_000_000_000

  type Id = string

  /** An injective hash: two secrets with one hash are one secret. */
  datatype Hash = Sha256(preimage: string)

  datatype Record = Record(
    id: Id,
    secretHash: Hash,
    agentName: string,
    domains: seq<string>,
    caFingerprint: string,
    notBefore: int,
    notAfter: int,
    issuedAt: int,
    redeemedAt: Option<int>,
    redeemedBy: string)
  {
    predicate Spent() { redeemedAt.Some? }
  }

  datatype Error = UnknownToken | WrongCA | NotYetValid | Expired | NoAgentName | NoFingerprint | UnsafeId | IoError

  /** What a caller presents, with the broker's own fingerprint and clock. */
  datatype Request = Request(id: Id, secret: string, caFingerprint: string, caller: string, now: int)

  /** The arguments of NewToken; id and secret are its random strings. */
  datatype Order = Order(agentName: string, domains: seq<string>, caFingerprint: string, lifetime: int, now: int,
                         id: Id, secret: string)

  function NewRecord(o: Order): Result<Record, Error> {
    if o.agentName == "" then Err(NoAgentName)
    else if o.caFingerprint == "" then Err(NoFingerprint)
    else
      var lifetime := if o.lifetime <= 0 then DEFAULT_LIFETIME else o.lifetime;
      Ok(Record(o.id, Sha256(o.secret), o.agentName, o.domains, o.caFingerprint,
                o.now - CLOCK_SKEW, o.now + lifetime, o.now, None, ""))
  }

  // ---------- the "id.secret" form ----------

  function TokenString(id: Id, secret: string): string {
    id + "." + secret
  }

  function ParseToken(text: string): Option<(Id, string)> {
    var cut := Cut(TrimSpace(text), '.');
    if cut.None? || cut.value.0 == "" || cut.value.1 == "" then None else cut
  }

  /** A token is read back as it was printed whenever its id holds no dot and nothing at its ends is trimmed. */
  lemma TokenRoundTrip(id: Id, secret: string)
    requires id != "" && secret != "" && '.' !in id
    requires !IsSpace(id[0]) && !IsSpace(secret[|secret| - 1])
    ensures ParseToken(TokenString(id, secret)) == Some((id, secret))
  {
    var s := TokenString(id, secret);
    TrimSpaceNothingToTrim(s);
    CutAtFirst(id, '.', secret);
  }

  /** A text is read as an id and a secret exactly if, white space around it aside, it is the two with a dot in
      between, neither empty and the first dot there the one. */
  lemma ParseTokenExactly(text: string, id: Id, secret: string)
    ensures ParseToken(text) == Some((id, secret))
            <==> TrimSpace(text) == id + "." + secret && '.' !in id && id != "" && secret != ""
  {
    hide TrimSpace;
    CutParts(TrimSpace(text), '.');
    if '.' !in id { CutAtFirst(id, '.', secret); }
  }

  // ---------- Verify ----------

  function Verify(rec: Record, q: Request): Result<(), Error> {
    if rec.Spent() then Err(UnknownToken)
    else if Sha256(q.secret) != rec.secretHash then Err(UnknownToken)
    else if q.caFingerprint != "" && rec.caFingerprint != q.caFingerprint then Err(WrongCA)
    else if q.now < rec.notBefore then Err(NotYetValid)
    else if q.now > rec.notAfter then Err(Expired)
    else Ok(())
  }

  /** The right secret, at the right broker, inside the window. */
  predicate Presents(q: Request, rec: Record) {
    && q.id == rec.id
    && Sha256(q.secret) == rec.secretHash
    && (q.caFingerprint == "" || q.caFingerprint == rec.caFingerprint)
    && rec.notBefore <= q.now <= rec.notAfter
  }

  function Stamp(rec: Record, q: Request): Record {
    rec.(redeemedAt := Some(q.now), redeemedBy := q.caller)
  }

  predicate SafeIdChar(c: char) {
    'A' <= c <= 'Z' || 'a' <= c <= 'z' || '0' <= c <= '9' || c == '_' || c == '-'
  }

  predicate SafeId(id: Id) {
    4 <= |id| <= 64 && forall i | 0 <= i < |id| :: SafeIdChar(id[i])
  }

  // ---------- the store on disk ----------

  /** pending/<id>.json, redeemed/<id>.json and redeemed/<id>.json.claiming. */
  datatype Files = Files(pending: map<Id, Record>, redeemed: map<Id, Record>, claiming: map<Id, Record>)

  const EMPTY := Files(map[], map[], map[])

  function PutSpec(f: Files, rec: Record): (Files, Result<(), Error>) {
    if !SafeId(rec.id) then (f, Err(UnsafeId)) else (f.(pending := f.pending[rec.id := rec]), Ok(()))
  }

  function GetSpec(f: Files, id: Id): Result<Record, Error> {
    if !SafeId(id) then Err(UnknownToken)
    else if id in f.pending then Ok(f.pending[id])
    else if id in f.redeemed then Ok(f.redeemed[id])
    else Err(UnknownToken)
  }

  /** A redemption nobody interferes with. */
  function RedeemSpec(f: Files, q: Request): (Files, Result<Record, Error>) {
    match GetSpec(f, q.id)
    case Err(e) => (f, Err(e))
    case Ok(rec) =>
      match Verify(rec, q)
      case Err(e) => (f, Err(e))
      case Ok(_) =>
        if q.id !in f.pending then (f, Err(UnknownToken))
        else (Files(f.pending - {q.id}, f.redeemed[q.id := Stamp(rec, q)], f.claiming - {q.id}), Ok(Stamp(rec, q)))
  }

  predicate Stale(rec: Record, cutoff: int) {
    if rec.Spent() then rec.redeemedAt.value < cutoff else rec.notAfter < cutoff
  }

  /** What List reads: a record for every id that has a file. */
  function Listed(f: Files): map<Id, Record> {
    map id | id in f.pending.Keys + f.redeemed.Keys && SafeId(id) :: GetSpec(f, id).value
  }

  function StaleIn(recs: map<Id, Record>, cutoff: int): set<Id> {
    set id | id in recs && Stale(recs[id], cutoff)
  }

  function StaleIds(f: Files, cutoff: int): set<Id> {
    StaleIn(Listed(f), cutoff)
  }

  function Without(f: Files, ids: set<Id>): Files {
    f.(pending := f.pending - ids, redeemed := f.redeemed - ids)
  }

  function PruneSpec(f: Files, cutoff: int): Files {
    Without(f, StaleIds(f, cutoff))
  }

  /** How many record files there are. */
  function Size(f: Files): nat {
    |f.pending| + |f.redeemed|
  }

  class Store {
    var files: Files

    constructor (f: Files)
      ensures files == f
    {
      files := f;
    }

    method Put(rec: Record) returns (r: Result<(), Error>)
      modifies this
      ensures (files, r) == PutSpec(old(files), rec)
    {
      if !SafeId(rec.id) {
        return Err(UnsafeId);
      }
      files := files.(pending := files.pending[rec.id := rec]);
      return Ok(());
    }

    method Get(id: Id) returns (r: Result<Record, Error>)
      ensures r == GetSpec(files, id)
    {
      if !SafeId(id) {
        return Err(UnknownToken);
      }
      if id in files.pending {
        return Ok(files.pending[id]);
      }
      if id in files.redeemed {
        return Ok(files.redeemed[id]);
      }
      return Err(UnknownToken);
    }

    method Redeem(q: Request) returns (r: Result<Record, Error>)
      modifies this
      ensures (files, r) == RedeemSpec(old(files), q)
    {
      var got := Get(q.id);
      if got.Err? {
        return got;
      }
      var rec := got.value;
      var ok := Verify(rec, q);
      if ok.Err? {
        return Err(ok.error);
      }
      // The rename, which only one caller can win.
      if q.id !in files.pending {
        return Err(UnknownToken);
      }
      files := files.(pending := files.pending - {q.id}, claiming := files.claiming[q.id := files.pending[q.id]]);
      rec := Stamp(rec, q);
      files := files.(redeemed := files.redeemed[q.id := rec]);
      files := files.(claiming := files.claiming - {q.id});
      assert files.claiming == old(files).claiming - {q.id};
      return Ok(rec);
    }

    /** Prune: List first, then delete. */
    method Prune(cutoff: int) returns (removed: nat)
      modifies this
      ensures files == PruneSpec(old(files), cutoff)
      ensures removed == Size(old(files)) - Size(files)
    {
      var recs := Listed(files);
      removed := RemoveStale(recs, cutoff);
    }

    /** Every listed record is looked at once; each of its files that is removed counts. */
    method RemoveStale(recs: map<Id, Record>, cutoff: int) returns (removed: nat)
      modifies this
      ensures files == Without(old(files), StaleIn(recs, cutoff))
      ensures removed == Size(old(files)) - Size(files)
    {
      hide Stale, StaleIn, StaleAmong, Without, Size;
      var todo := recs.Keys;
      ghost var done: set<Id> := {};
      removed := 0;
      WithoutNothing(files);
      AllOrNoneDone(recs, cutoff);
      while todo != {}
        invariant todo <= recs.Keys && done == recs.Keys - todo
        invariant files == Without(old(files), StaleAmong(recs, done, cutoff))
        invariant removed == Size(old(files)) - Size(files)
        decreases todo
      {
        var id :| id in todo;
        StaleStep(recs, done, id, cutoff);
        WithoutMore(old(files), StaleAmong(recs, done, cutoff), if Stale(recs[id], cutoff) then {id} else {});
        var n := RemoveIfStale(recs[id], id, cutoff);
        removed := removed + n;
        todo, done := todo - {id}, done + {id};
      }
      assert done == recs.Keys;
    }

    method RemoveIfStale(rec: Record, id: Id, cutoff: int) returns (removed: nat)
      modifies this
      ensures files == Without(old(files), if Stale(rec, cutoff) then {id} else {})
      ensures removed == Size(old(files)) - Size(files)
    {
      removed := 0;
      WithoutNothing(files);
      if Stale(rec, cutoff) { removed := RemoveBoth(id); }
    }

    /** os.Remove on both paths: a file that is not there is not removed. */
    method RemoveBoth(id: Id) returns (removed: nat)
      modifies this
      ensures files == Without(old(files), {id})
      ensures removed == Size(old(files)) - Size(files)
    {
      RemoveOne(files.pending, id);
      RemoveOne(files.redeemed, id);
      removed := (if id in files.pending then 1 else 0) + (if id in files.redeemed then 1 else 0);
      files := files.(pending := files.pending - {id}, redeemed := files.redeemed - {id});
    }
  }

  lemma RemoveOne(m: map<Id, Record>, id: Id)
    ensures |m - {id}| == |m| - (if id in m then 1 else 0)
  {
    assert (m - {id}).Keys == m.Keys - {id};
    assert |m.Keys| == |m| && |(m - {id}).Keys| == |m - {id}|;
  }

  function StaleAmong(recs: map<Id, Record>, done: set<Id>, cutoff: int): set<Id> {
    set id | id in done && id in recs && Stale(recs[id], cutoff)
  }

  lemma AllOrNoneDone(recs: map<Id, Record>, cutoff: int)
    ensures StaleAmong(recs, {}, cutoff) == {} && StaleAmong(recs, recs.Keys, cutoff) == StaleIn(recs, cutoff)
  {
  }

  lemma StaleStep(recs: map<Id, Record>, done: set<Id>, id: Id, cutoff: int)
    requires id in recs
    ensures StaleAmong(recs, done + {id}, cutoff)
            == StaleAmong(recs, done, cutoff) + if Stale(recs[id], cutoff) then {id} else {}
  {
  }

  lemma WithoutNothing(f: Files)
    ensures Without(f, {}) == f
  {
    assert f.pending - {} == f.pending && f.redeemed - {} == f.redeemed;
  }

  lemma WithoutMore(f: Files, gone: set<Id>, more: set<Id>)
    ensures Without(f, gone + more) == Without(Without(f, gone), more)
  {
    assert f.pending - (gone + more) == f.pending - gone - more;
    assert f.redeemed - (gone + more) == f.redeemed - gone - more;
  }

  /** What redeeming alone promises: success exactly for the right presenter of a pending, unspent record;
      after it the record is filed as redeemed by this caller at this time, and the same token is unknown to
      everybody. Other tokens are not touched, and a refusal touches nothing. */
  lemma RedeemAlone(f: Files, q: Request)
    requires q.id in f.pending ==> f.pending[q.id].id == q.id
    requires q.id in f.redeemed ==> f.redeemed[q.id].Spent()
    ensures var (f', r) := RedeemSpec(f, q);
            && (r.Ok? <==> SafeId(q.id) && q.id in f.pending && !f.pending[q.id].Spent() && Presents(q, f.pending[q.id]))
            && (r.Ok? ==> && r.value.redeemedAt == Some(q.now) && r.value.redeemedBy == q.caller
                          && r.value.agentName == f.pending[q.id].agentName
                          && r.value.domains == f.pending[q.id].domains
                          && q.id in f'.redeemed && f'.redeemed[q.id] == r.value && q.id !in f'.pending)
            && (r.Ok? ==> forall q2: Request :: q2.id == q.id ==> RedeemSpec(f', q2) == (f', Err(UnknownToken)))
            && (forall id | id != q.id :: SameToken(f, f', id))
            && (r.Err? ==> f' == f)
  {
  }

  predicate SameToken(f: Files, g: Files, id: Id) {
    && (id in f.pending <==> id in g.pending) && (id in f.pending ==> f.pending[id] == g.pending[id])
    && (id in f.redeemed <==> id in g.redeemed) && (id in f.redeemed ==> f.redeemed[id] == g.redeemed[id])
  }

  /** Four to 64 letters, digits, underscores and hyphens make an id. */
  lemma SafeIdExactly(id: Id)
    ensures SafeId(id) <==> 4 <= |id| <= 64 && forall i | 0 <= i < |id| ::
                              'A' <= id[i] <= 'Z' || 'a' <= id[i] <= 'z' || '0' <= id[i] <= '9' || id[i] in "_-"
  {
  }

  /** A token that has just been issued is redeemed by who presents its id and secret to the broker it was
      issued for, from one minute before it was issued until its lifetime is over, five minutes if none was
      given; and by nobody else and at no other time. */
  lemma IssuedIsRedeemable(f: Files, o: Order, q: Request)
    requires SafeId(o.id) && q.id == o.id && o.agentName != "" && o.caFingerprint != ""
    ensures NewRecord(o).Ok?
    ensures var r := RedeemSpec(PutSpec(f, NewRecord(o).value).0, q).1;
            && (r.Ok? <==> && q.secret == o.secret && (q.caFingerprint == "" || q.caFingerprint == o.caFingerprint)
                           && o.now - 60_000_000_000 <= q.now
                           && q.now <= o.now + if o.lifetime > 0 then o.lifetime else 300_000_000_000)
            && (r.Ok? ==> r.value.agentName == o.agentName && r.value.domains == o.domains)
  {
  }

  // ---------- what Prune keeps ----------

  /** A token is pruned, from both directories, exactly if its record is spent and was redeemed before the
      cutoff, or is not and ended before it; the pending record decides if there are two. Nothing else in
      the store changes. */
  lemma PruneExactly(f: Files, cutoff: int, id: Id)
    ensures var g := PruneSpec(f, cutoff);
            && g.claiming == f.claiming
            && (id in g.pending ==> id in f.pending && g.pending[id] == f.pending[id])
            && (id in g.redeemed ==> id in f.redeemed && g.redeemed[id] == f.redeemed[id])
            && (!SafeId(id) ==> SameToken(f, g, id))
            && (SafeId(id) && id in f.pending && f.pending[id].redeemedAt.None? ==>
                  (id in g.pending <==> f.pending[id].notAfter >= cutoff))
            && (SafeId(id) && id in f.pending && f.pending[id].redeemedAt.Some? ==>
                  (id in g.pending <==> f.pending[id].redeemedAt.value >= cutoff))
            && (SafeId(id) && id !in f.pending && id in f.redeemed && f.redeemed[id].redeemedAt.Some? ==>
                  (id in g.redeemed <==> f.redeemed[id].redeemedAt.value >= cutoff))
            && (SafeId(id) && id !in f.pending && id in f.redeemed && f.redeemed[id].redeemedAt.None? ==>
                  (id in g.redeemed <==> f.redeemed[id].notAfter >= cutoff))
            && (id in f.pending && id in f.redeemed ==> (id in g.pending <==> id in g.redeemed))
  {
  }

  /** Whatever could be redeemed at the cutoff or later can be redeemed after pruning, with the same answer. */
  lemma PruneKeepsRedeemable(f: Files, cutoff: int, q: Request)
    requires cutoff <= q.now && RedeemSpec(f, q).1.Ok?
    ensures RedeemSpec(PruneSpec(f, cutoff), q).1 == RedeemSpec(f, q).1
  {
    PruneExactly(f, cutoff, q.id);
    hide PruneSpec;
  }

  /** A clock error is only ever told to a caller with the right secret at the right broker. */
  lemma VerifyOrder(rec: Record, q: Request)
    ensures Verify(rec, q) == Err(Expired) || Verify(rec, q) == Err(NotYetValid)
            ==> !rec.Spent() && Sha256(q.secret) == rec.secretHash
                && (q.caFingerprint == "" || q.caFingerprint == rec.caFingerprint)
    ensures Verify(rec, q).Ok? && q.id == rec.id <==> !rec.Spent() && Presents(q, rec)
  {
  }
}
