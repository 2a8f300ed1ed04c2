/** The agent CA on disk: a key and a certificate, written in that order and never again
    (internal/agentca/agentca.go:57-177). */
module RootCA {
  import opened GoStrings

  /** A root is told by its key; the certificate carries the key it was made for. */
  datatype Files = Files(cert: Option<nat>, key: Option<nat>)

  datatype CAError = NoRoot | NoKey | AlreadyThere | Stopped

  /** Open does not compare the key with the certificate. */
  function OpenSpec(f: Files): Result<(nat, nat), CAError> {
    if f.cert.None? then Err(NoRoot) else if f.key.None? then Err(NoKey) else Ok((f.cert.value, f.key.value))
  }

  /** The first `done` of the two writes reach the disk. */
  function CreateSpec(f: Files, newKey: nat, done: nat): (Files, Result<(nat, nat), CAError>) {
    if f.key.Some? then (f, Err(AlreadyThere))
    else
      (Files(if done >= 2 then Some(newKey) else f.cert, if done >= 1 then Some(newKey) else f.key),
       if done >= 2 then Ok((newKey, newKey)) else Err(Stopped))
  }

  function OpenOrCreateSpec(f: Files, newKey: nat, done: nat): (Files, Result<(nat, nat), CAError>) {
    var r := OpenSpec(f);
    if r == Err(NoRoot) then CreateSpec(f, newKey, done) else (f, r)
  }

  class Directory {
    var cert: Option<nat>
    var key: Option<nat>

    constructor ()
      ensures Value() == Files(None, None)
    {
      cert, key := None, None;
    }

    function Value(): Files
      reads this
    {
      Files(cert, key)
    }

    method Open() returns (r: Result<(nat, nat), CAError>)
      ensures r == OpenSpec(Value())
    {
      if cert.None? { return Err(NoRoot); }
      if key.None? { return Err(NoKey); }
      r := Ok((cert.value, key.value));
    }

    method Create(newKey: nat, done: nat) returns (r: Result<(nat, nat), CAError>)
      modifies this
      ensures (Value(), r) == CreateSpec(old(Value()), newKey, done)
    {
      if key.Some? { return Err(AlreadyThere); }
      if done < 1 { return Err(Stopped); }
      key := Some(newKey);
      if done < 2 { return Err(Stopped); }
      cert := Some(newKey);
      r := Ok((newKey, newKey));
    }

    method OpenOrCreate(newKey: nat, done: nat) returns (r: Result<(nat, nat), CAError>)
      modifies this
      ensures (Value(), r) == OpenOrCreateSpec(old(Value()), newKey, done)
    {
      r := Open();
      if r == Err(NoRoot) { r := Create(newKey, done); }
    }
  }

  /** No start ever touches a key or a certificate that is there, from whatever state; both together are what
      it opens, one alone is an error. */
  lemma NeverReplaced(f: Files, newKey: nat, done: nat)
    requires f.cert.Some? || f.key.Some?
    ensures var (g, r) := OpenOrCreateSpec(f, newKey, done);
            && g == f && (r.Ok? <==> f.cert.Some? && f.key.Some?)
            && (r.Ok? ==> r.value == (f.cert.value, f.key.value))
  {
  }

  /** A start of the broker, with the key it would make, and how far the writing would get. */
  datatype Start = Start(newKey: nat, done: nat)

  function Over(h: seq<Start>): Files {
    if h == [] then Files(None, None)
    else OpenOrCreateSpec(Over(h[..|h| - 1]), h[|h| - 1].newKey, h[|h| - 1].done).0
  }

  /** The first start to write anything. */
  predicate FirstToWrite(h: seq<Start>, k: nat) {
    k < |h| && h[k].done >= 1 && forall j | 0 <= j < k :: h[j].done == 0
  }

  /** The first start that writes decides for ever: if it gets to its certificate, every later start opens
      that very root, and no second one is ever made; if it stops after its key, every later start fails,
      though there is no CA. */
  lemma {:induction false} FirstWriteDecides(h: seq<Start>, k: nat, next: Start)
    requires FirstToWrite(h, k)
    ensures Over(h) == Files(if h[k].done >= 2 then Some(h[k].newKey) else None, Some(h[k].newKey))
    ensures OpenOrCreateSpec(Over(h), next.newKey, next.done)
            == (Over(h), if h[k].done >= 2 then Ok((h[k].newKey, h[k].newKey)) else Err(AlreadyThere))
    decreases |h|
  {
    var front := h[..|h| - 1];
    if k < |front| {
      assert FirstToWrite(front, k);
      FirstWriteDecides(front, k, next);
    } else {
      assert forall j | 0 <= j < |front| :: front[j] == h[j];
      NothingYet(front);
    }
  }

  lemma {:induction false} NothingYet(h: seq<Start>)
    requires forall j | 0 <= j < |h| :: h[j].done == 0
    ensures Over(h) == Files(None, None)
    decreases |h|
  {
    if h != [] { NothingYet(h[..|h| - 1]); }
  }
}
