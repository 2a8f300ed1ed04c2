/** Replacing a file as a whole (internal/atomicfile/atomicfile.go). A directory is its files by
    name; what has not been flushed may be anything after a crash. */
module AtomicFile {

  datatype File = File(data: string, mode: bv16, flushed: bool)

  type Names = map<string, File>

  const PRIVATE: bv16 := 0x180

  /** The steps of a write, and where it may stop: at a failing call, or because the host goes down. */
  datatype Step = Create | Chmod | Fill | Flush | Close | Rename

  datatype Fate = Runs | FailsAt(step: Step) | CrashesBefore(step: Step)

  datatype End = Done | Failed | Crashed

  predicate Stops(fate: Fate, step: Step) {
    fate == FailsAt(step) || fate == CrashesBefore(step)
  }

  /** What a crash leaves: every file that was flushed, and something or nothing for the others. */
  ghost predicate AfterCrash(before: Names, after: Names) {
    && (forall n | n in before && before[n].flushed :: n in after && after[n] == before[n])
    && (forall n | n in after :: n in before)
  }

  class Directory {
    var files: Names

    constructor (files: Names)
      ensures this.files == files
    {
      this.files := files;
    }

    /** Gives `name` the data and the mode, or leaves it as it was; `seen` are the states of the
        directory from the call to its end, one after each call to the system, and `partial` is what
        a failing write got onto the disk. */
    method Write(name: string, tmp: string, data: string, perm: bv16, fate: Fate, partial: string)
      returns (end: End, ghost seen: seq<Names>)
      requires tmp != name && tmp !in files
      modifies this
      ensures end == match fate case Runs => Done case FailsAt(_) => Failed case CrashesBefore(_) => Crashed
      ensures end.Done? ==> files == old(files)[name := File(data, perm, true)]
      ensures end.Failed? ==> files == old(files)
      ensures end.Crashed? ==> files - {tmp} == old(files)
      ensures seen != [] && seen[0] == old(files) && seen[|seen| - 1] == files
      ensures forall s | s in seen :: OldOrNew(old(files), s, name, tmp, File(data, perm, true))
      ensures forall s | s in seen :: NoWider(s, tmp, perm)
    {
      ghost var before := files;
      end, seen := Prepare(tmp, data, perm, fate, partial);
      forall s | s in seen ensures OldOrNew(before, s, name, tmp, File(data, perm, true)) {
        BesideTmp(before, s, name, tmp, File(data, perm, true));
      }
      if end.Done? {
        files := files[name := files[tmp]] - {tmp};
        assert files == before[name := File(data, perm, true)];
        seen := seen + [files];
      }
    }

    /** Everything up to the rename touches the temporary file only. */
    method Prepare(tmp: string, data: string, perm: bv16, fate: Fate, partial: string)
      returns (end: End, ghost seen: seq<Names>)
      requires tmp !in files
      modifies this
      ensures end == match fate case Runs => Done case FailsAt(_) => Failed case CrashesBefore(_) => Crashed
      ensures end.Done? ==> files == old(files)[tmp := File(data, perm, true)]
      ensures end.Failed? ==> files == old(files)
      ensures seen != [] && seen[0] == old(files) && seen[|seen| - 1] == files
      ensures forall s | s in seen :: s - {tmp} == old(files) && NoWider(s, tmp, perm)
    {
      seen := [files];
      assert files - {tmp} == files;
      if Stops(fate, Create) { end := Over(fate); return; }
      SetTmp(tmp, "", PRIVATE, false);
      seen := seen + [files];
      if !Stops(fate, Chmod) {
        SetTmp(tmp, "", perm, false);
        seen := seen + [files];
        SetTmp(tmp, if Stops(fate, Fill) then partial else data, perm, false);
        seen := seen + [files];
        if !Stops(fate, Fill) && !Stops(fate, Flush) {
          SetTmp(tmp, data, perm, true);
          seen := seen + [files];
        }
      }
      if fate.Runs? {
        end := Done;
      } else {
        end := CleanUp(fate, tmp);
        seen := seen + [files];
      }
    }

    method SetTmp(tmp: string, data: string, perm: bv16, flushed: bool)
      modifies this
      ensures files == (old(files) - {tmp})[tmp := File(data, perm, flushed)]
      ensures files - {tmp} == old(files) - {tmp}
    {
      files := files[tmp := File(data, perm, flushed)];
      assert files == (old(files) - {tmp})[tmp := File(data, perm, flushed)];
    }

    method Over(fate: Fate) returns (end: End)
      requires !fate.Runs?
      ensures end == if fate.FailsAt? then Failed else Crashed
    {
      end := if fate.FailsAt? then Failed else Crashed;
    }

    /** A failure removes the temporary file; a crash cannot. */
    method CleanUp(fate: Fate, tmp: string) returns (end: End)
      requires !fate.Runs?
      modifies this
      ensures end == if fate.FailsAt? then Failed else Crashed
      ensures files == if fate.FailsAt? then old(files) - {tmp} else old(files)
      ensures files - {tmp} == old(files) - {tmp}
    {
      if fate.FailsAt? { files := files - {tmp}; }
      end := Over(fate);
    }
  }

  predicate Same(before: Names, now: Names, n: string) {
    (n in now <==> n in before) && (n in now ==> now[n] == before[n])
  }

  /** The file is the old one or the new one, the new one flushed to the disk, and nothing else has
      changed but the temporary file. */
  ghost predicate OldOrNew(before: Names, now: Names, name: string, tmp: string, written: File) {
    && (forall n | n != tmp && n != name :: Same(before, now, n))
    && (Same(before, now, name) || (name in now && now[name] == written))
    && written.flushed
  }

  /** As long as it may be read by others than asked for, the temporary file is empty, and its owner's alone. */
  predicate NoWider(now: Names, tmp: string, perm: bv16) {
    tmp in now ==> now[tmp].mode == perm || (now[tmp].mode == 0x180 && now[tmp].data == "")
  }

  lemma BesideTmp(before: Names, now: Names, name: string, tmp: string, written: File)
    requires tmp != name && now - {tmp} == before && written.flushed
    ensures OldOrNew(before, now, name, tmp, written)
  {
    forall n | n != tmp ensures Same(before, now, n) {
      assert n in now <==> n in now - {tmp};
    }
  }

  /** So a reader that opens the file at any moment of a write, or after a crash at any moment of it,
      finds the old file, if there was one, or the complete new one, with exactly the mode asked for; and
      where there was one there is one. */
  lemma NeverPartial(before: Names, seen: seq<Names>, i: nat, after: Names, name: string, tmp: string, written: File)
    requires (name in before ==> before[name].flushed) && i < |seen| && tmp != name
    requires OldOrNew(before, seen[i], name, tmp, written)
    requires AfterCrash(seen[i], after)
    ensures name in seen[i] ==> seen[i][name] == written || (name in before && seen[i][name] == before[name])
    ensures name in after ==> after[name] == written || (name in before && after[name] == before[name])
    ensures name in before ==> name in seen[i] && name in after
    ensures forall n | n in before && n != name && n != tmp && before[n].flushed :: n in after && after[n] == before[n]
  {
    var now := seen[i];
    forall n | n in before && n != name && n != tmp && before[n].flushed ensures n in after && after[n] == before[n] {
      assert Same(before, now, n);
    }
  }
}
