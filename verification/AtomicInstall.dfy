/**
 Replacing a deployed file or directory: stage a copy, move the old one aside, move the copy
 in, and move the old one back if that fails.

 `Trace` lists the directory after every effect of one install, so a crash is a prefix of it.
 */
module AtomicInstall {
  /** What is found under a name: nothing, all of some content, or part of a copy. */
  datatype Item<+T> = Missing | Whole(content: T) | Partial

  datatype Dir<+T> = Dir(target: Item<T>, staged: Item<T>, backup: Item<T>)

  /** Which commands succeed. A failing copy stops halfway; renames and removals that fail do
      nothing. `remove` stands for both clean-ups. */
  datatype Io = Io(copy: bool, mode: bool, moveAside: bool, moveIn: bool, moveBack: bool, remove: bool)

  /** The staged and backup names carry a unique suffix and are unused. */
  predicate Fresh<T>(d: Dir<T>) {
    d.staged.Missing? && d.backup.Missing?
  }

  function Cleaned<T>(d: Dir<T>, io: Io, staged: bool): seq<Dir<T>> {
    if !io.remove then []
    else if staged then [d.(staged := Partial), d.(staged := Missing)]
    else [d.(backup := Partial), d.(backup := Missing)]
  }

  function Last<T>(s: seq<T>): T
    requires s != []
  {
    s[|s| - 1]
  }

  /** The directory after each effect and whether the install reports success. Removing a
      directory passes through a half-removed one. */
  function Trace<T>(d: Dir<T>, src: T, io: Io): (seq<Dir<T>>, bool) {
    var d1 := d.(staged := Partial);
    if !io.copy then ([d, d1], false)
    else
      var d2 := d1.(staged := Whole(src));
      if !io.mode then ([d, d1, d2], false)
      else
        var existing := !d.target.Missing?;
        if existing && !io.moveAside then ([d, d1, d2], false)
        else
          var d3 := if existing then d2.(backup := d2.target, target := Missing) else d2;
          if !io.moveIn then
            var d4 := if existing && io.moveBack then d3.(target := d3.backup, backup := Missing) else d3;
            ([d, d1, d2, d3, d4] + Cleaned(d4, io, true), false)
          else
            var d4 := d3.(target := d3.staged, staged := Missing);
            ([d, d1, d2, d3, d4] + (if existing then Cleaned(d4, io, false) else []), true)
  }

  function Installed<T>(d: Dir<T>, src: T, io: Io): Dir<T> {
    Last(Trace(d, src, io).0)
  }

  /** At no moment is there neither the whole old content, under one name or the other, nor the
      whole new content in place. */
  lemma OldOrNewIsAlwaysWhole<T>(d: Dir<T>, before: T, src: T, io: Io, k: nat)
    requires Fresh(d) && d.target == Whole(before) && k < |Trace(d, src, io).0|
    ensures var now := Trace(d, src, io).0[k];
            now.target == Whole(before) || now.backup == Whole(before) || now.target == Whole(src)
  {
  }

  /** The target itself never shows a partial copy. */
  lemma TargetIsNeverPartial<T>(d: Dir<T>, src: T, io: Io, k: nat)
    requires Fresh(d) && !d.target.Partial? && k < |Trace(d, src, io).0|
    ensures var now := Trace(d, src, io).0[k];
            now.target == d.target || now.target == Missing || now.target == Whole(src)
  {
  }

  /** An install succeeds exactly if the copy, its mode, moving aside what is there and moving the
      copy in all work; whether the clean-up does, does not matter. */
  lemma InstallSucceedsIff<T>(d: Dir<T>, src: T, io: Io)
    ensures Trace(d, src, io).1 <==> io.copy && io.mode && io.moveIn && (d.target != Missing ==> io.moveAside)
  {
  }

  /** Every install starts from what was there, and takes no effect before the copy is complete. */
  lemma NothingMovesBeforeTheCopy<T>(d: Dir<T>, src: T, io: Io, k: nat)
    requires Fresh(d) && k < |Trace(d, src, io).0|
    ensures Trace(d, src, io).0[0] == d
    ensures var now := Trace(d, src, io).0[k];
            !(io.copy && io.mode) || k <= 2 ==> now.target == d.target && now.backup == Missing
  {
  }

  /** Success means the new content is in place; failure leaves the target as it was exactly
      unless it had been moved aside and could not be moved back. */
  lemma InstallOutcome<T>(d: Dir<T>, src: T, io: Io)
    requires Fresh(d)
    ensures var d' := Installed(d, src, io);
            if Trace(d, src, io).1 then d'.target == Whole(src)
            else
              && (d'.target == d.target <==>
                   !(io.copy && io.mode && !d.target.Missing? && io.moveAside && !io.moveBack))
              && (d'.target != d.target ==> d'.target == Missing && d'.backup == d.target)
  {
  }

  /** When the staged copy is left behind: on any failure before it is moved in, and on a failed
      move whose clean-up fails too. */
  lemma StagedCopyIsGoneIff<T>(d: Dir<T>, src: T, io: Io)
    requires Fresh(d)
    ensures Installed(d, src, io).staged == Missing <==>
            io.copy && io.mode && (d.target == Missing || io.moveAside) && (io.moveIn || io.remove)
  {
  }

  /** Nothing is left behind under the temporary names after a success whose clean-up worked. */
  lemma SuccessfulInstallIsTidy<T>(d: Dir<T>, src: T, io: Io)
    requires Fresh(d) && Trace(d, src, io).1
    ensures Fresh(Installed(d, src, io)) <==> d.target.Missing? || io.remove
  {
  }

  class Installer<T(==)> {
    var target: Item<T>
    var staged: Item<T>
    var backup: Item<T>

    constructor (d: Dir<T>)
      ensures Names() == d
    {
      target, staged, backup := d.target, d.staged, d.backup;
    }

    function Names(): Dir<T>
      reads this
    {
      Dir(target, staged, backup)
    }

    /** Returns the directories passed through, the last being the final one. */
    method InstallAtomic(src: T, io: Io) returns (ok: bool, ghost passed: seq<Dir<T>>)
      requires Fresh(Names())
      modifies this
      ensures (passed, ok) == Trace(old(Names()), src, io)
      ensures Names() == Installed(old(Names()), src, io)
    {
      ghost var d := Names();
      staged := Partial;
      ghost var d1 := Names();
      passed := [d, d1];
      if !io.copy {
        return false, passed;
      }
      staged := Whole(src);
      ghost var d2 := Names();
      passed := [d, d1, d2];
      if !io.mode {
        return false, passed;
      }
      var hadExisting := !target.Missing?;
      if hadExisting {
        if !io.moveAside {
          return false, passed;
        }
        backup, target := target, Missing;
      }
      ghost var d3 := Names();
      if !io.moveIn {
        if hadExisting && io.moveBack {
          target, backup := backup, Missing;
        }
        passed := [d, d1, d2, d3, Names()];
        assert passed == passed + [];
        if io.remove {
          staged := Partial;
          ghost var half := Names();
          staged := Missing;
          passed := passed + [half, Names()];
        }
        return false, passed;
      }
      target, staged := staged, Missing;
      passed := [d, d1, d2, d3, Names()];
      assert passed == passed + [];
      if hadExisting && io.remove {
        backup := Partial;
        ghost var half := Names();
        backup := Missing;
        passed := passed + [half, Names()];
      }
      return true, passed;
    }
  }
}
