/** The rename walk of Main: Files.walkFileTree over the root with a visitor that
    does nothing on directories, only logs entries it cannot read, and moves every
    other file to its prefixed sibling, with nothing catching the exceptions that
    reading the timestamp or moving can throw. */
module Renamer {
  import opened Wrappers
  import opened Prefix
  import opened Paths

  /** What the walk finds at a path. */
  datatype Entry =
    | Directory
      /** An entry handed to visitFile; lastModified is None when
          Files.getLastModifiedTime throws for it. */
    | File(lastModified: Option<nat>)
      /** An entry whose attributes cannot be read: handed to visitFileFailed. */
    | Inaccessible

  /** The tree below the root, as a map from paths to entries. */
  type FileSystem = map<Path, Entry>

  /** The exception that ends a walk. */
  datatype Failure =
    | LastModifiedUnreadable(file: Path)
      /** Date.from on an instant whose millisecond count does not fit a long. */
    | DateOutOfRange(file: Path)
      /** Files.move without REPLACE_EXISTING onto a path that exists. */
    | TargetExists(file: Path, target: Path)
      /** Any other refusal of the move by the file system. */
    | MoveFailed(file: Path, target: Path)

  /** What the visitor's callback for one entry does: go on with a new state, or throw. */
  datatype Step = Continue(fs: FileSystem) | Abort(failure: Failure)

  datatype Outcome = Completed | Aborted(at: nat, failure: Failure)

  datatype WalkResult = WalkResult(fs: FileSystem, outcome: Outcome)

  /** The largest millisecond count a java.util.Date holds (Long.MAX_VALUE). */
  const MaxEpochMilli: nat := 0x7FFF_FFFF_FFFF_FFFF

  /** The entry at `from` moved to the absent path `to`; nothing else changes. */
  function Move(fs: FileSystem, from: Path, to: Path): (r: FileSystem)
    requires from in fs && to !in fs
    ensures r.Keys == fs.Keys - {from} + {to}
    ensures r[to] == fs[from] && forall p :: p in fs && p != from ==> r[p] == fs[p]
  {
    (fs - {from})[to := fs[from]]
  }

  /** visitFile: read the last-modified time, move the file to its prefixed
      sibling; `refused` holds the files whose move the file system rejects
      for a reason other than an existing target. */
  function Rename(fs: FileSystem, file: Path, refused: set<Path>): Step
    requires file in fs && fs[file].File?
  {
    match fs[file].lastModified
    case None => Abort(LastModifiedUnreadable(file))
    case Some(millis) =>
      var target := Target(file, millis);
      if millis > MaxEpochMilli then Abort(DateOutOfRange(file))
      else if target in fs then Abort(TargetExists(file, target))
      else if file in refused then Abort(MoveFailed(file, target))
      else Continue(Move(fs, file, target))
  }

  /** The callback walkFileTree makes for one enumerated path: preVisitDirectory
      and postVisitDirectory for a directory, visitFileFailed for an entry it
      cannot read (or that has gone), visitFile for the rest. */
  function Visit(fs: FileSystem, p: Path, refused: set<Path>): Step
  {
    if p in fs && fs[p].File? then Rename(fs, p, refused) else Continue(fs)
  }

  /** The walk over the paths in the order walkFileTree enumerates them: each
      callback in turn, until the first exception. */
  function Walk(fs: FileSystem, order: seq<Path>, refused: set<Path>): WalkResult
    decreases |order|
  {
    if order == [] then WalkResult(fs, Completed)
    else
      var before := Walk(fs, order[..|order| - 1], refused);
      if before.outcome.Aborted? then before
      else match Visit(before.fs, order[|order| - 1], refused)
        case Continue(next) => WalkResult(next, Completed)
        case Abort(failure) => WalkResult(before.fs, Aborted(|order| - 1, failure))
  }

  /** The entries that are not files. */
  function NonFiles(fs: FileSystem): map<Path, Entry>
  {
    map p | p in fs && !fs[p].File? :: fs[p]
  }

  /** One callback leaves every directory and every unreadable entry where it was,
      and the number of entries unchanged. */
  lemma VisitKeepsNonFiles(fs: FileSystem, p: Path, refused: set<Path>)
    requires Visit(fs, p, refused).Continue?
    ensures NonFiles(Visit(fs, p, refused).fs) == NonFiles(fs)
    ensures |Visit(fs, p, refused).fs| == |fs|
  {
    if p in fs && fs[p].File? {
      MoveKeepsNonFiles(fs, p, Target(p, fs[p].lastModified.value));
    }
  }

  /** Moving a file keeps every other entry that is not a file, and the entry count. */
  lemma MoveKeepsNonFiles(fs: FileSystem, from: Path, to: Path)
    requires from in fs && fs[from].File? && to !in fs
    ensures NonFiles(Move(fs, from, to)) == NonFiles(fs)
    ensures |Move(fs, from, to)| == |fs|
  {
    var next := Move(fs, from, to);
    assert NonFiles(next) == NonFiles(fs);
    assert |fs - {from}| == |fs| - 1 by { assert (fs - {from}).Keys == fs.Keys - {from}; }
  }

  /** A walk never renames, moves or drops a directory or an unreadable entry, never
      creates one, and ends with as many entries as it started with. */
  lemma {:induction false} WalkKeepsNonFiles(fs: FileSystem, order: seq<Path>, refused: set<Path>)
    ensures NonFiles(Walk(fs, order, refused).fs) == NonFiles(fs)
    ensures |Walk(fs, order, refused).fs| == |fs|
    decreases |order|
  {
    if order != [] {
      var before := Walk(fs, order[..|order| - 1], refused);
      WalkKeepsNonFiles(fs, order[..|order| - 1], refused);
      if before.outcome.Completed? && Visit(before.fs, order[|order| - 1], refused).Continue? {
        VisitKeepsNonFiles(before.fs, order[|order| - 1], refused);
      }
    }
  }

  /** A walk over directories, unreadable entries and vanished paths only calls
      the callbacks that return CONTINUE: it completes and changes nothing. */
  lemma {:induction false} SkippedEntriesChangeNothing(fs: FileSystem, order: seq<Path>, refused: set<Path>)
    requires forall i :: 0 <= i < |order| ==> !(order[i] in fs && fs[order[i]].File?)
    ensures Walk(fs, order, refused) == WalkResult(fs, Completed)
    decreases |order|
  {
    if order != [] {
      SkippedEntriesChangeNothing(fs, order[..|order| - 1], refused);
    }
  }

  /** Once a walk has thrown, later paths change nothing. */
  lemma {:induction false} AbortIsFinal(fs: FileSystem, done: seq<Path>, later: seq<Path>, refused: set<Path>)
    requires Walk(fs, done, refused).outcome.Aborted?
    ensures Walk(fs, done + later, refused) == Walk(fs, done, refused)
    decreases |later|
  {
    if later == [] {
      assert done + later == done;
    } else {
      var all := done + later;
      assert all[..|all| - 1] == done + later[..|later| - 1];
      AbortIsFinal(fs, done, later[..|later| - 1], refused);
      WalkAfterAbort(fs, all, refused);
    }
  }

  /** One step of Walk after an abort. */
  lemma WalkAfterAbort(fs: FileSystem, order: seq<Path>, refused: set<Path>)
    requires order != [] && Walk(fs, order[..|order| - 1], refused).outcome.Aborted?
    ensures Walk(fs, order, refused) == Walk(fs, order[..|order| - 1], refused)
  {
  }

  /** A walk that completed completed on every prefix of its order. */
  lemma PrefixCompleted(fs: FileSystem, order: seq<Path>, k: nat, refused: set<Path>)
    requires k <= |order| && Walk(fs, order, refused).outcome.Completed?
    ensures Walk(fs, order[..k], refused).outcome.Completed?
  {
    if Walk(fs, order[..k], refused).outcome.Aborted? {
      AbortIsFinal(fs, order[..k], order[k..], refused);
      assert order[..k] + order[k..] == order;
    }
  }

  /** When a walk throws, it stops there: the state is what the paths before
      that position made, and the callback at that position throws the exception. */
  lemma {:induction false} AbortedAtFirstFailure(fs: FileSystem, order: seq<Path>, refused: set<Path>)
    ensures var r := Walk(fs, order, refused);
            r.outcome.Aborted? ==>
              && r.outcome.at < |order|
              && Walk(fs, order[..r.outcome.at], refused) == WalkResult(r.fs, Completed)
              && Visit(r.fs, order[r.outcome.at], refused) == Abort(r.outcome.failure)
    decreases |order|
  {
    if order != [] {
      var n := |order| - 1;
      var init := order[..n];
      var before := Walk(fs, init, refused);
      if before.outcome.Aborted? {
        AbortedAtFirstFailure(fs, init, refused);
        WalkAfterAbort(fs, order, refused);
        var at := before.outcome.at;
        assert init[..at] == order[..at] && init[at] == order[at];
      } else {
        assert order[..n] == init;
      }
    }
  }

  /** The walk completes exactly when no callback throws. */
  lemma CompletesIffNoFailure(fs: FileSystem, order: seq<Path>, refused: set<Path>)
    ensures Walk(fs, order, refused).outcome.Completed? <==>
            forall k :: 0 <= k < |order| ==>
              Walk(fs, order[..k], refused).outcome.Completed? &&
              Visit(Walk(fs, order[..k], refused).fs, order[k], refused).Continue?
  {
    if Walk(fs, order, refused).outcome.Completed? {
      forall k | 0 <= k < |order|
        ensures Walk(fs, order[..k], refused).outcome.Completed?
        ensures Visit(Walk(fs, order[..k], refused).fs, order[k], refused).Continue?
      {
        PrefixCompleted(fs, order, k, refused);
        PrefixCompleted(fs, order, k + 1, refused);
        assert order[..k + 1][..k] == order[..k] && order[..k + 1][k] == order[k];
      }
    } else {
      AbortedAtFirstFailure(fs, order, refused);
    }
  }

  /** A file whose last-modified time can be read, so that it has a target. */
  predicate Movable(fs: FileSystem, p: Path)
  {
    p in fs && fs[p].File? && fs[p].lastModified.Some?
  }

  function TargetOf(fs: FileSystem, p: Path): Path
    requires Movable(fs, p)
  {
    Target(p, fs[p].lastModified.value)
  }

  /** The order lists existing entries, and every file among them can be renamed:
      its timestamp is readable, its move is accepted and its target is a fresh name. */
  predicate Renameable(fs: FileSystem, order: seq<Path>, refused: set<Path>)
  {
    && (forall i :: 0 <= i < |order| ==> order[i] in fs)
    && (forall p :: p in order && p in fs ==> RenameSucceeds(fs, p, refused))
  }

  /** If `p` is a file, its timestamp is readable and within range, its move is
      accepted and its target is a fresh name. */
  predicate RenameSucceeds(fs: FileSystem, p: Path, refused: set<Path>)
    requires p in fs
  {
    fs[p].File? ==>
      (fs[p].lastModified.Some? && fs[p].lastModified.value <= MaxEpochMilli
       && p !in refused && Target(p, fs[p].lastModified.value) !in fs)
  }

  /** Every entry of `fs` that is not a file listed in `done` is still in `s`, unchanged. */
  predicate Kept(fs: FileSystem, done: seq<Path>, s: FileSystem)
  {
    forall q :: q in fs && !(q in done && fs[q].File?) ==> q in s && s[q] == fs[q]
  }

  /** Every file listed in `done` has left its path for its target, with its entry. */
  predicate Moved(fs: FileSystem, done: seq<Path>, s: FileSystem)
  {
    forall p :: p in done && Movable(fs, p) ==>
      p !in s && TargetOf(fs, p) in s && s[TargetOf(fs, p)] == fs[p]
  }

  /** `s` holds nothing but the kept entries and the targets. */
  predicate NothingElse(fs: FileSystem, done: seq<Path>, s: FileSystem)
  {
    forall q :: q in s ==>
      (q in fs && !(q in done && fs[q].File?)) ||
      (exists p :: p in done && Movable(fs, p) && q == TargetOf(fs, p))
  }

  /** `s` is `fs` with the files listed in `done` moved to their targets. */
  predicate RenamedState(fs: FileSystem, done: seq<Path>, s: FileSystem)
  {
    Kept(fs, done, s) && Moved(fs, done, s) && NothingElse(fs, done, s)
  }

  /** The targets of the listed files are fresh names. */
  predicate FreshTargets(fs: FileSystem, done: seq<Path>)
  {
    forall p :: p in done && Movable(fs, p) ==> TargetOf(fs, p) !in fs
  }

  /** One walk over an order that lists existing entries, in which every listed
      file can be renamed, completes; afterwards every listed file is at its
      target (same directory, its timestamp prefix before its name) and holds the
      same entry, and every other entry is where it was. */
  lemma {:induction false} CompletedRunRenamesAll(fs: FileSystem, order: seq<Path>, refused: set<Path>)
    requires Renameable(fs, order, refused)
    ensures Walk(fs, order, refused).outcome == Completed
    ensures RenamedState(fs, order, Walk(fs, order, refused).fs)
    decreases |order|
  {
    if order != [] {
      var done := order[..|order| - 1];
      var p := order[|order| - 1];
      assert order == done + [p];
      RenameableInit(fs, done, p, refused);
      CompletedRunRenamesAll(fs, done, refused);
      var s := Walk(fs, done, refused).fs;
      RenameStep(fs, done, s, p, refused);
      WalkSnoc(fs, done, p, refused);
    }
  }

  /** What a renameable order says about its last path and the paths before it. */
  lemma RenameableInit(fs: FileSystem, done: seq<Path>, p: Path, refused: set<Path>)
    requires Renameable(fs, done + [p], refused)
    ensures Renameable(fs, done, refused) && FreshTargets(fs, done)
    ensures p in fs && RenameSucceeds(fs, p, refused)
  {
    var order := done + [p];
    assert p == order[|done|];
    forall i | 0 <= i < |done| ensures done[i] in fs {
      assert done[i] == order[i];
    }
    forall q | q in done ensures q in order { }
  }

  /** A completed walk extended by one path whose callback returns normally. */
  lemma WalkSnoc(fs: FileSystem, done: seq<Path>, p: Path, refused: set<Path>)
    requires Walk(fs, done, refused).outcome == Completed
    requires Visit(Walk(fs, done, refused).fs, p, refused).Continue?
    ensures Walk(fs, done + [p], refused) == WalkResult(Visit(Walk(fs, done, refused).fs, p, refused).fs, Completed)
  {
    assert (done + [p])[..|done|] == done;
  }

  /** One callback on a listed entry extends the renamed state by that entry. */
  lemma RenameStep(fs: FileSystem, done: seq<Path>, s: FileSystem, p: Path, refused: set<Path>)
    requires RenamedState(fs, done, s) && FreshTargets(fs, done) && p in fs
    requires RenameSucceeds(fs, p, refused)
    ensures Visit(s, p, refused).Continue?
    ensures RenamedState(fs, done + [p], Visit(s, p, refused).fs)
  {
    forall q ensures q in done + [p] <==> q in done || q == p { }
    if p in done && fs[p].File? {
      assert Movable(fs, p);
      assert p !in s;
    } else if !fs[p].File? {
      assert s[p] == fs[p];
    } else {
      RenameFresh(fs, done, s, p, refused);
    }
  }

  /** The callback on a file not yet renamed moves it to its target. */
  lemma RenameFresh(fs: FileSystem, done: seq<Path>, s: FileSystem, p: Path, refused: set<Path>)
    requires RenamedState(fs, done, s) && FreshTargets(fs, done)
    requires Movable(fs, p) && p !in done && RenameSucceeds(fs, p, refused)
    ensures Visit(s, p, refused).Continue?
    ensures RenamedState(fs, done + [p], Visit(s, p, refused).fs)
  {
    assert p in s && s[p] == fs[p];
    TargetStillFree(fs, done, s, p);
    assert Visit(s, p, refused) == Continue(Move(s, p, TargetOf(fs, p)));
    MoveKeeps(fs, done, s, p);
    MoveMoves(fs, done, s, p);
    MoveAddsNothingElse(fs, done, s, p);
  }

  /** The target of a file not yet renamed is taken neither by a kept entry
      nor by the target of an earlier file. */
  lemma TargetStillFree(fs: FileSystem, done: seq<Path>, s: FileSystem, p: Path)
    requires NothingElse(fs, done, s) && Movable(fs, p) && p !in done && TargetOf(fs, p) !in fs
    ensures TargetOf(fs, p) !in s
  {
    var target := TargetOf(fs, p);
    if target in s {
      var p' :| p' in done && Movable(fs, p') && target == TargetOf(fs, p');
      TargetInjective(p, p', fs[p].lastModified.value, fs[p'].lastModified.value);
    }
  }

  lemma MoveKeeps(fs: FileSystem, done: seq<Path>, s: FileSystem, p: Path)
    requires Kept(fs, done, s) && Movable(fs, p) && p in s && TargetOf(fs, p) !in s
    ensures Kept(fs, done + [p], Move(s, p, TargetOf(fs, p)))
  {
    forall q ensures q in done + [p] <==> q in done || q == p { }
  }

  lemma MoveMoves(fs: FileSystem, done: seq<Path>, s: FileSystem, p: Path)
    requires Moved(fs, done, s) && Kept(fs, done, s) && FreshTargets(fs, done)
    requires Movable(fs, p) && p !in done && p in s && TargetOf(fs, p) !in s && TargetOf(fs, p) !in fs
    ensures Moved(fs, done + [p], Move(s, p, TargetOf(fs, p)))
  {
    forall p' | p' in done + [p] && Movable(fs, p')
      ensures var next := Move(s, p, TargetOf(fs, p));
              p' !in next && TargetOf(fs, p') in next && next[TargetOf(fs, p')] == fs[p']
    {
      if p' == p {
        MoveMovesSelf(fs, s, p);
      } else {
        MoveMovesEarlier(fs, s, p, p');
      }
    }
  }

  lemma MoveMovesSelf(fs: FileSystem, s: FileSystem, p: Path)
    requires Movable(fs, p) && p in s && s[p] == fs[p] && TargetOf(fs, p) !in s
    ensures var next := Move(s, p, TargetOf(fs, p));
            p !in next && TargetOf(fs, p) in next && next[TargetOf(fs, p)] == fs[p]
  {
    TargetDiffers(p, fs[p].lastModified.value);
  }

  lemma MoveMovesEarlier(fs: FileSystem, s: FileSystem, p: Path, p': Path)
    requires Movable(fs, p) && p in s && TargetOf(fs, p) !in s && TargetOf(fs, p) !in fs
    requires Movable(fs, p') && p' != p && TargetOf(fs, p') !in fs
    requires p' !in s && TargetOf(fs, p') in s && s[TargetOf(fs, p')] == fs[p']
    ensures var next := Move(s, p, TargetOf(fs, p));
            p' !in next && TargetOf(fs, p') in next && next[TargetOf(fs, p')] == fs[p']
  {
    assert TargetOf(fs, p') != p;
    TargetsDistinct(fs, p, p');
  }

  /** Two different files never have the same target. */
  lemma TargetsDistinct(fs: FileSystem, p: Path, q: Path)
    requires Movable(fs, p) && Movable(fs, q) && p != q
    ensures TargetOf(fs, p) != TargetOf(fs, q)
  {
    if TargetOf(fs, p) == TargetOf(fs, q) {
      TargetInjective(p, q, fs[p].lastModified.value, fs[q].lastModified.value);
    }
  }

  lemma MoveAddsNothingElse(fs: FileSystem, done: seq<Path>, s: FileSystem, p: Path)
    requires NothingElse(fs, done, s) && Movable(fs, p) && p in s && TargetOf(fs, p) !in s
    ensures NothingElse(fs, done + [p], Move(s, p, TargetOf(fs, p)))
  {
    var target := TargetOf(fs, p);
    var next := Move(s, p, target);
    forall q | q in next
      ensures (q in fs && !(q in done + [p] && fs[q].File?)) ||
              (exists p' :: p' in done + [p] && Movable(fs, p') && q == TargetOf(fs, p'))
    {
      if q == target {
        assert p in done + [p];
      } else {
        assert q in s && q != p;
        if !(q in fs && !(q in done && fs[q].File?)) {
          var p' :| p' in done && Movable(fs, p') && q == TargetOf(fs, p');
          assert p' in done + [p];
        }
      }
    }
  }

  /** visitFile throws for p, a file the renames of `done` have not moved, and
      its target (if it has one) was not itself moved away by them. */
  predicate FailsAfter(fs: FileSystem, done: seq<Path>, p: Path, refused: set<Path>)
  {
    && p in fs && fs[p].File? && p !in done
    && Rename(fs, p, refused).Abort?
    && (Movable(fs, p) && TargetOf(fs, p) in fs ==> !(TargetOf(fs, p) in done && fs[TargetOf(fs, p)].File?))
  }

  /** When the paths before p can all be renamed and the callback for p throws,
      the walk stops at p with that exception: every path before p has been
      renamed and nothing after p has been touched. */
  lemma FailureStopsWalk(fs: FileSystem, done: seq<Path>, p: Path, later: seq<Path>, refused: set<Path>)
    requires Renameable(fs, done, refused) && FailsAfter(fs, done, p, refused)
    ensures Walk(fs, done + [p] + later, refused).outcome == Aborted(|done|, Rename(fs, p, refused).failure)
    ensures RenamedState(fs, done, Walk(fs, done + [p] + later, refused).fs)
  {
    CompletedRunRenamesAll(fs, done, refused);
    RenameAgrees(fs, done, Walk(fs, done, refused).fs, p, refused);
    WalkSnocAbort(fs, done, p, refused);
    AbortIsFinal(fs, done + [p], later, refused);
  }

  /** A completed walk extended by one path whose callback throws. */
  lemma WalkSnocAbort(fs: FileSystem, done: seq<Path>, p: Path, refused: set<Path>)
    requires Walk(fs, done, refused).outcome == Completed
    requires Visit(Walk(fs, done, refused).fs, p, refused).Abort?
    ensures Walk(fs, done + [p], refused)
         == WalkResult(Walk(fs, done, refused).fs, Aborted(|done|, Visit(Walk(fs, done, refused).fs, p, refused).failure))
  {
    assert (done + [p])[..|done|] == done;
  }

  /** The renames of `done` do not change what visitFile does for p. */
  lemma RenameAgrees(fs: FileSystem, done: seq<Path>, s: FileSystem, p: Path, refused: set<Path>)
    requires RenamedState(fs, done, s) && FailsAfter(fs, done, p, refused)
    ensures Visit(s, p, refused) == Rename(fs, p, refused)
  {
    assert p in s && s[p] == fs[p];
    if Movable(fs, p) {
      var target := TargetOf(fs, p);
      if target in fs {
        assert target in s;
      } else if target in s {
        var q :| q in done && Movable(fs, q) && target == TargetOf(fs, q);
        TargetsDistinct(fs, p, q);
      }
    }
  }

  /** visitFile does not look for an earlier prefix: a file whose name already
      carries one gets a second one in front of it. */
  lemma RenameStacksPrefix(fs: FileSystem, file: Path, refused: set<Path>, earlier: nat, base: string)
    requires Movable(fs, file) && file.name == UtcPrefix(earlier) + base
    requires fs[file].lastModified.value <= MaxEpochMilli && TargetOf(fs, file) !in fs && file !in refused
    ensures var now := fs[file].lastModified.value;
            var renamed := Path(file.dir, UtcPrefix(now) + (UtcPrefix(earlier) + base));
            Rename(fs, file, refused).Continue? && renamed in Rename(fs, file, refused).fs
            && renamed != file && file !in Rename(fs, file, refused).fs
  {
    TargetStacks(Path(file.dir, base), earlier, fs[file].lastModified.value);
  }

  /** What the process ends with: an exit status, or an exception that leaves main. */
  datatype Exit = ExitStatus(code: int) | Uncaught(failure: Failure)

  const UsageExitStatus: int := 255

  /** The tree the program runs on, changed in place by its moves. */
  class FileTree {
    var entries: FileSystem

    constructor (entries: FileSystem)
      ensures this.entries == entries
    {
      this.entries := entries;
    }

    /** visitFile: reads the last-modified time, then moves the file to its
        prefixed sibling; returns the exception it throws, if any. */
    method VisitFile(file: Path, refused: set<Path>) returns (failure: Option<Failure>)
      requires file in entries && entries[file].File?
      modifies this
      ensures failure.None? ==> Rename(old(entries), file, refused) == Continue(entries)
      ensures failure.Some? ==> Rename(old(entries), file, refused) == Abort(failure.value)
                                && entries == old(entries)
    {
      var lastModified := entries[file].lastModified;
      if lastModified.None? {
        return Some(LastModifiedUnreadable(file));
      }
      if lastModified.value > MaxEpochMilli {
        return Some(DateOutOfRange(file));
      }
      var target := Target(file, lastModified.value);
      if target in entries {
        return Some(TargetExists(file, target));
      }
      if file in refused {
        return Some(MoveFailed(file, target));
      }
      entries := (entries - {file})[target := entries[file]];
      failure := None;
    }

    /** Files.walkFileTree with the visitor of Main, over the paths in the order
        the walk enumerates them; stops at the first exception. */
    method WalkFileTree(order: seq<Path>, refused: set<Path>) returns (outcome: Outcome)
      modifies this
      ensures Walk(old(entries), order, refused) == WalkResult(entries, outcome)
    {
      var i := 0;
      while i < |order|
        invariant 0 <= i <= |order|
        invariant Walk(old(entries), order[..i], refused) == WalkResult(entries, Completed)
      {
        var p := order[i];
        var before := entries;
        assert order[..i + 1] == order[..i] + [p];
        if p in entries && entries[p].File? {
          var failure := VisitFile(p, refused);
          if failure.Some? {
            outcome := Aborted(i, failure.value);
            WalkSnocAbort(old(entries), order[..i], p, refused);
            AbortIsFinal(old(entries), order[..i + 1], order[i + 1..], refused);
            assert order[..i + 1] + order[i + 1..] == order;
            return;
          }
        }
        assert Visit(before, p, refused) == Continue(entries);
        WalkSnoc(old(entries), order[..i], p, refused);
        i := i + 1;
      }
      assert order[..i] == order;
      outcome := Completed;
    }

    /** main: with any number of arguments other than one, exits with status 255
        before touching the tree; otherwise walks and exits with status 0, unless
        the walk throws, in which case the exception leaves main. */
    method Run(args: seq<string>, order: seq<Path>, refused: set<Path>) returns (exit: Exit)
      modifies this
      ensures |args| != 1 ==> exit == ExitStatus(UsageExitStatus) && entries == old(entries)
      ensures |args| == 1 ==>
                var r := Walk(old(entries), order, refused);
                && entries == r.fs
                && exit == (if r.outcome.Completed? then ExitStatus(0) else Uncaught(r.outcome.failure))
    {
      if |args| != 1 {
        return ExitStatus(UsageExitStatus);
      }
      var outcome := WalkFileTree(order, refused);
      if outcome.Aborted? {
        return Uncaught(outcome.failure);
      }
      exit := ExitStatus(0);
    }
  }
}
