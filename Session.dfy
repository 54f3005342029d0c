/** The rename session: the loaded file list, the undo history, and the file
    system `apply_rename` and `undo_rename` act on. */
module Session {
  import opened Text
  import opened Normaliser

  /** A file path as `(directory, base name)`. */
  datatype FilePath = FilePath(dir: string, name: string)

  /** What a file holds; the session only ever moves it. */
  type Content = string

  type FileSystem = map<FilePath, Content>

  /** One entry of `rename_history`. */
  datatype Record = Record(oldPath: FilePath, newPath: FilePath)

  /** `os.rename(src, dst)`: it fails when `src` does not exist, or when `dst`
      exists and the platform refuses to replace it (`overwrites` false);
      otherwise the content moves from `src` to `dst` and every other path
      keeps what it had. */
  function Rename(fs: FileSystem, src: FilePath, dst: FilePath, overwrites: bool): (r: Option<FileSystem>)
    ensures r.Some? <==> src in fs && (dst !in fs || overwrites)
    ensures r.Some? ==> dst in r.value && r.value[dst] == fs[src]
    ensures r.Some? && src != dst ==> src !in r.value
    ensures r.Some? ==> forall p :: p != src && p != dst ==> (p in r.value <==> p in fs)
    ensures r.Some? ==> forall p :: p != src && p != dst && p in fs ==> r.value[p] == fs[p]
  {
    if src !in fs || (dst in fs && !overwrites) then None
    else Some((fs - {src})[dst := fs[src]])
  }

  /** The rule that turns a base name into the name it is renamed to. */
  type NameRule = string -> string

  /** `clean_name` under the options `cfg`. */
  function Cleaning(cfg: Config): NameRule {
    n => CleanName(n, cfg)
  }

  /** Where `apply_rename` sends a file: the same folder, the new name. */
  function Target(f: FilePath, clean: NameRule): FilePath {
    FilePath(f.dir, clean(f.name))
  }

  /** The records a run over `files` logs when no rename fails: one per file
      whose target differs from its path, in list order. */
  function Planned(files: seq<FilePath>, clean: NameRule): (r: seq<Record>)
    ensures |r| <= |files|
    ensures forall k :: 0 <= k < |r| ==>
      r[k].oldPath in files && r[k].newPath == Target(r[k].oldPath, clean) && r[k].newPath != r[k].oldPath
      && r[k].newPath.dir == r[k].oldPath.dir
  {
    if files == [] then []
    else
      var f := files[0];
      var t := Target(f, clean);
      (if t != f then [Record(f, t)] else []) + Planned(files[1..], clean)
  }

  /** What a loop leaves behind: the file system, the records it logged (in
      the order it logged them), and whether it ran to the end rather than
      stopping at an exception from `os.rename`. */
  datatype Outcome = Outcome(fs: FileSystem, log: seq<Record>, completed: bool)

  /** `log` followed by what `o` logged. */
  function Combine(log: seq<Record>, o: Outcome): Outcome {
    Outcome(o.fs, log + o.log, o.completed)
  }

  /** The loop of `apply_rename` over `files`: each file whose target differs
      is renamed and then logged; the first rename that fails ends the loop,
      keeping what was logged before it. At most one record is logged per
      file, and each is for a loaded file that moves to its cleaned name in
      the same folder. */
  function ApplyFrom(fs: FileSystem, files: seq<FilePath>, clean: NameRule, overwrites: bool): (o: Outcome)
    ensures |o.log| <= |files|
    ensures forall k :: 0 <= k < |o.log| ==>
      o.log[k].oldPath in files && o.log[k].newPath == Target(o.log[k].oldPath, clean)
      && o.log[k].newPath != o.log[k].oldPath
    decreases |files|
  {
    if files == [] then Outcome(fs, [], true)
    else
      var f := files[0];
      var t := Target(f, clean);
      if t == f then ApplyFrom(fs, files[1..], clean, overwrites)
      else
        match Rename(fs, f, t, overwrites)
        case None => Outcome(fs, [], false)
        case Some(fs1) => Combine([Record(f, t)], ApplyFrom(fs1, files[1..], clean, overwrites))
  }

  lemma CombineAssoc(a: seq<Record>, b: seq<Record>, o: Outcome)
    ensures Combine(a, Combine(b, o)) == Combine(a + b, o)
  {
    assert a + (b + o.log) == (a + b) + o.log;
  }

  /** One turn of the `apply_rename` loop, at index `i` of `files`. */
  lemma ApplyStep(fs: FileSystem, files: seq<FilePath>, i: nat, clean: NameRule, overwrites: bool)
    requires i < |files|
    ensures var f, t := files[i], Target(files[i], clean);
      ApplyFrom(fs, files[i..], clean, overwrites) ==
        if t == f then ApplyFrom(fs, files[i + 1..], clean, overwrites)
        else match Rename(fs, f, t, overwrites)
          case None => Outcome(fs, [], false)
          case Some(fs1) => Combine([Record(f, t)], ApplyFrom(fs1, files[i + 1..], clean, overwrites))
  {
    assert files[i..][0] == files[i] && files[i..][1..] == files[i + 1..];
  }

  /** The renames of `log` carried out one after another, or None if one fails. */
  function Replay(fs: FileSystem, log: seq<Record>, overwrites: bool): Option<FileSystem>
    decreases |log|
  {
    if log == [] then Some(fs)
    else
      match Rename(fs, log[0].oldPath, log[0].newPath, overwrites)
      case None => None
      case Some(fs1) => Replay(fs1, log[1..], overwrites)
  }

  /** `apply_rename` follows the plan up to the first failing rename: what it
      logs is a prefix of the planned records, all of them exactly when it
      completes; when it stops, the next planned rename fails on the file
      system it left; and the logged renames, carried out in order, give that
      file system, so nothing is logged that did not happen. */
  lemma ApplyFollowsPlan(fs: FileSystem, files: seq<FilePath>, clean: NameRule, overwrites: bool)
    ensures var o, p := ApplyFrom(fs, files, clean, overwrites), Planned(files, clean);
      o.log <= p && (o.completed <==> |o.log| == |p|)
      && (!o.completed ==> Rename(o.fs, p[|o.log|].oldPath, p[|o.log|].newPath, overwrites).None?)
      && Replay(fs, o.log, overwrites) == Some(o.fs)
  {
    ApplyLogsPlanPrefix(fs, files, clean, overwrites);
    ApplyStopsAtFailure(fs, files, clean, overwrites);
    ApplyReplays(fs, files, clean, overwrites);
  }

  lemma ConsPrefix<T>(x: T, a: seq<T>, b: seq<T>)
    requires a <= b
    ensures [x] + a <= [x] + b
  {
    assert forall k :: 1 <= k <= |a| ==> ([x] + a)[k] == ([x] + b)[k];
  }

  lemma {:induction false} ApplyLogsPlanPrefix(fs: FileSystem, files: seq<FilePath>, clean: NameRule, overwrites: bool)
    ensures var o, p := ApplyFrom(fs, files, clean, overwrites), Planned(files, clean);
      o.log <= p && (o.completed <==> |o.log| == |p|)
    decreases |files|
  {
    if files != [] {
      var f := files[0];
      var t := Target(f, clean);
      if t == f {
        assert Planned(files, clean) == [] + Planned(files[1..], clean) == Planned(files[1..], clean);
        assert ApplyFrom(fs, files, clean, overwrites) == ApplyFrom(fs, files[1..], clean, overwrites);
        ApplyLogsPlanPrefix(fs, files[1..], clean, overwrites);
      } else {
        var p := Planned(files[1..], clean);
        assert Planned(files, clean) == [Record(f, t)] + p;
        match Rename(fs, f, t, overwrites)
        case None =>
          assert ApplyFrom(fs, files, clean, overwrites) == Outcome(fs, [], false);
        case Some(fs1) =>
          var o := ApplyFrom(fs1, files[1..], clean, overwrites);
          assert ApplyFrom(fs, files, clean, overwrites) == Outcome(o.fs, [Record(f, t)] + o.log, o.completed);
          ApplyLogsPlanPrefix(fs1, files[1..], clean, overwrites);
          ConsPrefix(Record(f, t), o.log, p);
      }
    }
  }

  /** Logging one more record in front keeps "a stop means the next planned
      rename fails" true of the plan with that record in front. */
  lemma StopAfterRecord(r: Record, o: Outcome, p: seq<Record>, overwrites: bool)
    requires !o.completed ==> |o.log| < |p| && Rename(o.fs, p[|o.log|].oldPath, p[|o.log|].newPath, overwrites).None?
    ensures var o1, p1 := Combine([r], o), [r] + p;
      !o1.completed ==> |o1.log| < |p1| && Rename(o1.fs, p1[|o1.log|].oldPath, p1[|o1.log|].newPath, overwrites).None?
  {
    if !o.completed {
      assert ([r] + p)[|o.log| + 1] == p[|o.log|];
    }
  }

  lemma {:induction false} ApplyStopsAtFailure(fs: FileSystem, files: seq<FilePath>, clean: NameRule, overwrites: bool)
    ensures var o, p := ApplyFrom(fs, files, clean, overwrites), Planned(files, clean);
      !o.completed ==> |o.log| < |p| && Rename(o.fs, p[|o.log|].oldPath, p[|o.log|].newPath, overwrites).None?
    decreases |files|
  {
    if files != [] {
      var f := files[0];
      var t := Target(f, clean);
      if t == f {
        assert Planned(files, clean) == [] + Planned(files[1..], clean) == Planned(files[1..], clean);
        assert ApplyFrom(fs, files, clean, overwrites) == ApplyFrom(fs, files[1..], clean, overwrites);
        ApplyStopsAtFailure(fs, files[1..], clean, overwrites);
      } else {
        var p := Planned(files[1..], clean);
        assert Planned(files, clean) == [Record(f, t)] + p;
        match Rename(fs, f, t, overwrites)
        case None =>
          assert ApplyFrom(fs, files, clean, overwrites) == Outcome(fs, [], false);
        case Some(fs1) =>
          var o := ApplyFrom(fs1, files[1..], clean, overwrites);
          assert ApplyFrom(fs, files, clean, overwrites) == Combine([Record(f, t)], o);
          ApplyStopsAtFailure(fs1, files[1..], clean, overwrites);
          StopAfterRecord(Record(f, t), o, p, overwrites);
      }
    }
  }

  lemma {:induction false} ApplyReplays(fs: FileSystem, files: seq<FilePath>, clean: NameRule, overwrites: bool)
    ensures var o := ApplyFrom(fs, files, clean, overwrites);
      Replay(fs, o.log, overwrites) == Some(o.fs)
    decreases |files|
  {
    if files != [] {
      var f := files[0];
      var t := Target(f, clean);
      if t == f {
        assert ApplyFrom(fs, files, clean, overwrites) == ApplyFrom(fs, files[1..], clean, overwrites);
        ApplyReplays(fs, files[1..], clean, overwrites);
      } else {
        match Rename(fs, f, t, overwrites)
        case None =>
        case Some(fs1) =>
          var o := ApplyFrom(fs1, files[1..], clean, overwrites);
          assert ApplyFrom(fs, files, clean, overwrites) == Outcome(o.fs, [Record(f, t)] + o.log, o.completed);
          ApplyReplays(fs1, files[1..], clean, overwrites);
          assert ([Record(f, t)] + o.log)[1..] == o.log;
      }
    }
  }

  /** The loop of `undo_rename` over `reversed(history)`: from the last record
      back, a record whose new path is gone is skipped; otherwise the file is
      renamed back, and a failing rename ends the loop. The log lists the
      records undone, in the order they were undone: each is a record of the
      history, and none is undone twice or invented. */
  function UndoFrom(fs: FileSystem, history: seq<Record>, overwrites: bool): (u: Outcome)
    ensures |u.log| <= |history|
    ensures forall k :: 0 <= k < |u.log| ==> u.log[k] in history
    decreases |history|
  {
    if history == [] then Outcome(fs, [], true)
    else
      var r := history[|history| - 1];
      var earlier := history[..|history| - 1];
      if r.newPath !in fs then UndoFrom(fs, earlier, overwrites)
      else
        match Rename(fs, r.newPath, r.oldPath, overwrites)
        case None => Outcome(fs, [], false)
        case Some(fs1) => Combine([r], UndoFrom(fs1, earlier, overwrites))
  }

  /** One turn of the `undo_rename` loop, at record `i - 1` of `history`. */
  lemma UndoStep(fs: FileSystem, history: seq<Record>, i: nat, overwrites: bool)
    requires 0 < i <= |history|
    ensures var r := history[i - 1];
      UndoFrom(fs, history[..i], overwrites) ==
        if r.newPath !in fs then UndoFrom(fs, history[..i - 1], overwrites)
        else match Rename(fs, r.newPath, r.oldPath, overwrites)
          case None => Outcome(fs, [], false)
          case Some(fs1) => Combine([r], UndoFrom(fs1, history[..i - 1], overwrites))
  {
    assert history[..i][i - 1] == history[i - 1] && history[..i][..i - 1] == history[..i - 1];
  }

  /** `s` back to front. */
  function Reversed<T>(s: seq<T>): (r: seq<T>)
    ensures |r| == |s|
  {
    if s == [] then [] else [s[|s| - 1]] + Reversed(s[..|s| - 1])
  }

  lemma {:induction false} ReversedCons<T>(x: T, s: seq<T>)
    ensures Reversed([x] + s) == Reversed(s) + [x]
    decreases |s|
  {
    if s != [] {
      var t := [x] + s;
      assert t[..|t| - 1] == [x] + s[..|s| - 1];
      ReversedCons(x, s[..|s| - 1]);
    }
  }

  /** Undoing `a + b` undoes `b` first and then, unless that stopped, `a`. */
  lemma {:induction false} UndoSplit(fs: FileSystem, a: seq<Record>, b: seq<Record>, overwrites: bool)
    ensures UndoFrom(fs, a + b, overwrites) ==
      var u := UndoFrom(fs, b, overwrites);
      if u.completed then Combine(u.log, UndoFrom(u.fs, a, overwrites)) else u
    decreases |b|
  {
    if b == [] {
      assert a + b == a;
      assert [] + UndoFrom(fs, a, overwrites).log == UndoFrom(fs, a, overwrites).log;
    } else {
      var h := a + b;
      var r := b[|b| - 1];
      var earlier := b[..|b| - 1];
      assert h[|h| - 1] == r && h[..|h| - 1] == a + earlier;
      if r.newPath !in fs {
        UndoSplit(fs, a, earlier, overwrites);
      } else {
        match Rename(fs, r.newPath, r.oldPath, overwrites)
        case None =>
        case Some(fs1) =>
          UndoSplit(fs1, a, earlier, overwrites);
          var u := UndoFrom(fs1, earlier, overwrites);
          if u.completed {
            CombineAssoc([r], u.log, UndoFrom(u.fs, a, overwrites));
          }
      }
    }
  }

  /** A record whose new path is gone when its turn comes is skipped: it is
      not undone, the file system is left as it is, and the walk goes on
      with the records before it. */
  lemma UndoSkipsMissing(fs: FileSystem, a: seq<Record>, r: Record, b: seq<Record>, overwrites: bool)
    ensures var u := UndoFrom(fs, b, overwrites);
      u.completed && r.newPath !in u.fs ==>
        UndoFrom(fs, a + [r] + b, overwrites) == Combine(u.log, UndoFrom(u.fs, a, overwrites))
  {
    var u := UndoFrom(fs, b, overwrites);
    UndoSplit(fs, a + [r], b, overwrites);
    var h := a + [r];
    assert h[|h| - 1] == r && h[..|h| - 1] == a;
  }

  /** When no record's new path exists any more (every renamed file was
      deleted or moved away since), undo renames nothing, undoes nothing,
      raises nothing, and completes. */
  lemma {:induction false} UndoAllMissing(fs: FileSystem, history: seq<Record>, overwrites: bool)
    requires forall k :: 0 <= k < |history| ==> history[k].newPath !in fs
    ensures UndoFrom(fs, history, overwrites) == Outcome(fs, [], true)
    decreases |history|
  {
    if history != [] {
      var earlier := history[..|history| - 1];
      assert forall k :: 0 <= k < |earlier| ==> earlier[k] == history[k];
      UndoAllMissing(fs, earlier, overwrites);
    }
  }

  /** The file is renamed by `apply_rename`. */
  predicate Moves(f: FilePath, clean: NameRule) {
    Target(f, clean) != f
  }

  /** A file moved to a path that was free moves straight back. */
  lemma RenameBack(fs: FileSystem, f: FilePath, t: FilePath, overwrites: bool)
    requires f in fs && t !in fs
    ensures Rename(fs, f, t, overwrites).Some?
    ensures UndoFrom(Rename(fs, f, t, overwrites).value, [Record(f, t)], overwrites) == Outcome(fs, [Record(f, t)], true)
  {
    var fs1 := Rename(fs, f, t, overwrites).value;
    var fs2 := Rename(fs1, t, f, overwrites).value;
    assert fs2 == fs;
    assert [Record(f, t)][..0] == [];
  }

  /** After the first file has moved, the rest of the list is still undoable. */
  lemma UndoableAfterFirst(fs: FileSystem, files: seq<FilePath>, clean: NameRule, overwrites: bool)
    requires Undoable(fs, files, clean) && files != [] && Moves(files[0], clean)
    ensures Rename(fs, files[0], Target(files[0], clean), overwrites).Some?
    ensures Undoable(Rename(fs, files[0], Target(files[0], clean), overwrites).value, files[1..], clean)
  {
    var f, t, rest := files[0], Target(files[0], clean), files[1..];
    assert f == files[0];
    var fs1 := Rename(fs, f, t, overwrites).value;
    forall i | 0 <= i < |rest| ensures rest[i] in fs1 {
      assert rest[i] == files[i + 1] && files[0] != files[i + 1];
    }
    forall i | 0 <= i < |rest| && Moves(rest[i], clean) ensures Target(rest[i], clean) !in fs1 {
      assert rest[i] == files[i + 1];
      assert Target(files[0], clean) != Target(files[i + 1], clean);
    }
    forall i, j | 0 <= i < j < |rest| ensures rest[i] != rest[j] {
      assert rest[i] == files[i + 1] && rest[j] == files[j + 1];
    }
    forall i, j | 0 <= i < j < |rest| && Moves(rest[i], clean) && Moves(rest[j], clean)
      ensures Target(rest[i], clean) != Target(rest[j], clean)
    {
      assert rest[i] == files[i + 1] && rest[j] == files[j + 1];
    }
  }

  /** Apply followed by undo, as long as the loaded files are distinct and
      present and the paths of the files that move are pairwise distinct and
      did not exist before. */
  ghost predicate Undoable(fs: FileSystem, files: seq<FilePath>, clean: NameRule) {
    (forall i, j :: 0 <= i < j < |files| ==> files[i] != files[j])
    && (forall i :: 0 <= i < |files| ==> files[i] in fs)
    && (forall i :: 0 <= i < |files| && Moves(files[i], clean) ==> Target(files[i], clean) !in fs)
    && (forall i, j :: 0 <= i < j < |files| && Moves(files[i], clean) && Moves(files[j], clean) ==>
          Target(files[i], clean) != Target(files[j], clean))
  }

  /** Under those conditions `apply_rename` never stops early, logs every
      planned record, and undoing its history afterwards succeeds, undoes
      every record (the last first) and gives back the original file system. */
  lemma {:induction false} UndoRestores(fs: FileSystem, files: seq<FilePath>, clean: NameRule, overwrites: bool)
    requires Undoable(fs, files, clean)
    ensures var o := ApplyFrom(fs, files, clean, overwrites);
      o.completed && o.log == Planned(files, clean)
      && UndoFrom(o.fs, o.log, overwrites) == Outcome(fs, Reversed(o.log), true)
    decreases |files|
  {
    var o := ApplyFrom(fs, files, clean, overwrites);
    if files == [] {
      return;
    }
    var f := files[0];
    var t := Target(f, clean);
    var rest := files[1..];
    if !Moves(f, clean) {
      assert Undoable(fs, rest, clean) by {
        assert forall i :: 0 <= i < |rest| ==> rest[i] == files[i + 1];
      }
      assert Planned(files, clean) == [] + Planned(rest, clean) == Planned(rest, clean);
      assert o == ApplyFrom(fs, rest, clean, overwrites);
      UndoRestores(fs, rest, clean, overwrites);
      return;
    }
    UndoableAfterFirst(fs, files, clean, overwrites);
    var fs1 := Rename(fs, f, t, overwrites).value;
    UndoRestores(fs1, rest, clean, overwrites);
    var o1 := ApplyFrom(fs1, rest, clean, overwrites);
    var r := Record(f, t);
    assert o == Combine([r], o1);
    assert Planned(files, clean) == [r] + Planned(rest, clean);
    UndoSplit(o.fs, [r], o1.log, overwrites);
    RenameBack(fs, f, t, overwrites);
    ReversedCons(r, o1.log);
  }

  /** A path that did not exist and that no moving file is sent to does not
      exist after `apply_rename` either. */
  lemma {:induction false} ApplyKeepsAbsent(fs: FileSystem, files: seq<FilePath>, clean: NameRule, overwrites: bool, q: FilePath)
    requires q !in fs
    requires forall f :: f in files && Moves(f, clean) ==> Target(f, clean) != q
    ensures q !in ApplyFrom(fs, files, clean, overwrites).fs
    decreases |files|
  {
    if files != [] {
      var f := files[0];
      assert forall g :: g in files[1..] ==> g in files;
      if Moves(f, clean) {
        match Rename(fs, f, Target(f, clean), overwrites)
        case None =>
        case Some(fs1) => ApplyKeepsAbsent(fs1, files[1..], clean, overwrites, q);
      } else {
        ApplyKeepsAbsent(fs, files[1..], clean, overwrites, q);
      }
    }
  }

  /** Under the undo conditions every file `apply_rename` moved is gone from
      its old path afterwards. */
  lemma {:induction false} ApplyVacates(fs: FileSystem, files: seq<FilePath>, clean: NameRule, overwrites: bool)
    requires Undoable(fs, files, clean)
    ensures var o := ApplyFrom(fs, files, clean, overwrites);
      forall k :: 0 <= k < |o.log| ==> o.log[k].oldPath !in o.fs
    decreases |files|
  {
    if files == [] {
      return;
    }
    var f := files[0];
    var rest := files[1..];
    if !Moves(f, clean) {
      assert Undoable(fs, rest, clean) by {
        assert forall i :: 0 <= i < |rest| ==> rest[i] == files[i + 1];
      }
      ApplyVacates(fs, rest, clean, overwrites);
      assert ApplyFrom(fs, files, clean, overwrites) == ApplyFrom(fs, rest, clean, overwrites);
      return;
    }
    UndoableAfterFirst(fs, files, clean, overwrites);
    var fs1 := Rename(fs, f, Target(f, clean), overwrites).value;
    ApplyVacates(fs1, rest, clean, overwrites);
    forall g | g in rest && Moves(g, clean) ensures Target(g, clean) != f {
      var i :| 0 <= i < |rest| && rest[i] == g;
      assert files[i + 1] == g;
    }
    ApplyKeepsAbsent(fs1, rest, clean, overwrites, f);
  }

  /** `apply_rename` leaves `files` pointing at the old paths, so once a run
      has moved something, running it again raises at the first file it
      tries to move: nothing is logged and nothing changes. */
  lemma ReapplyAborts(fs: FileSystem, files: seq<FilePath>, clean: NameRule, overwrites: bool)
    requires Undoable(fs, files, clean) && Planned(files, clean) != []
    ensures var o := ApplyFrom(fs, files, clean, overwrites);
      ApplyFrom(o.fs, files, clean, overwrites) == Outcome(o.fs, [], false)
  {
    var o := ApplyFrom(fs, files, clean, overwrites);
    UndoRestores(fs, files, clean, overwrites);
    ApplyVacates(fs, files, clean, overwrites);
    ApplyFollowsPlan(o.fs, files, clean, overwrites);
  }

  /** When every file already carries its new name there is nothing to do:
      the file system is untouched and nothing is logged. */
  lemma NothingToRename(fs: FileSystem, files: seq<FilePath>, clean: NameRule, overwrites: bool)
    requires forall f :: f in files ==> Target(f, clean) == f
    ensures ApplyFrom(fs, files, clean, overwrites) == Outcome(fs, [], true)
  {
    PlannedOnlyMoves(files, clean);
    ApplyFollowsPlan(fs, files, clean, overwrites);
  }

  /** The plan is empty exactly when no file's name would change. */
  lemma {:induction false} PlannedOnlyMoves(files: seq<FilePath>, clean: NameRule)
    ensures Planned(files, clean) == [] <==> forall f :: f in files ==> Target(f, clean) == f
  {
    if files != [] {
      PlannedOnlyMoves(files[1..], clean);
      assert forall f :: f in files ==> f == files[0] || f in files[1..];
    }
  }

  // ---------------------------------------------------------------------
  // The session object
  // ---------------------------------------------------------------------

  /** The window's `files` and `rename_history`, with the file system they
      refer to and the platform's choice about replacing an existing file. */
  class RenameSession {
    var files: seq<FilePath>
    var history: seq<Record>
    var fs: FileSystem
    const overwrites: bool

    /** A session over loaded files with an empty history. */
    constructor (loaded: seq<FilePath>, disk: FileSystem, posix: bool)
      ensures files == loaded && history == [] && fs == disk && overwrites == posix
    {
      files := loaded;
      history := [];
      fs := disk;
      overwrites := posix;
    }

    /** `apply_rename`: the history is emptied, then every loaded file is
        renamed to its cleaned name in list order and logged after its rename
        succeeds; an exception from `os.rename` (`completed` false) stops the
        loop and keeps what was logged. The file list itself is not updated. */
    method ApplyRename(cfg: Config) returns (completed: bool)
      modifies this
      ensures var o := ApplyFrom(old(fs), old(files), Cleaning(cfg), overwrites);
        fs == o.fs && history == o.log && completed == o.completed
      ensures files == old(files)
    {
      completed := RenameAll(Cleaning(cfg));
    }

    /** The loop of `apply_rename` for any naming rule. */
    method RenameAll(clean: NameRule) returns (completed: bool)
      modifies this
      ensures var o := ApplyFrom(old(fs), old(files), clean, overwrites);
        fs == o.fs && history == o.log && completed == o.completed
      ensures files == old(files)
    {
      ghost var o := ApplyFrom(fs, files, clean, overwrites);
      var cur: FileSystem, log: seq<Record> := fs, [];
      var done := true;
      var i := 0;
      assert files[0..] == files;
      while i < |files|
        invariant i <= |files| && done
        invariant files == old(files) && fs == old(fs)
        invariant o == Combine(log, ApplyFrom(cur, files[i..], clean, overwrites))
      {
        var f := files[i];
        var t := Target(f, clean);
        ApplyStep(cur, files, i, clean, overwrites);
        if t != f {
          var moved := Rename(cur, f, t, overwrites);
          if moved.None? {
            done := false;
            break;
          }
          CombineAssoc(log, [Record(f, t)], ApplyFrom(moved.value, files[i + 1..], clean, overwrites));
          cur := moved.value;
          log := log + [Record(f, t)];
        }
        i := i + 1;
      }
      assert log + [] == log;
      assert o == Outcome(cur, log, done);
      fs, history := cur, log;
      completed := done;
    }

    /** `undo_rename`: the records are undone from the last back, skipping
        those whose new path no longer exists; the history is cleared after the
        loop, so only when no `os.rename` raised (`completed`). */
    method UndoRename() returns (completed: bool)
      modifies this
      ensures var u := UndoFrom(old(fs), old(history), overwrites);
        fs == u.fs && completed == u.completed
      ensures history == if completed then [] else old(history)
      ensures files == old(files)
    {
      ghost var undone: seq<Record> := [];
      var i := |history|;
      assert history[..i] == history;
      while i > 0
        invariant i <= |history| && history == old(history) && files == old(files)
        invariant UndoFrom(old(fs), history, overwrites)
          == Combine(undone, UndoFrom(fs, history[..i], overwrites))
      {
        var r := history[i - 1];
        UndoStep(fs, history, i, overwrites);
        if r.newPath in fs {
          var moved := Rename(fs, r.newPath, r.oldPath, overwrites);
          if moved.None? {
            return false;
          }
          CombineAssoc(undone, [r], UndoFrom(moved.value, history[..i - 1], overwrites));
          fs := moved.value;
          undone := undone + [r];
        }
        i := i - 1;
      }
      history := [];
      completed := true;
    }

    /** The Delete key: the selected rows are deleted from the file list from
        the highest index down, so each deletion leaves the indices still to
        be deleted in place; what remains is the unselected files in order. */
    method DeleteRows(rows: set<nat>)
      requires forall r :: r in rows ==> r < |files|
      modifies this
      ensures files == Unselected(old(files), rows, 0)
      ensures history == old(history) && fs == old(fs)
    {
      ghost var deleted: set<nat> := {};
      var list, pending := files, rows;
      UnselectedAgree(list, {}, {}, 0);
      UnselectedPrefix(list, {}, 0, |list|);
      while pending != {}
        invariant pending <= rows && deleted == rows - pending
        invariant forall p, d :: p in pending && d in deleted ==> p < d
        invariant list == Unselected(files, deleted, 0)
        invariant files == old(files) && history == old(history) && fs == old(fs)
        decreases pending
      {
        HasMaximum(pending);
        var r :| r in pending && forall x :: x in pending ==> x <= r;
        DeleteStep(files, deleted, r);
        list := list[..r] + list[r + 1..];
        pending := pending - {r};
        deleted := deleted + {r};
      }
      assert deleted == rows;
      files := list;
    }
  }

  // ---------------------------------------------------------------------
  // Row deletion
  // ---------------------------------------------------------------------

  /** The entries of `s[i..]` whose index is not in `rows`, in order. */
  function Unselected<T>(s: seq<T>, rows: set<nat>, i: nat): (r: seq<T>)
    requires i <= |s|
    ensures |r| <= |s| - i
    decreases |s| - i
  {
    if i == |s| then []
    else (if i in rows then [] else [s[i]]) + Unselected(s, rows, i + 1)
  }

  lemma HasMaximum(s: set<nat>)
    requires s != {}
    ensures exists m :: m in s && forall x :: x in s ==> x <= m
  {
    var y :| y in s;
    var rest := s - {y};
    assert forall x :: x in s ==> x == y || x in rest;
    if rest == {} {
      assert y in s && forall x :: x in s ==> x <= y;
    } else {
      HasMaximum(rest);
      var m :| m in rest && forall x :: x in rest ==> x <= m;
      var top := if y > m then y else m;
      assert top in s && forall x :: x in s ==> x <= top;
    }
  }

  /** Below the first deleted index nothing is dropped. */
  lemma {:induction false} UnselectedPrefix<T>(s: seq<T>, rows: set<nat>, i: nat, j: nat)
    requires i <= j <= |s|
    requires forall k :: k in rows ==> k >= j
    ensures Unselected(s, rows, i) == s[i..j] + Unselected(s, rows, j)
    decreases j - i
  {
    if i < j {
      assert i !in rows;
      assert Unselected(s, rows, i) == [s[i]] + Unselected(s, rows, i + 1);
      UnselectedPrefix(s, rows, i + 1, j);
      assert s[i..j] == [s[i]] + s[i + 1..j];
      assert [s[i]] + (s[i + 1..j] + Unselected(s, rows, j)) == ([s[i]] + s[i + 1..j]) + Unselected(s, rows, j);
    }
  }

  /** Deleting row `r`, below every row deleted so far, from what is left
      gives what is left once `r` is deleted as well. */
  lemma DeleteStep<T>(s: seq<T>, deleted: set<nat>, r: nat)
    requires r < |s| && r !in deleted
    requires forall d :: d in deleted ==> r < d
    ensures var u := Unselected(s, deleted, 0);
      r < |u| && u[..r] + u[r + 1..] == Unselected(s, deleted + {r}, 0)
  {
    var more := deleted + {r};
    UnselectedPrefix(s, deleted, 0, r);
    UnselectedPrefix(s, more, 0, r);
    UnselectedAgree(s, deleted, more, r + 1);
    var tail := Unselected(s, deleted, r + 1);
    assert Unselected(s, deleted, r) == [s[r]] + tail;
    assert Unselected(s, more, r) == tail;
    var u := Unselected(s, deleted, 0);
    assert u == s[0..r] + ([s[r]] + tail);
    assert u[..r] == s[0..r];
    assert u[r + 1..] == tail;
    assert Unselected(s, more, 0) == s[0..r] + tail;
  }

  /** Only the selected indices from `i` on matter. */
  lemma {:induction false} UnselectedAgree<T>(s: seq<T>, a: set<nat>, b: set<nat>, i: nat)
    requires i <= |s|
    requires forall k :: i <= k < |s| ==> (k in a <==> k in b)
    ensures Unselected(s, a, i) == Unselected(s, b, i)
    decreases |s| - i
  {
    if i < |s| {
      UnselectedAgree(s, a, b, i + 1);
    }
  }

  /** The selected indices at or after `i`. */
  function RowsFrom(rows: set<nat>, i: nat): set<nat> {
    set k | k in rows && k >= i
  }

  /** Deleting the selected rows removes exactly as many files as were
      selected. */
  lemma {:induction false} UnselectedLength<T>(s: seq<T>, rows: set<nat>, i: nat)
    requires i <= |s|
    requires forall r :: r in rows ==> r < |s|
    ensures |Unselected(s, rows, i)| == |s| - i - |RowsFrom(rows, i)|
    decreases |s| - i
  {
    if i == |s| {
      assert RowsFrom(rows, i) == {};
    } else {
      UnselectedLength(s, rows, i + 1);
      if i in rows {
        assert RowsFrom(rows, i) == RowsFrom(rows, i + 1) + {i};
      } else {
        assert RowsFrom(rows, i) == RowsFrom(rows, i + 1);
      }
    }
  }

  /** The whole selection: `|rows|` files go, the rest stay in order. */
  lemma DeletedCount<T>(s: seq<T>, rows: set<nat>)
    requires forall r :: r in rows ==> r < |s|
    ensures |Unselected(s, rows, 0)| == |s| - |rows|
  {
    UnselectedLength(s, rows, 0);
    assert RowsFrom(rows, 0) == rows;
  }
}
