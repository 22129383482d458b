/** `rm` without options: remove every plain file named, and fail afterwards if anything else was named. */
module Removal {
  import opened Common
  import opened Disk

  /** The arguments of the command line as operands. */
  function ToOperands(args: seq<string>): (os: seq<Operand>)
    ensures |os| == |args|
    ensures forall i :: 0 <= i < |args| ==> os[i] == ToOperand(args[i])
  {
    if args == [] then [] else [ToOperand(args[0])] + ToOperands(args[1..])
  }

  /**
   * The loop of `rm` over `paths`: a plain file is removed, whose failure
   * ends the loop; anything else (a directory, a missing path, an empty
   * argument, a file spelled with a trailing `/`) sets the `skipped` flag,
   * and a set flag turns the end of the loop into an `InvalidData` error.
   */
  function RemoveFrom(fs: Nodes, paths: seq<string>, skipped: bool): (o: Outcome)
    ensures o.result.Err? ==> o.result.kind == InvalidData
    ensures o.result.Ok? ==> !skipped
    ensures o.fs.Keys <= fs.Keys
  {
    if paths == [] then Outcome(fs, if skipped then Err(InvalidData) else Ok(()))
    else
      var o := ToOperand(paths[0]);
      if OperandIsFile(fs, o) then
        match RemoveFile(fs, o.path)
        case Err(k) => Outcome(fs, Err(k))
        case Ok(next) => RemoveFrom(next, paths[1..], skipped)
      else RemoveFrom(fs, paths[1..], true)
  }

  /**
   * `rm` on `paths`, the arguments after the command name, when the first is
   * no option. Its one error is `InvalidData`, and it never adds a node.
   */
  function RemovePlainFiles(fs: Nodes, paths: seq<string>): (o: Outcome)
    ensures o.result.Err? ==> o.result.kind == InvalidData
    ensures o.fs.Keys <= fs.Keys
  {
    RemoveFrom(fs, paths, false)
  }

  /** Every operand names a file, and none repeats the path of an earlier one. */
  predicate DistinctFiles(fs: Nodes, os: seq<Operand>)
  {
    forall i :: 0 <= i < |os| ==> OperandIsFile(fs, os[i]) && forall j :: 0 <= j < i ==> os[j].path != os[i].path
  }

  /** The paths of the arguments that are neither empty nor end in `/`: the only ones `rm` may remove. */
  function Named(args: seq<string>): set<Path>
  {
    if args == [] then {}
    else (if Plain(ToOperand(args[0])) then {ToOperand(args[0]).path} else {}) + Named(args[1..])
  }

  /** `k` is a file of `fs` that one of `args` names plainly. */
  predicate Removed(fs: Nodes, k: Path, args: seq<string>)
  {
    IsFile(fs, k) && k in Named(args)
  }
}

module RemovalProperties {
  import opened Common
  import opened Disk
  import opened Removal

  /** After removing the file `p`, the files are those there were, less `p`. */
  lemma FilesAfterRemove(fs: Nodes, p: Path, q: Path)
    requires RemoveFile(fs, p).Ok?
    ensures IsFile(RemoveFile(fs, p).value, q) <==> IsFile(fs, q) && q != p
  {
  }

  lemma {:induction false} DistinctFilesStep(fs: Nodes, o: Operand, rest: seq<Operand>)
    requires OperandIsFile(fs, o)
    ensures RemoveFile(fs, o.path).Ok?
    ensures DistinctFiles(fs, [o] + rest) <==> DistinctFiles(RemoveFile(fs, o.path).value, rest)
  {
    var next := RemoveFile(fs, o.path).value;
    var os := [o] + rest;
    forall q
      ensures IsFile(next, q) <==> IsFile(fs, q) && q != o.path
    {
      FilesAfterRemove(fs, o.path, q);
    }
    if DistinctFiles(fs, os) {
      forall i | 0 <= i < |rest|
        ensures OperandIsFile(next, rest[i]) && forall j :: 0 <= j < i ==> rest[j].path != rest[i].path
      {
        assert os[i + 1] == rest[i] && os[0] == o;
        forall j | 0 <= j < i
          ensures rest[j].path != rest[i].path
        {
          assert os[j + 1] == rest[j];
        }
      }
    }
    if DistinctFiles(next, rest) {
      forall i | 0 <= i < |os|
        ensures OperandIsFile(fs, os[i]) && forall j :: 0 <= j < i ==> os[j].path != os[i].path
      {
        if i > 0 {
          assert os[i] == rest[i - 1];
          forall j | 0 <= j < i
            ensures os[j].path != os[i].path
          {
            if j > 0 {
              assert os[j] == rest[j - 1];
            }
          }
        }
      }
    }
  }

  lemma {:induction false} RemoveFromResult(fs: Nodes, paths: seq<string>, skipped: bool)
    ensures RemoveFrom(fs, paths, skipped).result.Ok? <==> !skipped && DistinctFiles(fs, ToOperands(paths))
    decreases |paths|
  {
    if paths != [] {
      var o := ToOperand(paths[0]);
      assert ToOperands(paths) == [o] + ToOperands(paths[1..]);
      if OperandIsFile(fs, o) {
        DistinctFilesStep(fs, o, ToOperands(paths[1..]));
        RemoveFromResult(RemoveFile(fs, o.path).value, paths[1..], skipped);
      } else {
        RemoveFromResult(fs, paths[1..], true);
      }
    }
  }

  /**
   * `rm` without options succeeds exactly when every argument is a plain file
   * at its turn: a file in the filesystem it started from, spelled without a
   * trailing `/`, whose path no earlier argument named. Otherwise it fails
   * with `InvalidData`.
   */
  lemma RemoveSucceedsOnDistinctFiles(fs: Nodes, paths: seq<string>)
    ensures var r := RemovePlainFiles(fs, paths).result;
      (r.Ok? <==> DistinctFiles(fs, ToOperands(paths))) && (r.Err? ==> r.kind == InvalidData)
  {
    RemoveFromResult(fs, paths, false);
  }

  /** Which files count as removed after the first argument is dealt with. */
  lemma RemovedStep(fs: Nodes, next: Nodes, paths: seq<string>, k: Path)
    requires paths != []
    requires var o := ToOperand(paths[0]);
      if OperandIsFile(fs, o) then RemoveFile(fs, o.path) == Ok(next) else next == fs
    ensures Removed(fs, k, paths) <==>
      (OperandIsFile(fs, ToOperand(paths[0])) && k == ToOperand(paths[0]).path) || Removed(next, k, paths[1..])
  {
    var o := ToOperand(paths[0]);
    if OperandIsFile(fs, o) {
      FilesAfterRemove(fs, o.path, k);
    }
  }

  /**
   * `out` is `fs` less the files `paths` names plainly: every other node
   * stays, of the same kind, and a file with the same bytes; a directory
   * loses from its entries exactly the names of the removed files.
   */
  ghost predicate RemovedOnly(fs: Nodes, out: Nodes, paths: seq<string>)
  {
    (forall k :: (k in out <==> k in fs && !Removed(fs, k, paths)) && (k in out ==> out[k].Dir? == fs[k].Dir?)) &&
    (forall k | k in out && out[k].File? :: out[k] == fs[k]) &&
    (forall k, n | k in out && out[k].Dir? ::
      n in out[k].entries <==> n in fs[k].entries && !Removed(fs, k + [n], paths))
  }

  lemma {:induction false} RemoveFromEffect(fs: Nodes, paths: seq<string>, skipped: bool)
    ensures RemovedOnly(fs, RemoveFrom(fs, paths, skipped).fs, paths)
    decreases |paths|
  {
    var out := RemoveFrom(fs, paths, skipped).fs;
    if paths != [] {
      var o := ToOperand(paths[0]);
      var next := if OperandIsFile(fs, o) then RemoveFile(fs, o.path).value else fs;
      RemoveFromEffect(next, paths[1..], if OperandIsFile(fs, o) then skipped else true);
      assert out == RemoveFrom(next, paths[1..], if OperandIsFile(fs, o) then skipped else true).fs;
      forall k
        ensures Removed(fs, k, paths) <==> (OperandIsFile(fs, o) && k == o.path) || Removed(next, k, paths[1..])
      {
        RemovedStep(fs, next, paths, k);
      }
    }
  }

  /**
   * Whatever it returns, `rm` without options removes every file named
   * plainly and keeps every other node, of the same kind and, for a file,
   * with the same bytes; a directory loses from its entries exactly the
   * names of the removed files. A directory named on the command line does
   * not stop the files after it from being removed.
   */
  lemma RemoveEffect(fs: Nodes, paths: seq<string>)
    ensures RemovedOnly(fs, RemovePlainFiles(fs, paths).fs, paths)
  {
    RemoveFromEffect(fs, paths, false);
  }

  /**
   * A file spelled with a trailing `/` is not removed: `remove_file` refuses
   * it as no directory, so the loop skips it and the command fails with
   * `InvalidData`; unless another argument names it plainly, it stays with
   * its bytes.
   */
  lemma TrailingSlashKeepsFile(fs: Nodes, paths: seq<string>, i: nat)
    requires i < |paths| && paths[i] != "" && paths[i][|paths[i]| - 1] == '/'
    ensures RemovePlainFiles(fs, paths).result == Err(InvalidData)
    ensures var p := ToPath(paths[i]); var out := RemovePlainFiles(fs, paths).fs;
      IsFile(fs, p) && p !in Named(paths) ==> p in out && out[p] == fs[p]
  {
    RemoveSucceedsOnDistinctFiles(fs, paths);
    RemoveEffect(fs, paths);
    assert ToOperands(paths)[i].dirOnly;
  }
}
