/**
 * The commands that change the filesystem, as methods of one object that
 * holds it; each is proved to leave the filesystem, and to return the
 * result, its specification function describes.
 */
module Shell {
  import opened Common
  import opened Disk
  import Copy
  import Removal

  class FileSystem {
    var nodes: Nodes

    constructor(initial: Nodes)
      ensures nodes == initial
    {
      nodes := initial;
    }

    /** `copy_r`: a directory walk that copies as it goes and stops at the first error. */
    method CopyR(source: Path, destination: Path) returns (r: Result<()>)
      modifies this
      ensures Outcome(nodes, r) == Copy.CopyTree(old(nodes), source, destination)
      decreases Copy.Room(destination), 2
    {
      if IsDir(nodes, source) {
        // The rename case: an existing destination receives the directory under its own name.
        var target := destination;
        if Exists(nodes, destination) {
          var name := FileName(source);
          if name.None? {
            return Err(InvalidInput);
          }
          target := destination + [name.value];
        }
        r := CopyDirectory(source, target);
      } else {
        var to := destination;
        if IsDir(nodes, destination) {
          var name := FileName(source);
          if name.None? {
            return Err(InvalidInput);
          }
          to := destination + [name.value];
        }
        var copied := CopyFile(nodes, source, to);
        if copied.Err? {
          return Err(copied.kind);
        }
        nodes := copied.value;
        r := Ok(());
      }
    }

    /** The directory branch of `copy_r`: create `target`, read `source`, and copy its entries one by one. */
    method CopyDirectory(source: Path, target: Path) returns (r: Result<()>)
      modifies this
      ensures Outcome(nodes, r) == Copy.CopyDirectory(old(nodes), source, target)
      decreases Copy.Room(target), 1
    {
      var created := CreateDirAll(nodes, target);
      if created.Err? {
        return Err(created.kind);
      }
      nodes := created.value;
      var listed := ReadDir(nodes, source);
      if listed.Err? {
        return Err(listed.kind);
      }
      var names := listed.value;
      ghost var start := nodes;
      var i := 0;
      while i < |names|
        invariant 0 <= i <= |names|
        invariant Copy.CopyEntries(start, source, target, names) == Copy.CopyEntries(nodes, source, target, names[i..])
      {
        assert names[i..][1..] == names[i + 1..];
        var entry := source + [names[i]];
        var name := FileName(entry);
        if name.None? {
          return Err(InvalidInput);
        }
        var to := target + [name.value];
        if IsDir(nodes, entry) {
          r := CopyR(entry, to);
          if r.Err? {
            return;
          }
        } else {
          var copied := CopyFile(nodes, entry, to);
          if copied.Err? {
            return Err(copied.kind);
          }
          nodes := copied.value;
        }
        i := i + 1;
      }
      r := Ok(());
    }

    /** `cp`, with `args[0]` the program and `args[1]` the command name. */
    method Cp(args: seq<string>) returns (r: Result<()>)
      requires |args| >= 2
      modifies this
      ensures Outcome(nodes, r) == Copy.Cp(old(nodes), args)
    {
      if |args| == 2 {
        return Err(InvalidInput);
      }
      var recursive := Copy.IsRecursive(args[2]);
      if |args| < (if recursive then 5 else 4) {
        return Err(Panic);
      }
      var source := ToOperand(if recursive then args[3] else args[2]);
      var destination := ToOperand(if recursive then args[4] else args[3]);
      if recursive && OperandIsDir(nodes, source) {
        // The first call of `copy_r`, on the destination as spelled.
        var target := destination.path;
        if OperandExists(nodes, destination) {
          var name := FileName(source.path);
          if name.None? {
            return Err(InvalidInput);
          }
          target := destination.path + [name.value];
        }
        r := CopyDirectory(source.path, target);
        return;
      }
      var to := destination;
      if recursive || OperandIsDir(nodes, destination) {
        var name := FileName(source.path);
        if name.None? {
          return Err(InvalidInput);
        }
        to := Operand(destination.path + [name.value], false, false);
      }
      var copied := CopyOperands(nodes, source, to);
      if copied.Err? {
        return Err(copied.kind);
      }
      nodes := copied.value;
      r := Ok(());
    }

    /** The loop of `rm` without options over `paths`, the arguments after the command name. */
    method RemovePlainFiles(paths: seq<string>) returns (r: Result<()>)
      modifies this
      ensures Outcome(nodes, r) == Removal.RemovePlainFiles(old(nodes), paths)
    {
      var isDirectory := false;
      var i := 0;
      while i < |paths|
        invariant 0 <= i <= |paths|
        invariant Removal.RemoveFrom(old(nodes), paths, false) == Removal.RemoveFrom(nodes, paths[i..], isDirectory)
      {
        assert paths[i..][1..] == paths[i + 1..];
        var path := ToOperand(paths[i]);
        if OperandIsFile(nodes, path) {
          var removed := RemoveFile(nodes, path.path);
          // `remove_file` cannot fail on a plain file here, so its `?` never returns early.
          assert removed.Ok?;
          nodes := removed.value;
        } else {
          isDirectory := true;
        }
        i := i + 1;
      }
      if isDirectory {
        return Err(InvalidData);
      }
      r := Ok(());
    }
  }
}
