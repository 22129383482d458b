/**
 * The filesystem as the copy and remove commands see it: a map from paths to
 * nodes, and the system calls they make (`create_dir_all`, `fs::copy`,
 * `read_dir`, `remove_file`) as functions from one map to the next.
 */
module Disk {
  import opened Common
  import opened Text

  newtype Byte = b: int | 0 <= b < 256

  /**
   * A path as its components. `[]` is the working directory, against which
   * every path of the command line resolves.
   */
  type Path = seq<string>

  /** A regular file and its bytes, or a directory and the names of its entries in enumeration order. */
  datatype Node = File(data: seq<Byte>) | Dir(entries: seq<string>)

  type Nodes = map<Path, Node>

  /** The filesystem after a command, and what the command returned. */
  datatype Outcome = Outcome(fs: Nodes, result: Result<()>)

  /** An atomic system call as a step of a command: on failure nothing changed. */
  function Lift(fs: Nodes, r: Result<Nodes>): (o: Outcome)
    ensures r.Ok? ==> o == Outcome(r.value, Ok(()))
    ensures r.Err? ==> o == Outcome(fs, Err(r.kind))
  {
    match r
    case Ok(next) => Outcome(next, Ok(()))
    case Err(k) => Outcome(fs, Err(k))
  }

  /**
   * The deepest path the operating system resolves: a path name is at most
   * 4096 bytes long (`PATH_MAX`) and every component takes a name byte and a
   * separator. A system call on a deeper path fails with `ENAMETOOLONG`.
   */
  const MaxDepth: nat := 2048

  function Parent(p: Path): Path
    requires p != []
  {
    p[..|p| - 1]
  }

  function Last(p: Path): string
    requires p != []
  {
    p[|p| - 1]
  }

  /** A component as `Path::components` yields it for a normal name. */
  predicate Component(c: string)
  {
    c != "" && c != "." && '/' !in c
  }

  /** The components of `s` after `Path::new`: empty components and `.` ones carry no name. */
  function Components(parts: seq<string>): (p: Path)
    ensures forall i :: 0 <= i < |p| ==> p[i] != "" && p[i] != "."
    ensures forall c :: c in p ==> c in parts
  {
    if parts == [] then []
    else if parts[0] == "" || parts[0] == "." then Components(parts[1..])
    else [parts[0]] + Components(parts[1..])
  }

  /** A command-line path as components. */
  function ToPath(s: string): (p: Path)
    ensures forall i :: 0 <= i < |p| ==> Component(p[i])
  {
    var parts := Split(s, '/');
    var p := Components(parts);
    forall i | 0 <= i < |p|
      ensures '/' !in p[i]
    {
      SplitPieces(s, '/');
      assert p[i] in parts;
    }
    p
  }

  /**
   * A path as the command line spells it: its components, whether it is the
   * empty string, which names nothing, and whether it ends in `/` or `/.`, so
   * that it resolves only to a directory.
   */
  datatype Operand = Operand(path: Path, empty: bool, dirOnly: bool)

  /** A command-line path as `Path::new` keeps it. */
  function ToOperand(s: string): (o: Operand)
    ensures o.path == ToPath(s)
    ensures o.empty <==> s == ""
    ensures o.empty ==> o.path == [] && !o.dirOnly
    ensures s != "" && s[|s| - 1] == '/' ==> o.dirOnly
    ensures s != "" && '/' !in s && s != "." ==> !o.dirOnly && o.path == [s]
  {
    var parts := Split(s, '/');
    assert '/' !in s && s != "" && s != "." ==> parts == [s] && ToPath(s) == [s] by {
      if '/' !in s && s != "" && s != "." {
        SplitWithout(s, '/');
        assert Components([s]) == [s] + Components([]);
      }
    }
    assert s != "" && s[|s| - 1] == '/' ==> Last(parts) == "" by {
      if s != "" && s[|s| - 1] == '/' {
        SplitEndsEmpty(s, '/');
      }
    }
    Operand(ToPath(s), s == "", s != "" && (Last(parts) == "" || Last(parts) == "."))
  }

  /** A string that ends in the separator splits into a last piece that is empty. */
  lemma {:induction false} SplitEndsEmpty(s: string, sep: char)
    requires s != [] && s[|s| - 1] == sep
    ensures Split(s, sep)[|Split(s, sep)| - 1] == ""
  {
    if |s| > 1 {
      SplitEndsEmpty(s[1..], sep);
    }
  }

  /** No piece `Split` cuts out holds the separator. */
  lemma {:induction false} SplitPieces(s: string, sep: char)
    ensures forall piece :: piece in Split(s, sep) ==> sep !in piece
  {
    if s != [] {
      SplitPieces(s[1..], sep);
    }
  }

  /** `Path::file_name`: the last component, unless there is none or it is `..`. */
  function FileName(p: Path): (r: Option<string>)
    ensures r.Some? <==> p != [] && Last(p) != ".."
    ensures r.Some? ==> r.value == Last(p)
  {
    if p == [] || Last(p) == ".." then None else Some(Last(p))
  }

  // ---------------------------------------------------------------------------
  // What the system calls see

  predicate Exists(fs: Nodes, p: Path)
  {
    |p| <= MaxDepth && p in fs
  }

  predicate IsDir(fs: Nodes, p: Path)
  {
    Exists(fs, p) && fs[p].Dir?
  }

  predicate IsFile(fs: Nodes, p: Path)
  {
    Exists(fs, p) && fs[p].File?
  }

  // What the system calls see of a path as the command line spells it.

  /** `Path::exists`: an empty path names nothing, and one ending in `/` only a directory. */
  predicate OperandExists(fs: Nodes, o: Operand)
  {
    !o.empty && Exists(fs, o.path) && (o.dirOnly ==> fs[o.path].Dir?)
  }

  predicate OperandIsDir(fs: Nodes, o: Operand)
  {
    !o.empty && IsDir(fs, o.path)
  }

  predicate OperandIsFile(fs: Nodes, o: Operand)
  {
    !o.empty && !o.dirOnly && IsFile(fs, o.path)
  }

  /** The path spelled plainly: neither empty nor ending in `/`. */
  predicate Plain(o: Operand)
  {
    !o.empty && !o.dirOnly
  }

  /** `a` and `b` agree at `k`: both lack it or both hold the same node. */
  predicate Agree(a: Nodes, b: Nodes, k: Path)
  {
    (k in a <==> k in b) && (k in a ==> a[k] == b[k])
  }

  /** `a` lies on the way to `b`, or is `b`. */
  predicate Prefix(a: Path, b: Path)
  {
    a <= b
  }

  /** One path lies on the way to the other. */
  predicate Comparable(a: Path, b: Path)
  {
    Prefix(a, b) || Prefix(b, a)
  }

  /** Nothing of `a` is gone from `b`, and nothing turned from a file into a directory or back. */
  predicate Extends(a: Nodes, b: Nodes)
  {
    forall k | k in a :: k in b && a[k].Dir? == b[k].Dir?
  }

  /** The parent of every node is a directory. */
  predicate Tidy(fs: Nodes)
  {
    forall k | k in fs && k != [] :: Parent(k) in fs && fs[Parent(k)].Dir?
  }

  /** A new node at `p`, listed last among the entries of its parent. */
  function AddEntry(fs: Nodes, p: Path, node: Node): Nodes
    requires p != [] && Parent(p) in fs && fs[Parent(p)].Dir?
  {
    fs[Parent(p) := Dir(fs[Parent(p)].entries + [Last(p)])][p := node]
  }

  lemma AddEntryEffect(fs: Nodes, p: Path, node: Node)
    requires p != [] && Parent(p) in fs && fs[Parent(p)].Dir? && p !in fs
    ensures var r := AddEntry(fs, p, node);
      p in r && r[p] == node && Extends(fs, r) && (Tidy(fs) ==> Tidy(r)) &&
      forall k :: !Prefix(k, p) ==> Agree(fs, r, k)
  {
    var r := AddEntry(fs, p, node);
    if Tidy(fs) {
      forall k | k in r && k != []
        ensures Parent(k) in r && r[Parent(k)].Dir?
      {
        if k != p {
          assert k in fs;
        }
      }
    }
    forall k | !Prefix(k, p)
      ensures Agree(fs, r, k)
    {
      assert k != Parent(p);
    }
  }

  /**
   * `mkdir`: one new directory whose parent is already a directory. The
   * parent gains the new name as its last entry; nothing off the way changes.
   */
  function MakeDir(fs: Nodes, p: Path): (r: Result<Nodes>)
    ensures r.Ok? <==> |p| <= MaxDepth && p !in fs && p != [] && IsDir(fs, Parent(p))
    ensures r.Ok? ==> IsDir(r.value, p) && Extends(fs, r.value) && (Tidy(fs) ==> Tidy(r.value))
    ensures r.Ok? ==> forall k :: !Prefix(k, p) ==> Agree(fs, r.value, k)
  {
    if |p| > MaxDepth then Err(NameTooLong)
    else if p in fs then Err(AlreadyExists)
    else if p == [] || Parent(p) !in fs then Err(NotFound)
    else if fs[Parent(p)].File? then Err(NotADirectory)
    else
      AddEntryEffect(fs, p, Dir([]));
      Ok(AddEntry(fs, p, Dir([])))
  }

  lemma ExtendsTransitive(a: Nodes, b: Nodes, c: Nodes)
    requires Extends(a, b) && Extends(b, c)
    ensures Extends(a, c)
  {
  }

  /**
   * `create_dir_all`: try `mkdir`; when the parent is missing, create the
   * parent first and try again; an error is no error when the path has
   * become a directory by then.
   */
  function CreateDirAll(fs: Nodes, p: Path): (r: Result<Nodes>)
    ensures r.Ok? ==> |p| <= MaxDepth && (p == [] || IsDir(r.value, p))
    ensures r.Ok? ==> Extends(fs, r.value) && (Tidy(fs) ==> Tidy(r.value))
    ensures r.Ok? ==> forall k :: !Prefix(k, p) ==> Agree(fs, r.value, k)
    decreases |p|
  {
    if p == [] then Ok(fs)
    else match MakeDir(fs, p)
      case Ok(made) => Ok(made)
      case Err(NotFound) =>
        (match CreateDirAll(fs, Parent(p))
         case Err(k) => Err(k)
         case Ok(above) =>
           PrefixOfParent(p);
           match MakeDir(above, p)
           case Ok(made) => Ok(made)
           case Err(k) => if IsDir(above, p) then Ok(above) else Err(k))
      case Err(k) => if IsDir(fs, p) then Ok(fs) else Err(k)
  }

  /** Whatever lies off the way to `p` lies off the way to its parent. */
  lemma PrefixOfParent(p: Path)
    requires p != []
    ensures forall k :: !Prefix(k, p) ==> !Prefix(k, Parent(p))
  {
    forall k | Prefix(k, Parent(p))
      ensures Prefix(k, p)
    {
      assert p[..|k|] == Parent(p)[..|k|];
    }
  }

  /** `fs::copy`: the bytes of the file `from` written to `to`, which is truncated first. */
  function CopyFile(fs: Nodes, from: Path, to: Path): (r: Result<Nodes>)
    ensures r.Ok? ==> IsFile(fs, from) && IsFile(r.value, to)
    ensures r.Ok? && to != from ==> r.value[to] == fs[from]
    ensures r.Ok? && to == from ==> r.value[to] == File([])
    ensures r.Ok? ==> Extends(fs, r.value) && (Tidy(fs) ==> Tidy(r.value))
    ensures r.Ok? ==> forall k :: !Prefix(k, to) ==> Agree(fs, r.value, k)
  {
    if |from| > MaxDepth || |to| > MaxDepth then Err(NameTooLong)
    else if from !in fs then Err(NotFound)
    else if fs[from].Dir? then Err(InvalidInput)
    else if to in fs then
      if fs[to].Dir? then Err(IsADirectory)
      // Copying a file onto itself truncates it before anything is read.
      else if to == from then Ok(fs[to := File([])])
      else Ok(fs[to := fs[from]])
    else if to == [] || Parent(to) !in fs then Err(NotFound)
    else if fs[Parent(to)].File? then Err(NotADirectory)
    else
      AddEntryEffect(fs, to, fs[from]);
      Ok(AddEntry(fs, to, fs[from]))
  }

  /**
   * `fs::copy` between paths as the command line spells them. The source is
   * opened first: an empty path is `NotFound`, and a file spelled with a
   * trailing `/` is `NotADirectory`. Then the destination is created: an
   * empty path is `NotFound`, and one with a trailing `/` is no file to write,
   * `NotADirectory` on a file and `IsADirectory` otherwise, unless its way
   * fails first.
   */
  function CopyOperands(fs: Nodes, from: Operand, to: Operand): (r: Result<Nodes>)
    ensures r.Ok? <==> Plain(from) && Plain(to) && CopyFile(fs, from.path, to.path).Ok?
    ensures r.Ok? ==> r == CopyFile(fs, from.path, to.path)
    ensures from.empty ==> r == Err(NotFound)
    ensures OperandIsFile(fs, from) && to.empty ==> r == Err(NotFound)
    ensures !from.empty && from.dirOnly && IsFile(fs, from.path) ==> r == Err(NotADirectory)
  {
    if from.empty then Err(NotFound)
    else if !IsFile(fs, from.path) then CopyFile(fs, from.path, to.path)
    else if from.dirOnly then Err(NotADirectory)
    else if to.empty then Err(NotFound)
    else if to.dirOnly then
      match CopyFile(fs, from.path, to.path)
      case Err(k) => Err(k)
      case Ok(_) => Err(if IsFile(fs, to.path) then NotADirectory else IsADirectory)
    else CopyFile(fs, from.path, to.path)
  }

  /** `read_dir`: the entry names of a directory. */
  function ReadDir(fs: Nodes, p: Path): (r: Result<seq<string>>)
    ensures r.Ok? <==> IsDir(fs, p)
    ensures r.Ok? ==> r.value == fs[p].entries
  {
    if |p| > MaxDepth then Err(NameTooLong)
    else if p !in fs then Err(NotFound)
    else if fs[p].File? then Err(NotADirectory)
    else Ok(fs[p].entries)
  }

  /** `entries` without any occurrence of `name`. */
  function Without(entries: seq<string>, name: string): (r: seq<string>)
    ensures forall n :: n in r <==> n in entries && n != name
  {
    if entries == [] then []
    else (if entries[0] == name then [] else [entries[0]]) + Without(entries[1..], name)
  }

  /** `remove_file`: the file goes, and so does its name from the entries of its parent. */
  function RemoveFile(fs: Nodes, p: Path): (r: Result<Nodes>)
    ensures r.Ok? <==> IsFile(fs, p)
    ensures r.Ok? ==> p !in r.value && forall k :: k != p ==> (k in fs <==> k in r.value)
    ensures r.Ok? ==> forall k :: k != p && k in fs ==> fs[k].Dir? == r.value[k].Dir?
    ensures r.Ok? ==> forall k :: !Prefix(k, p) ==> Agree(fs, r.value, k)
    ensures r.Ok? ==> forall k | k in r.value && r.value[k].File? :: r.value[k] == fs[k]
    ensures r.Ok? ==> forall k, n | k in r.value && r.value[k].Dir? ::
      n in r.value[k].entries <==> n in fs[k].entries && k + [n] != p
  {
    if |p| > MaxDepth then Err(NameTooLong)
    else if p !in fs then Err(NotFound)
    else if fs[p].Dir? then Err(IsADirectory)
    else if p != [] && Parent(p) in fs && fs[Parent(p)].Dir? then
      Ok((fs - {p})[Parent(p) := Dir(Without(fs[Parent(p)].entries, Last(p)))])
    else Ok(fs - {p})
  }
}
