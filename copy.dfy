/**
 * `copy_r` and the destination rules of `cp`, as functions from the
 * filesystem before the command to the filesystem after it and the result.
 * A failing step leaves in place everything the steps before it did.
 */
module Copy {
  import opened Common
  import opened Text
  import opened Disk

  /** How many more levels a path may grow before the operating system refuses it. */
  function Room(p: Path): nat
  {
    if |p| <= MaxDepth then MaxDepth + 1 - |p| else 0
  }

  /**
   * Where `copy_r` puts a directory: under its own name inside a destination
   * that exists, whatever kind of node it is, and at the destination itself
   * otherwise.
   */
  function DirectoryTarget(fs: Nodes, source: Path, destination: Path): (r: Result<Path>)
    ensures r.Ok? ==> Prefix(destination, r.value)
    ensures r.Ok? && Exists(fs, destination) ==> source != [] && r.value == destination + [Last(source)]
    ensures r.Ok? && !Exists(fs, destination) ==> r.value == destination
    ensures r.Err? <==> Exists(fs, destination) && FileName(source).None?
  {
    if Exists(fs, destination) then
      match FileName(source)
      case None => Err(InvalidInput)
      case Some(name) => Ok(destination + [name])
    else Ok(destination)
  }

  /**
   * Where a file is copied: under its own name inside a destination that is a
   * directory, and onto the destination itself otherwise.
   */
  function FileTarget(fs: Nodes, source: Path, destination: Path): (r: Result<Path>)
    ensures r.Ok? && IsDir(fs, destination) ==> source != [] && r.value == destination + [Last(source)]
    ensures r.Ok? && !IsDir(fs, destination) ==> r.value == destination
    ensures r.Err? <==> IsDir(fs, destination) && FileName(source).None?
  {
    if IsDir(fs, destination) then
      match FileName(source)
      case None => Err(InvalidInput)
      case Some(name) => Ok(destination + [name])
    else Ok(destination)
  }

  /**
   * `copy_r(source, destination)`. A directory source: the target directory
   * is created with its ancestors, the source is read, and its entries are
   * copied into the target. A file source (or a missing one): one `fs::copy`.
   */
  function CopyTree(fs: Nodes, source: Path, destination: Path): (o: Outcome)
    ensures o.result.Ok? ==> IsDir(fs, source) || IsFile(fs, source)
    ensures !IsDir(fs, source) && o.result.Err? ==> o.fs == fs
    decreases Room(destination), 2, 0
  {
    if IsDir(fs, source) then
      match DirectoryTarget(fs, source, destination)
      case Err(k) => Outcome(fs, Err(k))
      case Ok(target) => CopyDirectory(fs, source, target)
    else
      match FileTarget(fs, source, destination)
      case Err(k) => Outcome(fs, Err(k))
      case Ok(to) => Lift(fs, CopyFile(fs, source, to))
  }

  /** The directory branch of `copy_r` once the target is chosen: create it, read the source, copy the entries. */
  function CopyDirectory(fs: Nodes, source: Path, target: Path): Outcome
    decreases Room(target), 1, 0
  {
    match CreateDirAll(fs, target)
    case Err(k) => Outcome(fs, Err(k))
    case Ok(created) =>
      match ReadDir(created, source)
      case Err(k) => Outcome(created, Err(k))
      case Ok(names) => CopyEntries(created, source, target, names)
  }

  /**
   * `copy_r` as `cp -r` calls it: on a directory, and on the destination as
   * the command line spells it. Only this first call sees the spelling: an
   * empty destination does not exist, so the entries land in the working
   * directory, and one ending in `/` exists only as a directory. Every call
   * below it gets a plain `target/<name>`.
   */
  function CopyRoot(fs: Nodes, source: Path, destination: Operand): (o: Outcome)
    requires IsDir(fs, source)
    ensures Plain(destination) || OperandExists(fs, destination) ==> o == CopyTree(fs, source, destination.path)
    ensures !OperandExists(fs, destination) ==> o == CopyDirectory(fs, source, destination.path)
  {
    if OperandExists(fs, destination) then
      match FileName(source)
      case None => Outcome(fs, Err(InvalidInput))
      case Some(name) => CopyDirectory(fs, source, destination.path + [name])
    else CopyDirectory(fs, source, destination.path)
  }

  /**
   * The loop of `copy_r` over the entries `names` of `source`: a directory
   * entry goes through `copy_r` again, with `target/<name>` as its
   * destination; any other entry is copied to `target/<name>`. The first
   * error ends the loop.
   */
  function CopyEntries(fs: Nodes, source: Path, target: Path, names: seq<string>): Outcome
    requires |target| <= MaxDepth
    decreases Room(target), 0, |names|
  {
    if names == [] then Outcome(fs, Ok(()))
    else
      var from := source + [names[0]];
      match FileName(from)
      case None => Outcome(fs, Err(InvalidInput))
      case Some(name) =>
        var to := target + [name];
        var step := if IsDir(fs, from) then CopyTree(fs, from, to) else Lift(fs, CopyFile(fs, from, to));
        if step.result.Err? then step else CopyEntries(step.fs, source, target, names[1..])
  }

  /**
   * The copy the destination rule evidently intends: the rule decides where
   * the top directory goes, and every directory below is copied into exactly
   * `target/<name>`, as `cp -r` does. A file source is copied exactly as
   * `copy_r` copies it.
   */
  function CopyTreeFixed(fs: Nodes, source: Path, destination: Path): (o: Outcome)
    ensures !IsDir(fs, source) ==> o == CopyTree(fs, source, destination)
  {
    if IsDir(fs, source) then
      match DirectoryTarget(fs, source, destination)
      case Err(k) => Outcome(fs, Err(k))
      case Ok(target) => CopyInto(fs, source, target)
    else
      match FileTarget(fs, source, destination)
      case Err(k) => Outcome(fs, Err(k))
      case Ok(to) => Lift(fs, CopyFile(fs, source, to))
  }

  /** The directory `source` copied into the directory `target`, which is created with its ancestors. */
  function CopyInto(fs: Nodes, source: Path, target: Path): Outcome
    decreases Room(target), 1, 0
  {
    match CreateDirAll(fs, target)
    case Err(k) => Outcome(fs, Err(k))
    case Ok(created) =>
      match ReadDir(created, source)
      case Err(k) => Outcome(created, Err(k))
      case Ok(names) => CopyIntoEntries(created, source, target, names)
  }

  function CopyIntoEntries(fs: Nodes, source: Path, target: Path, names: seq<string>): Outcome
    requires |target| <= MaxDepth
    decreases Room(target), 0, |names|
  {
    if names == [] then Outcome(fs, Ok(()))
    else
      var from := source + [names[0]];
      match FileName(from)
      case None => Outcome(fs, Err(InvalidInput))
      case Some(name) =>
        var to := target + [name];
        var step := if IsDir(fs, from) then CopyInto(fs, from, to) else Lift(fs, CopyFile(fs, from, to));
        if step.result.Err? then step else CopyIntoEntries(step.fs, source, target, names[1..])
  }

  predicate IsRecursive(a: string)
  {
    a == "-r" || a == "-R" || a == "--recursive"
  }

  /**
   * `cp`, with `args[0]` the program and `args[1]` the command name, the
   * paths taken as spelled. With `-r` a directory source goes through
   * `copy_r`, and a file source is always copied under its own name into
   * the destination. Without it, the source is copied into or onto the
   * destination. A missing argument is an index out of bounds.
   */
  function Cp(fs: Nodes, args: seq<string>): (o: Outcome)
    requires |args| >= 2
    ensures |args| == 2 ==> o == Outcome(fs, Err(InvalidInput))
    ensures o.result.Err? && !(|args| >= 5 && IsRecursive(args[2]) && OperandIsDir(fs, ToOperand(args[3]))) ==> o.fs == fs
  {
    if |args| == 2 then Outcome(fs, Err(InvalidInput))
    else if IsRecursive(args[2]) then
      if |args| < 5 then Outcome(fs, Err(Panic))
      else
        var source := ToOperand(args[3]);
        var destination := ToOperand(args[4]);
        if OperandIsDir(fs, source) then CopyRoot(fs, source.path, destination)
        else
          match FileName(source.path)
          case None => Outcome(fs, Err(InvalidInput))
          case Some(name) => Lift(fs, CopyOperands(fs, source, Operand(destination.path + [name], false, false)))
    else if |args| < 4 then Outcome(fs, Err(Panic))
    else
      var source := ToOperand(args[2]);
      var destination := ToOperand(args[3]);
      if OperandIsDir(fs, destination) then
        match FileName(source.path)
        case None => Outcome(fs, Err(InvalidInput))
        case Some(name) => Lift(fs, CopyOperands(fs, source, Operand(destination.path + [name], false, false)))
      else Lift(fs, CopyOperands(fs, source, destination))
  }
}

/** What `copy_r` promises: nothing is lost, only the destination changes, the entries land under the target. */
module CopyProperties {
  import opened Common
  import opened Text
  import opened Disk
  import opened Copy

  lemma PrefixesComparable(a: Path, b: Path, c: Path)
    requires Prefix(a, c) && Prefix(b, c)
    ensures Comparable(a, b)
  {
    if |a| <= |b| {
      assert b[..|a|] == c[..|a|];
    } else {
      assert a[..|b|] == c[..|b|];
    }
  }

  /** Two paths off each other's way stay so however each is extended. */
  lemma ApartExtended(x: Path, y: Path, s: Path, t: Path)
    requires !Comparable(x, y)
    ensures !Comparable(x + s, y + t)
  {
    if Prefix(x + s, y + t) {
      PrefixesComparable(x, y, y + t);
    }
    if Prefix(y + t, x + s) {
      PrefixesComparable(x, y, x + s);
    }
  }

  lemma PrefixOfChild(k: Path, t: Path, n: string)
    requires Prefix(k, t + [n])
    ensures Prefix(k, t) || k == t + [n]
  {
    if |k| <= |t| {
      assert k == (t + [n])[..|k|] == t[..|k|];
    }
  }

  // ---------------------------------------------------------------------------
  // Nothing is lost

  /**
   * `copy_r` loses nothing, succeeding or failing: every node that existed is
   * still there and of the same kind, and every parent is still a directory.
   */
  lemma {:induction false} TreeExtends(fs: Nodes, source: Path, destination: Path)
    ensures var out := CopyTree(fs, source, destination).fs;
      Extends(fs, out) && (Tidy(fs) ==> Tidy(out))
    decreases Room(destination), 1, 0
  {
    if IsDir(fs, source) {
      match DirectoryTarget(fs, source, destination)
      case Err(_) =>
      case Ok(target) =>
        match CreateDirAll(fs, target)
        case Err(_) =>
        case Ok(created) =>
          match ReadDir(created, source)
          case Err(_) =>
          case Ok(names) =>
            EntriesExtend(created, source, target, names);
    }
  }

  lemma {:induction false} EntriesExtend(fs: Nodes, source: Path, target: Path, names: seq<string>)
    requires |target| <= MaxDepth
    ensures var out := CopyEntries(fs, source, target, names).fs;
      Extends(fs, out) && (Tidy(fs) ==> Tidy(out))
    decreases Room(target), 0, |names|
  {
    if names != [] {
      var from := source + [names[0]];
      if FileName(from).Some? {
        var to := target + [names[0]];
        var step := if IsDir(fs, from) then CopyTree(fs, from, to) else Lift(fs, CopyFile(fs, from, to));
        if IsDir(fs, from) {
          TreeExtends(fs, from, to);
        }
        if step.result.Ok? {
          EntriesExtend(step.fs, source, target, names[1..]);
        }
      }
    }
  }

  // ---------------------------------------------------------------------------
  // Only the destination changes

  /** Paths `CopyEntries` into `target` does not touch: off the way to `target` and outside every `target/<name>`. */
  predicate Outside(k: Path, target: Path, names: seq<string>)
  {
    !Prefix(k, target) && forall i :: 0 <= i < |names| ==> !Prefix(target + [names[i]], k)
  }

  /** `copy_r` changes nothing off the way to its destination and outside it. */
  lemma {:induction false} TreeFrame(fs: Nodes, source: Path, destination: Path)
    ensures forall k :: !Comparable(k, destination) ==> Agree(fs, CopyTree(fs, source, destination).fs, k)
    decreases Room(destination), 1, 0
  {
    if IsDir(fs, source) {
      match DirectoryTarget(fs, source, destination)
      case Err(_) =>
      case Ok(target) =>
        match CreateDirAll(fs, target)
        case Err(_) =>
        case Ok(created) =>
          match ReadDir(created, source)
          case Err(_) =>
          case Ok(names) =>
            EntriesFrame(created, source, target, names);
            forall k | !Comparable(k, destination)
              ensures Agree(fs, CopyTree(fs, source, destination).fs, k)
            {
              if Prefix(k, target) {
                PrefixesComparable(k, destination, target);
              }
              assert Outside(k, target, names);
            }
    }
  }

  lemma {:induction false} EntriesFrame(fs: Nodes, source: Path, target: Path, names: seq<string>)
    requires |target| <= MaxDepth
    ensures forall k :: Outside(k, target, names) ==> Agree(fs, CopyEntries(fs, source, target, names).fs, k)
    decreases Room(target), 0, |names|
  {
    if names != [] {
      var from := source + [names[0]];
      if FileName(from).Some? {
        var to := target + [names[0]];
        var step := if IsDir(fs, from) then CopyTree(fs, from, to) else Lift(fs, CopyFile(fs, from, to));
        if IsDir(fs, from) {
          TreeFrame(fs, from, to);
        }
        if step.result.Ok? {
          EntriesFrame(step.fs, source, target, names[1..]);
        }
        forall k | Outside(k, target, names)
          ensures Agree(fs, step.fs, k) && Outside(k, target, names[1..])
        {
          if Prefix(k, to) {
            PrefixOfChild(k, target, names[0]);
          }
          forall i | 0 <= i < |names[1..]|
            ensures !Prefix(target + [names[1..][i]], k)
          {
            assert names[1..][i] == names[i + 1];
          }
        }
      }
    }
  }

  // ---------------------------------------------------------------------------
  // Where things land

  /** On success the target of a directory copy exists as a directory. */
  lemma TargetIsDir(fs: Nodes, source: Path, destination: Path)
    requires IsDir(fs, source) && CopyTree(fs, source, destination).result.Ok?
    ensures DirectoryTarget(fs, source, destination).Ok?
    ensures var target := DirectoryTarget(fs, source, destination).value;
      target == [] || IsDir(CopyTree(fs, source, destination).fs, target)
  {
    var target := DirectoryTarget(fs, source, destination).value;
    var created := CreateDirAll(fs, target).value;
    EntriesExtend(created, source, target, ReadDir(created, source).value);
  }

  /** A directory copy that succeeds leaves a directory at its destination. */
  lemma DestinationIsDir(fs: Nodes, source: Path, destination: Path)
    requires Tidy(fs) && IsDir(fs, source) && destination != []
    requires CopyTree(fs, source, destination).result.Ok?
    ensures IsDir(CopyTree(fs, source, destination).fs, destination)
  {
    TargetIsDir(fs, source, destination);
    TreeExtends(fs, source, destination);
  }

  /**
   * With source and target apart, each file entry is copied to `target/<name>`
   * and each directory entry leaves a directory at `target/<name>`.
   */
  lemma {:induction false} EntriesCopied(fs: Nodes, source: Path, target: Path, names: seq<string>)
    requires |target| <= MaxDepth && Tidy(fs) && !Comparable(source, target)
    requires CopyEntries(fs, source, target, names).result.Ok?
    ensures var out := CopyEntries(fs, source, target, names).fs;
      forall n | n in names ::
        (IsFile(fs, source + [n]) ==> IsFile(out, target + [n]) && out[target + [n]] == fs[source + [n]]) &&
        (IsDir(fs, source + [n]) ==> IsDir(out, target + [n]))
    decreases |names|
  {
    if names != [] {
      var m := names[0];
      var rest := names[1..];
      var from := source + [m];
      var to := target + [m];
      var step := if IsDir(fs, from) then CopyTree(fs, from, to) else Lift(fs, CopyFile(fs, from, to));
      var out := CopyEntries(fs, source, target, names).fs;
      assert out == CopyEntries(step.fs, source, target, rest).fs;
      // The step leaves the source alone.
      if IsDir(fs, from) {
        TreeFrame(fs, from, to);
        TreeExtends(fs, from, to);
        DestinationIsDir(fs, from, to);
      }
      forall n
        ensures Agree(fs, step.fs, source + [n])
      {
        ApartExtended(source, target, [n], [m]);
        if !IsDir(fs, from) {
          assert !Prefix(source + [n], to);
        }
      }
      EntriesCopied(step.fs, source, target, rest);
      EntriesExtend(step.fs, source, target, rest);
      EntriesFrame(step.fs, source, target, rest);
      if m !in rest {
        forall i | 0 <= i < |rest|
          ensures !Prefix(target + [rest[i]], to)
        {
          assert rest[i] in rest;
        }
        assert Outside(to, target, rest);
      }
      if IsFile(fs, from) {
        ApartExtended(source, target, [m], [m]);
      }
    }
  }

  /**
   * A directory copied with source and destination apart: every file entry of
   * the source is at `target/<name>` with the same bytes, and every directory
   * entry has a directory at `target/<name>`.
   */
  lemma ChildrenCopied(fs: Nodes, source: Path, destination: Path)
    requires Tidy(fs) && IsDir(fs, source) && !Comparable(source, destination)
    requires CopyTree(fs, source, destination).result.Ok?
    ensures DirectoryTarget(fs, source, destination).Ok?
    ensures var target := DirectoryTarget(fs, source, destination).value;
      var out := CopyTree(fs, source, destination).fs;
      forall n | n in fs[source].entries ::
        (IsFile(fs, source + [n]) ==> IsFile(out, target + [n]) && out[target + [n]] == fs[source + [n]]) &&
        (IsDir(fs, source + [n]) ==> IsDir(out, target + [n]))
  {
    var target := DirectoryTarget(fs, source, destination).value;
    var created := CreateDirAll(fs, target).value;
    if Comparable(source, target) {
      if Prefix(source, target) {
        assert target == destination || target == destination + [Last(source)];
        if target != destination {
          PrefixOfChild(source, destination, Last(source));
        }
      } else {
        PrefixesComparable(destination, source, target);
      }
    }
    assert !Prefix(source, target);
    forall n
      ensures Agree(fs, created, source + [n])
    {
      ApartExtended(source, target, [n], []);
      assert target + [] == target;
    }
    EntriesCopied(created, source, target, created[source].entries);
  }

  // ---------------------------------------------------------------------------
  // The whole tree lands under a vacant target

  /** Every node strictly below `source` is named among the entries of its parent. */
  predicate Listed(fs: Nodes, source: Path)
  {
    forall k | k in fs && Prefix(source, k) && k != source ::
      Parent(k) in fs && fs[Parent(k)].Dir? && Last(k) in fs[Parent(k)].entries
  }

  predicate NoRepeats(names: seq<string>)
  {
    forall i, j | 0 <= i < j < |names| :: names[i] != names[j]
  }

  /** No directory at or below `source` names an entry twice. */
  predicate DistinctNames(fs: Nodes, source: Path)
  {
    forall k | k in fs && Prefix(source, k) && fs[k].Dir? :: NoRepeats(fs[k].entries)
  }

  /** Nothing lies at or below `target`. */
  predicate Vacant(fs: Nodes, target: Path)
  {
    forall k | k in fs :: !Prefix(target, k)
  }

  /**
   * The node of `fs` at `k`, when `k` lies at or below `source`, is at the
   * same place below `target` in `out`: a file with the same bytes, a
   * directory as a directory.
   */
  predicate MirroredAt(fs: Nodes, out: Nodes, source: Path, target: Path, k: Path)
  {
    Prefix(source, k) ==>
      (IsFile(fs, k) ==> IsFile(out, target + k[|source|..]) && out[target + k[|source|..]] == fs[k]) &&
      (IsDir(fs, k) ==> IsDir(out, target + k[|source|..]))
  }

  /** `out` holds the whole tree of `fs` at `source` again at `target`. */
  ghost predicate Mirrors(fs: Nodes, out: Nodes, source: Path, target: Path)
  {
    forall k :: MirroredAt(fs, out, source, target, k)
  }

  lemma PrefixTransitive(a: Path, b: Path, c: Path)
    requires Prefix(a, b) && Prefix(b, c)
    ensures Prefix(a, c)
  {
    assert a == b[..|a|] == c[..|b|][..|a|] == c[..|a|];
  }

  /** In a tidy filesystem every path on the way to a node is there, and a directory. */
  lemma {:induction false} TidyPrefix(fs: Nodes, k: Path, a: Path)
    requires Tidy(fs) && k in fs && Prefix(a, k)
    ensures a in fs && (a != k ==> fs[a].Dir?)
    decreases |k|
  {
    if a != k {
      assert |a| < |k|;
      assert Prefix(a, Parent(k)) by {
        assert a == k[..|a|] == Parent(k)[..|a|];
      }
      TidyPrefix(fs, Parent(k), a);
    }
  }

  /** What holds of the whole tree at `source` holds of the tree of any node below it. */
  lemma SubtreeShape(fs: Nodes, source: Path, from: Path)
    requires Prefix(source, from) && Listed(fs, source) && DistinctNames(fs, source)
    ensures Listed(fs, from) && DistinctNames(fs, from)
  {
    forall k | k in fs && Prefix(from, k) && k != from
      ensures Parent(k) in fs && fs[Parent(k)].Dir? && Last(k) in fs[Parent(k)].entries
    {
      PrefixTransitive(source, from, k);
    }
    forall k | k in fs && Prefix(from, k) && fs[k].Dir?
      ensures NoRepeats(fs[k].entries)
    {
      PrefixTransitive(source, from, k);
    }
  }

  /** The shape of the tree at `source` survives a step that leaves every path at or below it alone. */
  lemma ShapeKept(fs: Nodes, out: Nodes, source: Path)
    requires forall k | Prefix(source, k) :: Agree(fs, out, k)
    requires Listed(fs, source) && DistinctNames(fs, source)
    ensures Listed(out, source) && DistinctNames(out, source)
  {
    forall k | k in out && Prefix(source, k) && k != source
      ensures Parent(k) in out && out[Parent(k)].Dir? && Last(k) in out[Parent(k)].entries
    {
      assert Agree(fs, out, k);
      assert Prefix(source, Parent(k)) by {
        assert source == k[..|source|] == Parent(k)[..|source|];
      }
      assert Agree(fs, out, Parent(k));
    }
    forall k | k in out && Prefix(source, k) && out[k].Dir?
      ensures NoRepeats(out[k].entries)
    {
      assert Agree(fs, out, k);
    }
  }

  /**
   * `copy_r` of a directory into a vacant target apart from it copies the
   * whole tree: every file at `source + r` ends up at `target + r` with the
   * same bytes, and every directory at `source + r` has a directory at
   * `target + r`. This needs every node listed by its parent and no name
   * listed twice; a target already in use is where the destination rule
   * applies again, as `RecopyNestsDeeper` shows.
   */
  lemma {:induction false} TreeCopied(fs: Nodes, source: Path, destination: Path)
    requires Tidy(fs) && IsDir(fs, source) && Listed(fs, source) && DistinctNames(fs, source)
    requires DirectoryTarget(fs, source, destination).Ok?
    requires Vacant(fs, DirectoryTarget(fs, source, destination).value)
    requires !Comparable(source, DirectoryTarget(fs, source, destination).value)
    requires CopyTree(fs, source, destination).result.Ok?
    ensures Mirrors(fs, CopyTree(fs, source, destination).fs, source, DirectoryTarget(fs, source, destination).value)
    decreases Room(destination), 1, 0
  {
    var target := DirectoryTarget(fs, source, destination).value;
    assert Room(target) <= Room(destination);
    var created := CreateDirAll(fs, target).value;
    var names := created[source].entries;
    var out := CopyEntries(created, source, target, names).fs;
    assert out == CopyTree(fs, source, destination).fs;
    assert forall k :: !Prefix(k, target) ==> Agree(fs, created, k);
    CreatedKeepsSource(fs, created, source, target);
    EntriesMirrored(created, source, target, names);
    EntriesExtend(created, source, target, names);
    assert target != [] by {
      assert !Prefix(target, source);
    }
    assert IsDir(out, target);
    assert names == fs[source].entries by {
      assert Agree(fs, created, source);
    }
    MirrorsFromEntries(fs, created, out, source, target);
  }

  /** Creating a vacant target apart from `source` keeps the tree at `source` and leaves every `target/<name>` vacant. */
  lemma CreatedKeepsSource(fs: Nodes, created: Nodes, source: Path, target: Path)
    requires Tidy(created) && !Comparable(source, target) && Vacant(fs, target)
    requires Listed(fs, source) && DistinctNames(fs, source)
    requires forall k :: !Prefix(k, target) ==> Agree(fs, created, k)
    ensures forall k | Prefix(source, k) :: Agree(fs, created, k)
    ensures Listed(created, source) && DistinctNames(created, source)
    ensures source in created ==> created[source].Dir? ==> NoRepeats(created[source].entries)
    ensures forall n, k | k in created :: !Prefix(target + [n], k)
  {
    forall k | Prefix(source, k)
      ensures Agree(fs, created, k)
    {
      if Prefix(k, target) {
        PrefixTransitive(source, k, target);
      }
    }
    ShapeKept(fs, created, source);
    forall n, k | k in created
      ensures !Prefix(target + [n], k)
    {
      assert Prefix(target + [n], k) ==> Prefix(target, k) by {
        if Prefix(target + [n], k) {
          PrefixTransitive(target, target + [n], k);
        }
      }
      if !Prefix(k, target) {
        assert Agree(fs, created, k);
      }
    }
  }

  /** The whole tree is mirrored once its root is and each entry's tree is. */
  lemma MirrorsFromEntries(fs: Nodes, created: Nodes, out: Nodes, source: Path, target: Path)
    requires Tidy(fs) && Listed(fs, source) && IsDir(fs, source) && IsDir(out, target)
    requires forall k | Prefix(source, k) :: Agree(fs, created, k)
    requires forall k | Prefix(source, k) && |k| > |source| && k[|source|] in fs[source].entries ::
      MirroredAt(created, out, source, target, k)
    ensures Mirrors(fs, out, source, target)
  {
    forall k
      ensures MirroredAt(fs, out, source, target, k)
    {
      if Prefix(source, k) && k in fs {
        assert Agree(fs, created, k);
        if k == source {
          assert target + k[|source|..] == target;
        } else {
          var child := source + [k[|source|]];
          assert Prefix(child, k) by {
            assert child == k[..|source| + 1];
          }
          TidyPrefix(fs, k, child);
          assert Parent(child) == source;
          assert k[|source|] in fs[source].entries;
        }
      }
    }
  }

  /** The loop of `copy_r` over distinct entries whose targets are vacant copies each of their trees. */
  lemma {:induction false} EntriesMirrored(fs: Nodes, source: Path, target: Path, names: seq<string>)
    requires |target| <= MaxDepth && Tidy(fs) && !Comparable(source, target)
    requires Listed(fs, source) && DistinctNames(fs, source) && NoRepeats(names)
    requires forall n, k | n in names && k in fs :: !Prefix(target + [n], k)
    requires CopyEntries(fs, source, target, names).result.Ok?
    ensures forall k | Prefix(source, k) && |k| > |source| && k[|source|] in names ::
      MirroredAt(fs, CopyEntries(fs, source, target, names).fs, source, target, k)
    decreases Room(target), 0, |names|
  {
    if names != [] {
      var m := names[0];
      var rest := names[1..];
      var from := source + [m];
      var to := target + [m];
      var step := if IsDir(fs, from) then CopyTree(fs, from, to) else Lift(fs, CopyFile(fs, from, to));
      var out := CopyEntries(fs, source, target, names).fs;
      assert step.result.Ok? && out == CopyEntries(step.fs, source, target, rest).fs;
      StepMirrors(fs, source, target, m);
      if IsDir(fs, from) {
        TreeFrame(fs, from, to);
        TreeExtends(fs, from, to);
      }
      assert forall k :: !Comparable(k, to) ==> Agree(fs, step.fs, k);
      StepKeepsRest(fs, step.fs, source, target, names);
      EntriesMirrored(step.fs, source, target, rest);
      EntriesFrame(step.fs, source, target, rest);
      MirroredAfterRest(fs, step.fs, out, source, target, names);
    }
  }

  /** A step that changes only the way to and the tree at `target/<m>` keeps the source and the vacancy of the later targets. */
  lemma StepKeepsRest(fs: Nodes, next: Nodes, source: Path, target: Path, names: seq<string>)
    requires names != [] && NoRepeats(names) && !Comparable(source, target)
    requires Listed(fs, source) && DistinctNames(fs, source)
    requires forall n, k | n in names && k in fs :: !Prefix(target + [n], k)
    requires forall k :: !Comparable(k, target + [names[0]]) ==> Agree(fs, next, k)
    ensures forall k | Prefix(source, k) :: Agree(fs, next, k)
    ensures Listed(next, source) && DistinctNames(next, source) && NoRepeats(names[1..])
    ensures forall n, k | n in names[1..] && k in next :: !Prefix(target + [n], k)
  {
    var m := names[0];
    var rest := names[1..];
    forall k | Prefix(source, k)
      ensures Agree(fs, next, k)
    {
      ApartExtended(source, target, k[|source|..], [m]);
      assert source + k[|source|..] == k;
    }
    ShapeKept(fs, next, source);
    forall n, k | n in rest && k in next
      ensures !Prefix(target + [n], k)
    {
      assert n != m by {
        var i :| 0 <= i < |rest| && rest[i] == n;
        assert names[i + 1] == n && names[0] == m;
      }
      assert Prefix(target + [n], k) ==> !Comparable(k, target + [m]) by {
        if Prefix(target + [n], k) {
          assert k[|target|] == n;
        }
      }
    }
    forall i, j | 0 <= i < j < |rest|
      ensures rest[i] != rest[j]
    {
      assert rest[i] == names[i + 1] && rest[j] == names[j + 1];
    }
  }

  /** What the first step mirrored, the later steps keep; what they mirror, the first step had left as it was. */
  lemma MirroredAfterRest(fs: Nodes, next: Nodes, out: Nodes, source: Path, target: Path, names: seq<string>)
    requires names != [] && NoRepeats(names)
    requires forall k | Prefix(source, k) :: Agree(fs, next, k)
    requires forall k | Prefix(source + [names[0]], k) :: MirroredAt(fs, next, source, target, k)
    requires forall k | Prefix(source, k) && |k| > |source| && k[|source|] in names[1..] ::
      MirroredAt(next, out, source, target, k)
    requires forall k :: Outside(k, target, names[1..]) ==> Agree(next, out, k)
    ensures forall k | Prefix(source, k) && |k| > |source| && k[|source|] in names ::
      MirroredAt(fs, out, source, target, k)
  {
    var m := names[0];
    var rest := names[1..];
    forall k | Prefix(source, k) && |k| > |source| && k[|source|] in names
      ensures MirroredAt(fs, out, source, target, k)
    {
      var image := target + k[|source|..];
      assert Agree(fs, next, k);
      if k[|source|] == m {
        assert Prefix(source + [m], k) by {
          assert source + [m] == k[..|source| + 1];
        }
        assert MirroredAt(fs, next, source, target, k);
        assert Outside(image, target, rest) by {
          forall i | 0 <= i < |rest|
            ensures !Prefix(target + [rest[i]], image)
          {
            assert rest[i] == names[i + 1] != names[0];
            assert image[|target|] == m;
          }
        }
        assert Agree(next, out, image);
      } else {
        assert k[|source|] in rest by {
          var i :| 0 <= i < |names| && names[i] == k[|source|];
          assert i != 0 && rest[i - 1] == names[i];
        }
        assert MirroredAt(next, out, source, target, k);
      }
    }
  }

  /** The first entry of the loop lands in its vacant target whole. */
  lemma StepMirrors(fs: Nodes, source: Path, target: Path, m: string)
    requires |target| <= MaxDepth && Tidy(fs) && !Comparable(source, target)
    requires Listed(fs, source) && DistinctNames(fs, source)
    requires forall k | k in fs :: !Prefix(target + [m], k)
    requires var from := source + [m]; var to := target + [m];
      (if IsDir(fs, from) then CopyTree(fs, from, to) else Lift(fs, CopyFile(fs, from, to))).result.Ok?
    ensures var from := source + [m]; var to := target + [m];
      var step := if IsDir(fs, from) then CopyTree(fs, from, to) else Lift(fs, CopyFile(fs, from, to));
      forall k | Prefix(from, k) :: MirroredAt(fs, step.fs, source, target, k)
    decreases Room(target), 0, 0
  {
    var from := source + [m];
    var to := target + [m];
    ApartExtended(source, target, [m], [m]);
    if IsDir(fs, from) {
      assert DirectoryTarget(fs, from, to) == Ok(to);
      SubtreeShape(fs, source, from);
      TreeCopied(fs, from, to);
      ChildMirrored(fs, CopyTree(fs, from, to).fs, source, target, m);
    } else {
      FileMirrored(fs, CopyFile(fs, from, to).value, source, target, m);
    }
  }

  /** The tree of `source/<m>` mirrored at `target/<m>` is part of the tree of `source` mirrored at `target`. */
  lemma ChildMirrored(fs: Nodes, out: Nodes, source: Path, target: Path, m: string)
    requires Mirrors(fs, out, source + [m], target + [m])
    ensures forall k | Prefix(source + [m], k) :: MirroredAt(fs, out, source, target, k)
  {
    var from := source + [m];
    var to := target + [m];
    forall k | Prefix(from, k)
      ensures MirroredAt(fs, out, source, target, k)
    {
      assert MirroredAt(fs, out, from, to, k);
      assert k[|source|..] == [m] + k[|from|..];
      assert target + k[|source|..] == to + k[|from|..];
      PrefixTransitive(source, from, k);
    }
  }

  /** A file `source/<m>` copied to `target/<m>` is the whole tree at `source/<m>`, mirrored. */
  lemma FileMirrored(fs: Nodes, out: Nodes, source: Path, target: Path, m: string)
    requires Tidy(fs) && !IsDir(fs, source + [m])
    requires IsFile(fs, source + [m]) && IsFile(out, target + [m]) && out[target + [m]] == fs[source + [m]]
    ensures forall k | Prefix(source + [m], k) :: MirroredAt(fs, out, source, target, k)
  {
    var from := source + [m];
    forall k | Prefix(from, k)
      ensures MirroredAt(fs, out, source, target, k)
    {
      PrefixTransitive(source, from, k);
      if k == from {
        assert target + k[|source|..] == target + [m];
      } else if k in fs {
        TidyPrefix(fs, k, from);
      }
    }
  }

  // ---------------------------------------------------------------------------
  // The first error ends the walk

  /** Copying entries `a + b` is copying `a`, then, only if that succeeded, copying `b`. */
  lemma {:induction false} EntriesSequence(fs: Nodes, source: Path, target: Path, a: seq<string>, b: seq<string>)
    requires |target| <= MaxDepth
    ensures var first := CopyEntries(fs, source, target, a);
      CopyEntries(fs, source, target, a + b) ==
        if first.result.Err? then first else CopyEntries(first.fs, source, target, b)
    decreases |a|
  {
    if a == [] {
      assert a + b == b;
    } else {
      assert (a + b)[0] == a[0];
      assert (a + b)[1..] == a[1..] + b;
      var from := source + [a[0]];
      if FileName(from).Some? {
        var to := target + [a[0]];
        var step := if IsDir(fs, from) then CopyTree(fs, from, to) else Lift(fs, CopyFile(fs, from, to));
        if step.result.Ok? {
          EntriesSequence(step.fs, source, target, a[1..], b);
        }
      }
    }
  }

  /** Once an entry fails, none after it is visited, and what was done before it stays. */
  lemma FirstErrorAborts(fs: Nodes, source: Path, target: Path, a: seq<string>, b: seq<string>)
    requires |target| <= MaxDepth
    requires CopyEntries(fs, source, target, a).result.Err?
    ensures CopyEntries(fs, source, target, a + b) == CopyEntries(fs, source, target, a)
    ensures Extends(fs, CopyEntries(fs, source, target, a + b).fs)
  {
    EntriesSequence(fs, source, target, a, b);
    EntriesExtend(fs, source, target, a);
  }

  // ---------------------------------------------------------------------------
  // A file source

  /** A file is copied into a destination directory under its own name, and onto any other destination. */
  lemma FileSourceCopied(fs: Nodes, source: Path, destination: Path)
    requires IsFile(fs, source) && CopyTree(fs, source, destination).result.Ok?
    ensures var out := CopyTree(fs, source, destination).fs;
      var to := if IsDir(fs, destination) then destination + [Last(source)] else destination;
      IsFile(out, to) && (to != source ==> out[to] == fs[source])
  {
  }
}

/** What `cp` does with its arguments, beside `copy_r`. */
module CpProperties {
  import opened Common
  import opened Disk
  import opened Copy

  /**
   * `cp <source> <destination>`: a file lands inside a destination directory
   * under its own name and onto any other destination, which must then be
   * spelled plainly, and nothing off the way to where it lands changes.
   */
  lemma PlainCopy(fs: Nodes, args: seq<string>)
    requires |args| >= 4 && !IsRecursive(args[2])
    ensures var source := ToOperand(args[2]);
      var destination := ToOperand(args[3]);
      var out := Cp(fs, args);
      out.result.Ok? ==>
        OperandIsFile(fs, source) && (Plain(destination) || OperandIsDir(fs, destination)) &&
        var to := if OperandIsDir(fs, destination) then destination.path + [Last(source.path)] else destination.path;
        IsFile(out.fs, to) && (to != source.path ==> out.fs[to] == fs[source.path]) &&
        forall k :: !Prefix(k, to) ==> Agree(fs, out.fs, k)
  {
  }

  /**
   * `cp -r <file> <destination>` always copies into `destination/<name>`, so
   * it succeeds only when the destination is already a directory.
   */
  lemma {:induction false} RecursiveFileNeedsDirectory(fs: Nodes, args: seq<string>)
    requires |args| >= 5 && IsRecursive(args[2]) && Tidy(fs)
    requires OperandIsFile(fs, ToOperand(args[3]))
    ensures var source := ToOperand(args[3]).path;
      var destination := ToOperand(args[4]).path;
      var out := Cp(fs, args);
      out.result.Ok? ==>
        IsDir(fs, destination) &&
        IsFile(out.fs, destination + [Last(source)]) &&
        (destination + [Last(source)] != source ==> out.fs[destination + [Last(source)]] == fs[source])
  {
    var source := ToOperand(args[3]).path;
    var destination := ToOperand(args[4]).path;
    if Cp(fs, args).result.Ok? {
      var to := destination + [Last(source)];
      assert Parent(to) == destination;
      assert |destination| <= |to|;
    }
  }

  /**
   * The flag breaks the copy under a new name: with `new` absent from an
   * existing directory, `cp file new` creates it, while `cp -r file new`
   * looks for `new/file` and fails.
   */
  lemma RecursiveFlagBreaksRename(fs: Nodes, s: string, d: string)
    requires Tidy(fs) && OperandIsFile(fs, ToOperand(s)) && !IsRecursive(s)
    requires Plain(ToOperand(d))
    requires var p := ToOperand(d).path; p != [] && |p| <= MaxDepth && p !in fs && IsDir(fs, Parent(p))
    ensures Cp(fs, ["rustybox", "cp", s, d]).result.Ok?
    ensures Cp(fs, ["rustybox", "cp", "-r", s, d]).result.Err?
  {
    RecursiveFileNeedsDirectory(fs, ["rustybox", "cp", "-r", s, d]);
  }

  /** `cp <source> ""`: the empty path names nothing, so the copy fails and nothing changes. */
  lemma CopyOntoEmptyPathFails(fs: Nodes, source: string)
    requires !IsRecursive(source)
    ensures var out := Cp(fs, ["rustybox", "cp", source, ""]);
      out.fs == fs && out.result.Err? &&
      (OperandIsFile(fs, ToOperand(source)) ==> out.result == Err(NotFound))
  {
  }

  /** `cp -r "" <destination>`: the empty path is no directory and has no file name. */
  lemma RecursiveFromEmptyPathFails(fs: Nodes, destination: string)
    ensures Cp(fs, ["rustybox", "cp", "-r", "", destination]) == Outcome(fs, Err(InvalidInput))
  {
  }

  /** `cp -r <dir> ""`: the empty destination does not exist, so the entries of `dir` are copied into the working directory. */
  lemma RecursiveIntoEmptyPath(fs: Nodes, source: string)
    requires OperandIsDir(fs, ToOperand(source))
    ensures Cp(fs, ["rustybox", "cp", "-r", source, ""]) == CopyDirectory(fs, ToOperand(source).path, [])
  {
  }

  /**
   * A file with a name, spelled with a trailing `/`, is no file to copy,
   * with `-r` or without, into a directory or onto a path: `NotADirectory`,
   * and nothing changes.
   */
  lemma TrailingSlashSourceFails(fs: Nodes, source: string, destination: string)
    requires source != "" && source[|source| - 1] == '/' && IsFile(fs, ToPath(source))
    requires FileName(ToPath(source)).Some?
    ensures Cp(fs, ["rustybox", "cp", source, destination]) == Outcome(fs, Err(NotADirectory))
    ensures Cp(fs, ["rustybox", "cp", "-r", source, destination]) == Outcome(fs, Err(NotADirectory))
  {
    assert !IsRecursive(source) by { assert source[|source| - 1] == '/'; }
  }
}

/**
 * What the corrected copy keeps and `copy_r` does not: every node the copy
 * adds mirrors a node of the source, unless it is one of the directories
 * leading to the target.
 */
module CopyFixProperties {
  import opened Common
  import opened Disk
  import opened Copy
  import opened CopyProperties

  /** Every node `out` has and `fs` lacks is on the way to `target`, or is `target + r` for a path `source + r` of `fs`. */
  predicate FromSource(fs: Nodes, out: Nodes, source: Path, target: Path)
  {
    forall k | k in out && k !in fs :: Prefix(k, target) || (Prefix(target, k) && source + k[|target|..] in fs)
  }

  /** A node new below `target/<m>` for the source `source/<m>` is new below `target` for `source`. */
  lemma ChildFromSource(fs: Nodes, out: Nodes, source: Path, target: Path, m: string)
    requires FromSource(fs, out, source + [m], target + [m]) && source + [m] in fs
    ensures FromSource(fs, out, source, target)
  {
    var to := target + [m];
    forall k | k in out && k !in fs
      ensures Prefix(k, target) || (Prefix(target, k) && source + k[|target|..] in fs)
    {
      if Prefix(k, to) {
        PrefixOfChild(k, target, m);
        if k == to {
          assert k[|target|..] == [m];
        }
      } else {
        assert k[|target|..] == [m] + k[|to|..];
        assert source + k[|target|..] == source + [m] + k[|to|..];
      }
    }
  }

  /** The corrected copy of the directory `source` into `target`, apart from it, adds only nodes that mirror the source. */
  lemma {:induction false} IntoFromSource(fs: Nodes, source: Path, target: Path)
    requires !Comparable(source, target)
    ensures FromSource(fs, CopyInto(fs, source, target).fs, source, target)
    decreases Room(target), 1, 0
  {
    match CreateDirAll(fs, target)
    case Err(_) =>
    case Ok(created) =>
      match ReadDir(created, source)
      case Err(_) =>
        forall k | k in created && k !in fs
          ensures Prefix(k, target)
        {
          assert !Agree(fs, created, k);
        }
      case Ok(names) =>
        var out := CopyIntoEntries(created, source, target, names).fs;
        IntoEntriesFromSource(created, source, target, names);
        forall k | k in out && k !in fs
          ensures Prefix(k, target) || (Prefix(target, k) && source + k[|target|..] in fs)
        {
          if k in created {
            assert !Agree(fs, created, k);
          } else if !Prefix(k, target) {
            var s := source + k[|target|..];
            assert !Prefix(s, target);
            assert Agree(fs, created, s);
          }
        }
  }

  lemma {:induction false} IntoEntriesFromSource(fs: Nodes, source: Path, target: Path, names: seq<string>)
    requires |target| <= MaxDepth && !Comparable(source, target)
    ensures FromSource(fs, CopyIntoEntries(fs, source, target, names).fs, source, target)
    decreases Room(target), 0, |names|
  {
    if names != [] {
      var m := names[0];
      var from := source + [m];
      if FileName(from).Some? {
        var to := target + [m];
        var step := if IsDir(fs, from) then CopyInto(fs, from, to) else Lift(fs, CopyFile(fs, from, to));
        if IsDir(fs, from) {
          ApartExtended(source, target, [m], [m]);
          IntoFromSource(fs, from, to);
          ChildFromSource(fs, step.fs, source, target, m);
        } else if step.result.Ok? {
          forall k | k in step.fs && k !in fs
            ensures Prefix(k, target) || (Prefix(target, k) && source + k[|target|..] in fs)
          {
            assert !Agree(fs, step.fs, k);
            PrefixOfChild(k, target, m);
            if k == to {
              assert k[|target|..] == [m];
            }
          }
        }
        if step.result.Ok? {
          IntoEntriesFromSource(step.fs, source, target, names[1..]);
          var out := CopyIntoEntries(step.fs, source, target, names[1..]).fs;
          forall k | k in out && k !in fs
            ensures Prefix(k, target) || (Prefix(target, k) && source + k[|target|..] in fs)
          {
            if k !in step.fs && !Prefix(k, target) {
              // `s` lies below `source`, so the step, which only adds nodes mirroring `source`, had it already.
              var s := source + k[|target|..];
              assert !Prefix(s, target) && !Prefix(target, s);
              assert s in fs;
            }
          }
        }
      }
    }
  }

  /**
   * `cp -r` as the destination rule intends: copying a directory to a target
   * apart from it adds only the directories leading to the target and copies
   * of nodes of the source.
   */
  lemma FixedCopyMirrors(fs: Nodes, source: Path, destination: Path)
    requires IsDir(fs, source) && DirectoryTarget(fs, source, destination).Ok?
    requires !Comparable(source, DirectoryTarget(fs, source, destination).value)
    ensures FromSource(fs, CopyTreeFixed(fs, source, destination).fs, source, DirectoryTarget(fs, source, destination).value)
  {
    IntoFromSource(fs, source, DirectoryTarget(fs, source, destination).value);
  }

  /**
   * Into a vacant target apart from the source, the corrected copy of a
   * directory and the one of `copy_r` are the same step by step: every
   * `target/<name>` is vacant when its turn comes, so the destination rule
   * of `copy_r` puts each child exactly where the correction does.
   */
  lemma {:induction false} IntoMatches(fs: Nodes, source: Path, target: Path)
    requires Tidy(fs) && !Comparable(source, target) && Vacant(fs, target)
    requires Listed(fs, source) && DistinctNames(fs, source)
    ensures CopyInto(fs, source, target) == CopyDirectory(fs, source, target)
    decreases Room(target), 1, 0
  {
    match CreateDirAll(fs, target)
    case Err(_) =>
    case Ok(created) =>
      match ReadDir(created, source)
      case Err(_) =>
      case Ok(names) =>
        CreatedKeepsSource(fs, created, source, target);
        IntoEntriesMatch(created, source, target, names);
  }

  lemma {:induction false} IntoEntriesMatch(fs: Nodes, source: Path, target: Path, names: seq<string>)
    requires |target| <= MaxDepth && Tidy(fs) && !Comparable(source, target)
    requires Listed(fs, source) && DistinctNames(fs, source) && NoRepeats(names)
    requires forall n, k | n in names && k in fs :: !Prefix(target + [n], k)
    ensures CopyIntoEntries(fs, source, target, names) == CopyEntries(fs, source, target, names)
    decreases Room(target), 0, |names|
  {
    if names != [] {
      var m := names[0];
      var from := source + [m];
      var to := target + [m];
      if FileName(from).Some? {
        if IsDir(fs, from) {
          ApartExtended(source, target, [m], [m]);
          assert DirectoryTarget(fs, from, to) == Ok(to);
          SubtreeShape(fs, source, from);
          IntoMatches(fs, from, to);
          TreeFrame(fs, from, to);
          TreeExtends(fs, from, to);
        }
        var step := if IsDir(fs, from) then CopyTree(fs, from, to) else Lift(fs, CopyFile(fs, from, to));
        if step.result.Ok? {
          assert forall k :: !Comparable(k, to) ==> Agree(fs, step.fs, k);
          StepKeepsRest(fs, step.fs, source, target, names);
          IntoEntriesMatch(step.fs, source, target, names[1..]);
        }
      }
    }
  }

  /**
   * The corrected `cp -r` of a directory into a vacant target apart from it
   * copies the whole tree: every file at `source + r` ends up at
   * `target + r` with the same bytes, and every directory at `source + r`
   * has a directory at `target + r`.
   */
  lemma FixedTreeCopied(fs: Nodes, source: Path, destination: Path)
    requires Tidy(fs) && IsDir(fs, source) && Listed(fs, source) && DistinctNames(fs, source)
    requires DirectoryTarget(fs, source, destination).Ok?
    requires Vacant(fs, DirectoryTarget(fs, source, destination).value)
    requires !Comparable(source, DirectoryTarget(fs, source, destination).value)
    requires CopyTreeFixed(fs, source, destination).result.Ok?
    ensures Mirrors(fs, CopyTreeFixed(fs, source, destination).fs, source, DirectoryTarget(fs, source, destination).value)
  {
    IntoMatches(fs, source, DirectoryTarget(fs, source, destination).value);
    TreeCopied(fs, source, destination);
  }
}
