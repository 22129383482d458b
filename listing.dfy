/**
 * The listing part of `ls`: `display`, `recursive_ls` and the flat branches of
 * `ls` itself, stated over a directory tree. Printing a line is appending it to
 * the output sequence.
 */
module Listing {
  import opened Common
  import opened Text

  /**
   * An entry as `read_dir` reports it: a file is a name; a directory is a name,
   * whether `read_dir` succeeds on it, and its entries in enumeration order.
   */
  datatype Node =
    | File(name: string)
    | Dir(name: string, readable: bool, children: seq<Node>)

  /** The lines printed by one command, and what the command returns. */
  datatype Output = Output(lines: seq<string>, result: Result<()>)

  /** A name `ls` hides unless asked: one starting with a dot. */
  predicate Hidden(name: string)
  {
    StartsWith(name, ".")
  }

  /** `fs::read_dir`: the entries of a readable directory, nothing for anything else. */
  function ReadDir(node: Node): Option<seq<Node>>
  {
    if node.Dir? && node.readable then Some(node.children) else None
  }

  /** `PathBuf::join` of an entry name onto a directory path, as `to_string_lossy` shows it. */
  function JoinPath(dir: string, name: string): string
  {
    if dir == [] || dir[|dir| - 1] == '/' then dir + name else dir + "/" + name
  }

  // ---------------------------------------------------------------------------
  // display

  /** The lines the loop of `display` prints for one entry. */
  function EntryLines(entry: Node, showHidden: bool): seq<string>
  {
    (if showHidden then [".", ".."] else [])
    + (if Hidden(entry.name) && !showHidden then [] else [entry.name])
  }

  /** The lines the loop of `display` prints for the entries it enumerates, in order. */
  function DisplayEntries(entries: seq<Node>, showHidden: bool): seq<string>
  {
    if entries == [] then [] else EntryLines(entries[0], showHidden) + DisplayEntries(entries[1..], showHidden)
  }

  /** `display`: nothing when the directory cannot be read. */
  function Display(node: Node, showHidden: bool): (lines: seq<string>)
    ensures ReadDir(node).None? ==> lines == []
  {
    match ReadDir(node)
    case None => []
    case Some(entries) => DisplayEntries(entries, showHidden)
  }

  /** Every name, in order: what `ls -a` prints after its single `.` and `..`. */
  function Names(entries: seq<Node>): (names: seq<string>)
    ensures |names| == |entries|
    ensures forall i :: 0 <= i < |entries| ==> names[i] == entries[i].name
  {
    if entries == [] then [] else [entries[0].name] + Names(entries[1..])
  }

  /**
   * Reference definition of the filter `DisplayEntries(·, false)` applies:
   * the names not starting with a dot, kept in order, built from the end
   * rather than the front. `HiddenNamesFiltered` shows the two agree, and
   * `VisibleNamesMembers` says which names it holds.
   */
  function VisibleNames(entries: seq<Node>): seq<string>
  {
    if entries == [] then []
    else
      var last := entries[|entries| - 1];
      VisibleNames(entries[..|entries| - 1]) + (if Hidden(last.name) then [] else [last.name])
  }

  // ---------------------------------------------------------------------------
  // recursive_ls

  /**
   * `recursive_ls`: for a directory that can be read, its `path:` header, its
   * `display`, then the listing of every directory among its entries in
   * enumeration order; nothing otherwise.
   */
  function RecursiveLs(path: string, node: Node, showHidden: bool): (lines: seq<string>)
    ensures ReadDir(node).None? ==> lines == []
    ensures ReadDir(node).Some? ==> |lines| >= 1 && lines[0] == path + ":"
    decreases node, 1
  {
    match ReadDir(node)
    case None => []
    case Some(entries) => [path + ":"] + Display(node, showHidden) + Descend(path, entries, showHidden)
  }

  /** The loop of `recursive_ls` over the entries of the directory at `path`. */
  function Descend(path: string, entries: seq<Node>, showHidden: bool): seq<string>
    decreases entries, 0
  {
    if entries == [] then []
    else
      var e := entries[0];
      (if e.Dir? then RecursiveLs(JoinPath(path, e.name), e, showHidden) else [])
      + Descend(path, entries[1..], showHidden)
  }

  /**
   * Following `route`, a sequence of entry positions, down from `node` at `path`:
   * the path and node reached, when every step enters a directory that can be read.
   */
  function Follow(path: string, node: Node, route: seq<nat>): Option<(string, Node)>
    decreases |route|
  {
    if route == [] then Some((path, node))
    else if node.Dir? && node.readable && route[0] < |node.children| then
      var child := node.children[route[0]];
      Follow(JoinPath(path, child.name), child, route[1..])
    else None
  }

  // ---------------------------------------------------------------------------
  // ls

  /** The paths the command line names, mapped to what they denote; `"."` is the working directory. */
  type World = map<string, Node>

  function ReadDirAt(world: World, path: string): Option<seq<Node>>
  {
    if path in world then ReadDir(world[path]) else None
  }

  predicate IsFileAt(world: World, path: string)
  {
    path in world && world[path].File?
  }

  /** `recursive_ls` on a path of the command line. */
  function RecursiveLsAt(world: World, path: string, showHidden: bool): seq<string>
  {
    if path in world then RecursiveLs(path, world[path], showHidden) else []
  }

  /** The plain flat listing: the names not starting with a dot. */
  function Plain(world: World, path: string): Output
  {
    match ReadDirAt(world, path)
    case None => Output([], Err(InvalidInput))
    case Some(entries) => Output(DisplayEntries(entries, false), Ok(()))
  }

  /** The flat listing of `-a`: `.` and `..` are printed before the directory is even read. */
  function All(world: World, path: string): Output
  {
    match ReadDirAt(world, path)
    case None => Output([".", ".."], Err(InvalidInput))
    case Some(entries) => Output([".", ".."] + Names(entries), Ok(()))
  }

  predicate IsAll(a: string) { a == "-a" || a == "--all" }
  predicate IsRecursive(a: string) { a == "-r" || a == "-R" }

  /** The two options of `ls -a -R`, in either order. */
  predicate AllRecursive(a: string, b: string) { (IsAll(a) && IsRecursive(b)) || (IsAll(b) && IsRecursive(a)) }

  /**
   * `ls`, with `args[0]` the program and `args[1]` the command name. Its one
   * error is `InvalidInput`, from a flat listing whose directory cannot be
   * read, by which time at most the `.` and `..` of `-a` are printed; the
   * recursive forms never fail, and a command line of any other shape
   * prints nothing and succeeds.
   */
  function Ls(args: seq<string>, world: World): (o: Output)
    requires |args| >= 2
    ensures o.result.Err? ==> o.result == Err(InvalidInput) && |args| <= 4
    ensures o.result.Err? ==> o.lines == [] || o.lines == [".", ".."]
    ensures |args| == 2 ==> (o.result.Ok? <==> ReadDirAt(world, ".").Some?)
    ensures |args| == 4 && IsRecursive(args[2]) && !IsAll(args[2]) ==> o.result.Ok?
    ensures |args| >= 5 ==> o.result.Ok?
    ensures (|args| > 5 || (|args| == 4 && !IsAll(args[2]) && !IsRecursive(args[2])) ||
             (|args| == 5 && !AllRecursive(args[2], args[3]))) ==> o == Output([], Ok(()))
  {
    if |args| == 2 then Plain(world, ".")
    else if |args| == 3 then
      if IsAll(args[2]) then All(world, ".")
      else if IsFileAt(world, args[2]) then Output([args[2]], Ok(()))
      else Plain(world, args[2])
    else if |args| == 4 then
      if IsAll(args[2]) then All(world, args[3])
      else if IsRecursive(args[2]) then Output(RecursiveLsAt(world, args[3], false), Ok(()))
      else Output([], Ok(()))
    else if |args| == 5 then
      if AllRecursive(args[2], args[3]) then
        Output(RecursiveLsAt(world, args[4], true), Ok(()))
      else Output([], Ok(()))
    else Output([], Ok(()))
  }
}

/** What the listing functions promise about hidden names, dots and the shape of the recursion. */
module ListingProperties {
  import opened Common
  import opened Text
  import opened Listing

  lemma {:induction false} DisplayEntriesAppend(a: seq<Node>, b: seq<Node>, showHidden: bool)
    ensures DisplayEntries(a + b, showHidden) == DisplayEntries(a, showHidden) + DisplayEntries(b, showHidden)
    decreases |a|
  {
    if a != [] {
      assert (a + b)[1..] == a[1..] + b;
      DisplayEntriesAppend(a[1..], b, showHidden);
    } else {
      assert a + b == b;
    }
  }

  /** Without `-a`, `display` prints exactly the names not starting with a dot, in enumeration order. */
  lemma {:induction false} HiddenNamesFiltered(entries: seq<Node>)
    ensures DisplayEntries(entries, false) == VisibleNames(entries)
    decreases |entries|
  {
    if entries != [] {
      var init := entries[..|entries| - 1];
      var last := entries[|entries| - 1];
      assert entries == init + [last];
      DisplayEntriesAppend(init, [last], false);
      HiddenNamesFiltered(init);
    }
  }

  /** The reference filter keeps every visible name and nothing else. */
  lemma {:induction false} VisibleNamesMembers(entries: seq<Node>, name: string)
    ensures name in VisibleNames(entries) <==>
      !Hidden(name) && exists i :: 0 <= i < |entries| && entries[i].name == name
    decreases |entries|
  {
    if entries != [] {
      var n := |entries| - 1;
      var init := entries[..n];
      var last := entries[n];
      VisibleNamesMembers(init, name);
      assert VisibleNames(entries) == VisibleNames(init) + (if Hidden(last.name) then [] else [last.name]);
      if name in VisibleNames(entries) {
        if name in VisibleNames(init) {
          var i :| 0 <= i < |init| && init[i].name == name;
          assert entries[i] == init[i];
        } else {
          assert last.name == name;
        }
      }
      if !Hidden(name) && (exists i :: 0 <= i < |entries| && entries[i].name == name) {
        var i :| 0 <= i < |entries| && entries[i].name == name;
        if i < n {
          assert init[i] == entries[i];
        }
      }
    }
  }

  /** A directory whose entries are all hidden lists as nothing without `-a`. */
  lemma AllHiddenListsNothing(entries: seq<Node>)
    requires forall i :: 0 <= i < |entries| ==> Hidden(entries[i].name)
    ensures DisplayEntries(entries, false) == []
  {
    HiddenNamesFiltered(entries);
    if VisibleNames(entries) != [] {
      VisibleNamesMembers(entries, VisibleNames(entries)[0]);
    }
  }

  /**
   * With `-a`, `display` prints `.` and `..` before every entry: three lines per
   * entry, and nothing at all for an empty directory.
   */
  lemma {:induction false} ShowingHiddenTriples(entries: seq<Node>)
    ensures |DisplayEntries(entries, true)| == 3 * |entries|
    ensures forall i :: 0 <= i < |entries| ==>
      DisplayEntries(entries, true)[3 * i] == "." &&
      DisplayEntries(entries, true)[3 * i + 1] == ".." &&
      DisplayEntries(entries, true)[3 * i + 2] == entries[i].name
    decreases |entries|
  {
    if entries != [] {
      var rest := entries[1..];
      ShowingHiddenTriples(rest);
      var lines := DisplayEntries(entries, true);
      assert lines == [".", "..", entries[0].name] + DisplayEntries(rest, true);
      forall i | 1 <= i < |entries|
        ensures lines[3 * i] == "." && lines[3 * i + 1] == ".." && lines[3 * i + 2] == entries[i].name
      {
        assert entries[i] == rest[i - 1];
        assert 3 * i == 3 * (i - 1) + 3;
      }
    }
  }

  /** `ls -a` on a directory prints `.` and `..` once, then every name, hidden ones included. */
  lemma AllPrintsDotsOnce(args: seq<string>, world: World, entries: seq<Node>)
    requires |args| == 3 && IsAll(args[2])
    requires ReadDirAt(world, ".") == Some(entries)
    ensures Ls(args, world) == Output([".", ".."] + Names(entries), Ok(()))
    ensures forall i :: 0 <= i < |entries| ==> Ls(args, world).lines[i + 2] == entries[i].name
  {
    var lines := [".", ".."] + Names(entries);
    assert Ls(args, world) == All(world, ".") == Output(lines, Ok(()));
    forall i | 0 <= i < |entries|
      ensures lines[i + 2] == entries[i].name
    {
    }
  }

  /** `ls -a` on a path that cannot be read still prints `.` and `..` before failing. */
  lemma AllFailsAfterDots(args: seq<string>, world: World)
    requires |args| == 4 && IsAll(args[2])
    requires ReadDirAt(world, args[3]).None?
    ensures Ls(args, world) == Output([".", ".."], Err(InvalidInput))
  {
  }

  /** Plain `ls` of a directory prints the visible names, and fails on a path that cannot be read. */
  lemma PlainListing(args: seq<string>, world: World)
    requires |args| == 3 && !IsAll(args[2]) && !IsFileAt(world, args[2])
    ensures ReadDirAt(world, args[2]).Some? ==>
      Ls(args, world) == Output(VisibleNames(ReadDirAt(world, args[2]).value), Ok(()))
    ensures ReadDirAt(world, args[2]).None? ==> Ls(args, world) == Output([], Err(InvalidInput))
  {
    if ReadDirAt(world, args[2]).Some? {
      HiddenNamesFiltered(ReadDirAt(world, args[2]).value);
    }
  }

  lemma {:induction false} DescendAppend(path: string, a: seq<Node>, b: seq<Node>, showHidden: bool)
    ensures Descend(path, a + b, showHidden) == Descend(path, a, showHidden) + Descend(path, b, showHidden)
    decreases |a|
  {
    if a != [] {
      assert (a + b)[1..] == a[1..] + b;
      DescendAppend(path, a[1..], b, showHidden);
    } else {
      assert a + b == b;
    }
  }

  /**
   * Pre-order: the listing of a readable directory is its header, its display,
   * and then the listing of each directory entry as one contiguous block, in
   * enumeration order.
   */
  lemma SubdirectoryBlock(path: string, node: Node, i: nat, showHidden: bool)
    requires node.Dir? && node.readable && i < |node.children| && node.children[i].Dir?
    ensures var cs := node.children;
      RecursiveLs(path, node, showHidden) ==
        [path + ":"] + Display(node, showHidden) + Descend(path, cs[..i], showHidden)
        + RecursiveLs(JoinPath(path, cs[i].name), cs[i], showHidden) + Descend(path, cs[i + 1..], showHidden)
  {
    var cs := node.children;
    assert cs == cs[..i] + cs[i..];
    DescendAppend(path, cs[..i], cs[i..], showHidden);
    assert cs[i..][1..] == cs[i + 1..];
  }

  /**
   * Every directory reachable through readable directories gets its header,
   * whether or not its name or the names on the way are hidden, and whether or
   * not `-a` was given.
   */
  lemma {:induction false} ReachableDirectoriesListed(path: string, node: Node, route: seq<nat>, showHidden: bool)
    requires Follow(path, node, route).Some?
    requires ReadDir(Follow(path, node, route).value.1).Some?
    ensures Follow(path, node, route).value.0 + ":" in RecursiveLs(path, node, showHidden)
    decreases |route|
  {
    if route != [] {
      var child := node.children[route[0]];
      var sub := JoinPath(path, child.name);
      ReachableDirectoriesListed(sub, child, route[1..], showHidden);
      SubdirectoryBlock(path, node, route[0], showHidden);
    }
  }

  /** A hidden subdirectory is descended into even without `-a`. */
  lemma HiddenDirectoryDescended(path: string, name: string, entries: seq<Node>, rest: seq<Node>)
    requires Hidden(name)
    ensures var node := Dir("top", true, [Dir(name, true, entries)] + rest);
      JoinPath(path, name) + ":" in RecursiveLs(path, node, false) &&
      name !in Display(node, false)
  {
    var node := Dir("top", true, [Dir(name, true, entries)] + rest);
    assert Follow(path, node, [0]) == Some((JoinPath(path, name), Dir(name, true, entries)));
    ReachableDirectoriesListed(path, node, [0], false);
    HiddenNamesFiltered(node.children);
    VisibleNamesMembers(node.children, name);
  }
}
