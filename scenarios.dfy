/** `copy_r` on small trees: the nesting rule, and where a second level lands when it already exists. */
module CopyScenarios {
  import opened Common
  import opened Disk
  import opened Copy

  /** `src/{a.txt, sub/b.txt}` and an empty directory `dst`, in the working directory. */
  function Sample(): Nodes
  {
    map[
      [] := Dir(["src", "dst"]),
      ["src"] := Dir(["a.txt", "sub"]),
      ["src", "a.txt"] := File([1]),
      ["src", "sub"] := Dir(["b.txt"]),
      ["src", "sub", "b.txt"] := File([2]),
      ["dst"] := Dir([])
    ]
  }

  // The states the copy of `src` into `dst` goes through.

  function Made(): Nodes
  {
    assert Parent(["dst", "src"]) == ["dst"];
    AddEntry(Sample(), ["dst", "src"], Dir([]))
  }

  function CopiedA(): Nodes
  {
    assert Parent(["dst", "src", "a.txt"]) == ["dst", "src"];
    AddEntry(Made(), ["dst", "src", "a.txt"], File([1]))
  }

  function MadeSub(): Nodes
  {
    assert Parent(["dst", "src", "sub"]) == ["dst", "src"];
    AddEntry(CopiedA(), ["dst", "src", "sub"], Dir([]))
  }

  function CopiedB(): Nodes
  {
    assert Parent(["dst", "src", "sub", "b.txt"]) == ["dst", "src", "sub"];
    AddEntry(MadeSub(), ["dst", "src", "sub", "b.txt"], File([2]))
  }

  lemma CreatesTarget()
    ensures DirectoryTarget(Sample(), ["src"], ["dst"]) == Ok(["dst", "src"])
    ensures CreateDirAll(Sample(), ["dst", "src"]) == Ok(Made())
    ensures ReadDir(Made(), ["src"]) == Ok(["a.txt", "sub"])
  {
    assert Parent(["dst", "src"]) == ["dst"];
    assert ["src"] != ["dst"] && ["src"] != ["dst", "src"];
    assert ["dst"] + ["src"] == ["dst", "src"];
  }

  lemma CopiesA()
    ensures !IsDir(Made(), ["src", "a.txt"])
    ensures CopyFile(Made(), ["src", "a.txt"], ["dst", "src", "a.txt"]) == Ok(CopiedA())
  {
    assert Parent(["dst", "src", "a.txt"]) == ["dst", "src"];
  }

  lemma CreatesSub()
    ensures IsDir(CopiedA(), ["src", "sub"])
    ensures DirectoryTarget(CopiedA(), ["src", "sub"], ["dst", "src", "sub"]) == Ok(["dst", "src", "sub"])
    ensures CreateDirAll(CopiedA(), ["dst", "src", "sub"]) == Ok(MadeSub())
    ensures ReadDir(MadeSub(), ["src", "sub"]) == Ok(["b.txt"])
  {
    assert Parent(["dst", "src", "sub"]) == ["dst", "src"];
    assert ["src", "sub"] != ["dst", "src"] && ["src", "sub"] != ["dst", "src", "sub"];
    assert ["src", "sub"] != ["dst", "src", "a.txt"] && ["src", "sub"] != ["dst"];
    assert ["dst", "src", "sub"] !in CopiedA();
  }

  lemma CopiesB()
    ensures !IsDir(MadeSub(), ["src", "sub", "b.txt"])
    ensures CopyFile(MadeSub(), ["src", "sub", "b.txt"], ["dst", "src", "sub", "b.txt"]) == Ok(CopiedB())
  {
    assert Parent(["dst", "src", "sub", "b.txt"]) == ["dst", "src", "sub"];
  }

  lemma WalksB()
    ensures CopyEntries(MadeSub(), ["src", "sub"], ["dst", "src", "sub"], ["b.txt"]) == Outcome(CopiedB(), Ok(()))
  {
    CopiesB();
    assert ["src", "sub"] + ["b.txt"] == ["src", "sub", "b.txt"];
    assert ["dst", "src", "sub"] + ["b.txt"] == ["dst", "src", "sub", "b.txt"];
  }

  lemma WalksSub()
    ensures CopyTree(CopiedA(), ["src", "sub"], ["dst", "src", "sub"]) == Outcome(CopiedB(), Ok(()))
  {
    CreatesSub();
    WalksB();
  }

  lemma WalksSubEntry()
    ensures CopyEntries(CopiedA(), ["src"], ["dst", "src"], ["sub"]) == Outcome(CopiedB(), Ok(()))
  {
    CreatesSub();
    WalksSub();
    assert ["src"] + ["sub"] == ["src", "sub"] && ["dst", "src"] + ["sub"] == ["dst", "src", "sub"];
  }

  lemma WalksTop()
    ensures CopyEntries(Made(), ["src"], ["dst", "src"], ["a.txt", "sub"]) == Outcome(CopiedB(), Ok(()))
  {
    CopiesA();
    WalksSubEntry();
    assert ["src"] + ["a.txt"] == ["src", "a.txt"] && ["dst", "src"] + ["a.txt"] == ["dst", "src", "a.txt"];
  }

  lemma WalksSample()
    ensures CopyTree(Sample(), ["src"], ["dst"]) == Outcome(CopiedB(), Ok(()))
  {
    CreatesTarget();
    WalksTop();
  }

  /** Copying `src` into the existing `dst` nests it: the files land at `dst/src/a.txt` and `dst/src/sub/b.txt`. */
  lemma NestsIntoExistingDirectory()
    ensures var out := CopyTree(Sample(), ["src"], ["dst"]);
      out.result.Ok? &&
      ["dst", "src", "a.txt"] in out.fs && out.fs[["dst", "src", "a.txt"]] == File([1]) &&
      ["dst", "src", "sub", "b.txt"] in out.fs && out.fs[["dst", "src", "sub", "b.txt"]] == File([2])
  {
    WalksSample();
    assert ["dst", "src", "a.txt"] in CopiedA() && CopiedA()[["dst", "src", "a.txt"]] == File([1]);
  }
}

/**
 * Running `cp -r src dst` a second time. `copy_r` applies its destination rule
 * again at every level, so the existing `dst/src/sub` makes the second run copy
 * `sub` into a new `dst/src/sub/sub`. The corrected copy leaves the filesystem
 * as the first run left it.
 */
module RecopyScenarios {
  import opened Common
  import opened Disk
  import opened Copy
  import opened CopyScenarios
  import opened CopyFixProperties

  /** The state after the first run, and its first change in the second: `a.txt` written again. */
  function Again(): Nodes
  {
    CopiedB()[["dst", "src", "a.txt"] := File([1])]
  }

  function MadeSubSub(): Nodes
  {
    assert Parent(["dst", "src", "sub", "sub"]) == ["dst", "src", "sub"];
    AddEntry(Again(), ["dst", "src", "sub", "sub"], Dir([]))
  }

  function CopiedSubSub(): Nodes
  {
    assert Parent(["dst", "src", "sub", "sub", "b.txt"]) == ["dst", "src", "sub", "sub"];
    AddEntry(MadeSubSub(), ["dst", "src", "sub", "sub", "b.txt"], File([2]))
  }

  lemma FirstRunTarget()
    ensures IsDir(CopiedB(), ["dst", "src"]) && IsDir(CopiedB(), ["dst", "src", "sub"])
    ensures IsFile(CopiedB(), ["dst", "src", "a.txt"]) && IsFile(CopiedB(), ["dst", "src", "sub", "b.txt"])
    ensures ["dst", "src", "sub", "sub"] !in CopiedB()
  {
  }

  lemma FirstRunSourceTop()
    ensures CopiedB()[["src"]] == Dir(["a.txt", "sub"]) && IsFile(CopiedB(), ["src", "a.txt"])
    ensures CopiedB()[["src", "a.txt"]] == File([1])
  {
    assert ["src"] != ["dst", "src"] && ["src"] != ["dst"] && ["src"] != ["dst", "src", "sub"];
    assert ["src", "a.txt"] != ["dst", "src"] && ["src", "a.txt"] != ["dst", "src", "a.txt"];
    assert ["src", "a.txt"] != ["dst", "src", "sub"] && ["src", "a.txt"] != ["dst", "src", "sub", "b.txt"];
  }

  lemma FirstRunSourceSub()
    ensures CopiedB()[["src", "sub"]] == Dir(["b.txt"]) && IsFile(CopiedB(), ["src", "sub", "b.txt"])
    ensures CopiedB()[["src", "sub", "b.txt"]] == File([2])
  {
    assert ["src", "sub"] != ["dst", "src"] && ["src", "sub"] != ["dst"];
    assert ["src", "sub", "b.txt"] != ["dst", "src", "sub"] && ["src", "sub", "b.txt"] != ["dst", "src", "sub", "b.txt"];
    assert ["src", "sub", "b.txt"] != ["dst", "src"] && ["src", "sub", "b.txt"] != ["dst", "src", "a.txt"];
  }

  lemma SecondRunTarget()
    ensures DirectoryTarget(CopiedB(), ["src"], ["dst"]) == Ok(["dst", "src"])
    ensures CreateDirAll(CopiedB(), ["dst", "src"]) == Ok(CopiedB())
  {
    FirstRunTarget();
    assert ["dst"] + ["src"] == ["dst", "src"];
  }

  lemma SecondRunStarts()
    ensures DirectoryTarget(CopiedB(), ["src"], ["dst"]) == Ok(["dst", "src"])
    ensures CreateDirAll(CopiedB(), ["dst", "src"]) == Ok(CopiedB())
    ensures ReadDir(CopiedB(), ["src"]) == Ok(["a.txt", "sub"])
    ensures CopyFile(CopiedB(), ["src", "a.txt"], ["dst", "src", "a.txt"]) == Ok(Again())
  {
    SecondRunTarget();
    FirstRunTarget();
    FirstRunSourceTop();
  }

  lemma AgainLayout()
    ensures IsDir(Again(), ["src", "sub"]) && Again()[["src", "sub"]] == Dir(["b.txt"])
    ensures IsDir(Again(), ["dst", "src", "sub"]) && ["dst", "src", "sub", "sub"] !in Again()
    ensures IsFile(Again(), ["dst", "src", "sub", "b.txt"]) && IsFile(Again(), ["src", "sub", "b.txt"])
    ensures Again()[["src", "sub", "b.txt"]] == File([2])
  {
    FirstRunTarget();
    FirstRunSourceSub();
  }

  lemma SecondRunMakesSubSub()
    ensures DirectoryTarget(Again(), ["src", "sub"], ["dst", "src", "sub"]) == Ok(["dst", "src", "sub", "sub"])
    ensures CreateDirAll(Again(), ["dst", "src", "sub", "sub"]) == Ok(MadeSubSub())
  {
    AgainLayout();
    assert ["dst", "src", "sub"] + ["sub"] == ["dst", "src", "sub", "sub"];
    assert Parent(["dst", "src", "sub", "sub"]) == ["dst", "src", "sub"];
  }

  lemma SecondRunCopiesB()
    ensures ReadDir(MadeSubSub(), ["src", "sub"]) == Ok(["b.txt"])
    ensures !IsDir(MadeSubSub(), ["src", "sub", "b.txt"])
    ensures CopyFile(MadeSubSub(), ["src", "sub", "b.txt"], ["dst", "src", "sub", "sub", "b.txt"]) == Ok(CopiedSubSub())
  {
    AgainLayout();
    assert Parent(["dst", "src", "sub", "sub", "b.txt"]) == ["dst", "src", "sub", "sub"];
    assert ["src", "sub"] != ["dst", "src", "sub"] && ["src", "sub"] != ["dst", "src", "sub", "sub"];
    assert ["src", "sub", "b.txt"] != ["dst", "src", "sub"] && ["src", "sub", "b.txt"] != ["dst", "src", "sub", "sub"];
  }

  lemma SecondRunWalksB()
    ensures CopyEntries(MadeSubSub(), ["src", "sub"], ["dst", "src", "sub", "sub"], ["b.txt"]) == Outcome(CopiedSubSub(), Ok(()))
  {
    SecondRunCopiesB();
    assert ["src", "sub"] + ["b.txt"] == ["src", "sub", "b.txt"];
    assert ["dst", "src", "sub", "sub"] + ["b.txt"] == ["dst", "src", "sub", "sub", "b.txt"];
  }

  lemma SecondRunWalksSub()
    ensures CopyTree(Again(), ["src", "sub"], ["dst", "src", "sub"]) == Outcome(CopiedSubSub(), Ok(()))
  {
    AgainLayout();
    SecondRunMakesSubSub();
    SecondRunCopiesB();
    SecondRunWalksB();
  }

  lemma SecondRunWalksSubEntry()
    ensures CopyEntries(Again(), ["src"], ["dst", "src"], ["sub"]) == Outcome(CopiedSubSub(), Ok(()))
  {
    AgainLayout();
    SecondRunWalksSub();
    assert ["src"] + ["sub"] == ["src", "sub"] && ["dst", "src"] + ["sub"] == ["dst", "src", "sub"];
  }

  lemma SecondRun()
    ensures CopyTree(CopiedB(), ["src"], ["dst"]) == Outcome(CopiedSubSub(), Ok(()))
  {
    SecondRunStarts();
    FirstRunSourceTop();
    SecondRunWalksSubEntry();
    assert ["src"] + ["a.txt"] == ["src", "a.txt"] && ["dst", "src"] + ["a.txt"] == ["dst", "src", "a.txt"];
  }

  /**
   * As written: `cp -r src dst` run twice creates `dst/src/sub/sub/b.txt`, a
   * directory level the source does not have, so the second run adds a node
   * that mirrors nothing of `src`.
   */
  lemma RecopyNestsDeeper()
    ensures var first := CopyTree(Sample(), ["src"], ["dst"]);
      var second := CopyTree(first.fs, ["src"], ["dst"]);
      first.result.Ok? && second.result.Ok? &&
      ["dst", "src", "sub", "sub"] !in first.fs &&
      IsDir(second.fs, ["dst", "src", "sub", "sub"]) &&
      IsFile(second.fs, ["dst", "src", "sub", "sub", "b.txt"]) &&
      !FromSource(first.fs, second.fs, ["src"], ["dst", "src"])
  {
    WalksSample();
    SecondRun();
    FirstRunTarget();
    SecondRunAddsForeignNode();
  }

  lemma AddEntryKeys(fs: Nodes, p: Path, node: Node)
    requires p != [] && Parent(p) in fs && fs[Parent(p)].Dir?
    ensures AddEntry(fs, p, node).Keys == fs.Keys + {p}
  {
  }

  /** The paths of the first run's result: the sample and the four copies. */
  lemma FirstRunKeys()
    ensures CopiedB().Keys == Sample().Keys + {["dst", "src"], ["dst", "src", "a.txt"], ["dst", "src", "sub"], ["dst", "src", "sub", "b.txt"]}
  {
    assert Parent(["dst", "src"]) == ["dst"];
    assert Parent(["dst", "src", "a.txt"]) == ["dst", "src"];
    assert Parent(["dst", "src", "sub"]) == ["dst", "src"];
    assert Parent(["dst", "src", "sub", "b.txt"]) == ["dst", "src", "sub"];
    AddEntryKeys(Sample(), ["dst", "src"], Dir([]));
    AddEntryKeys(Made(), ["dst", "src", "a.txt"], File([1]));
    AddEntryKeys(CopiedA(), ["dst", "src", "sub"], Dir([]));
    AddEntryKeys(MadeSub(), ["dst", "src", "sub", "b.txt"], File([2]));
  }

  lemma ForeignNodeAbsent()
    ensures ["dst", "src", "sub", "sub"] !in CopiedB()
    ensures ["src", "sub", "sub"] !in CopiedB()
  {
    FirstRunKeys();
    assert "sub" != "b.txt";
  }

  lemma ForeignNodePresent()
    ensures ["dst", "src", "sub", "sub"] in CopiedSubSub()
  {
    assert Parent(["dst", "src", "sub", "sub", "b.txt"]) == ["dst", "src", "sub", "sub"];
    AddEntryKeys(MadeSubSub(), ["dst", "src", "sub", "sub", "b.txt"], File([2]));
  }

  lemma SecondRunAddsForeignNode()
    ensures !FromSource(CopiedB(), CopiedSubSub(), ["src"], ["dst", "src"])
  {
    var k := ["dst", "src", "sub", "sub"];
    assert k[|["dst", "src"]|..] == ["sub", "sub"];
    assert ["src"] + ["sub", "sub"] == ["src", "sub", "sub"];
    ForeignNodeAbsent();
    ForeignNodePresent();
    assert !Prefix(k, ["dst", "src"]);
  }

  /** The second walk of the corrected copy: `b.txt` is written again where the first run put it. */
  function Rewritten(): Nodes
  {
    Again()[["dst", "src", "sub", "b.txt"] := File([2])]
  }

  lemma RewrittenIsFirstRun()
    ensures Rewritten() == CopiedB()
  {
  }

  lemma FixedSecondRunCopiesB()
    ensures CreateDirAll(Again(), ["dst", "src", "sub"]) == Ok(Again())
    ensures ReadDir(Again(), ["src", "sub"]) == Ok(["b.txt"])
    ensures !IsDir(Again(), ["src", "sub", "b.txt"])
    ensures CopyFile(Again(), ["src", "sub", "b.txt"], ["dst", "src", "sub", "b.txt"]) == Ok(Rewritten())
  {
    AgainLayout();
    assert ["src", "sub"] != ["dst", "src", "sub", "b.txt"];
  }

  lemma FixedSecondRunWalksSub()
    ensures CopyInto(Again(), ["src", "sub"], ["dst", "src", "sub"]) == Outcome(Rewritten(), Ok(()))
  {
    FixedSecondRunCopiesB();
    assert ["src", "sub"] + ["b.txt"] == ["src", "sub", "b.txt"];
    assert ["dst", "src", "sub"] + ["b.txt"] == ["dst", "src", "sub", "b.txt"];
    assert CopyIntoEntries(Again(), ["src", "sub"], ["dst", "src", "sub"], ["b.txt"]) == Outcome(Rewritten(), Ok(()));
  }

  lemma FixedSecondRunWalksTop()
    ensures CopyIntoEntries(Again(), ["src"], ["dst", "src"], ["sub"]) == Outcome(Rewritten(), Ok(()))
  {
    AgainLayout();
    FixedSecondRunWalksSub();
    assert ["src"] + ["sub"] == ["src", "sub"] && ["dst", "src"] + ["sub"] == ["dst", "src", "sub"];
  }

  lemma FixedSecondRunWalksA()
    ensures CopyIntoEntries(CopiedB(), ["src"], ["dst", "src"], ["a.txt", "sub"]) == Outcome(CopiedB(), Ok(()))
  {
    SecondRunStarts();
    FirstRunSourceTop();
    FixedSecondRunWalksTop();
    RewrittenIsFirstRun();
    assert ["src"] + ["a.txt"] == ["src", "a.txt"] && ["dst", "src"] + ["a.txt"] == ["dst", "src", "a.txt"];
  }

  lemma FixedSecondRun()
    ensures CopyTreeFixed(CopiedB(), ["src"], ["dst"]) == Outcome(CopiedB(), Ok(()))
  {
    SecondRunStarts();
    FirstRunTarget();
    FixedSecondRunWalksA();
  }

  lemma FixedFirstRunWalksB()
    ensures CopyIntoEntries(MadeSub(), ["src", "sub"], ["dst", "src", "sub"], ["b.txt"]) == Outcome(CopiedB(), Ok(()))
  {
    CopiesB();
    assert ["src", "sub"] + ["b.txt"] == ["src", "sub", "b.txt"];
    assert ["dst", "src", "sub"] + ["b.txt"] == ["dst", "src", "sub", "b.txt"];
  }

  lemma FixedFirstRunWalksSub()
    ensures CopyInto(CopiedA(), ["src", "sub"], ["dst", "src", "sub"]) == Outcome(CopiedB(), Ok(()))
  {
    CreatesSub();
    FixedFirstRunWalksB();
  }

  lemma FixedFirstRunWalksSubEntry()
    ensures CopyIntoEntries(CopiedA(), ["src"], ["dst", "src"], ["sub"]) == Outcome(CopiedB(), Ok(()))
  {
    CreatesSub();
    FixedFirstRunWalksSub();
    assert ["src"] + ["sub"] == ["src", "sub"] && ["dst", "src"] + ["sub"] == ["dst", "src", "sub"];
  }

  lemma FixedFirstRunWalksTop()
    ensures CopyIntoEntries(Made(), ["src"], ["dst", "src"], ["a.txt", "sub"]) == Outcome(CopiedB(), Ok(()))
  {
    CopiesA();
    FixedFirstRunWalksSubEntry();
    assert ["src"] + ["a.txt"] == ["src", "a.txt"] && ["dst", "src"] + ["a.txt"] == ["dst", "src", "a.txt"];
  }

  /** On the sample the first run of the corrected copy does what `copy_r` does. */
  lemma FixedFirstRun()
    ensures CopyTreeFixed(Sample(), ["src"], ["dst"]) == Outcome(CopiedB(), Ok(()))
  {
    CreatesTarget();
    FixedFirstRunWalksTop();
  }

  /** Corrected: a second `cp -r src dst` writes every file where the first one put it, and the filesystem stays as it was. */
  lemma FixedRecopyChangesNothing()
    ensures var first := CopyTreeFixed(Sample(), ["src"], ["dst"]);
      var second := CopyTreeFixed(first.fs, ["src"], ["dst"]);
      first.result.Ok? && second.result.Ok? && second.fs == first.fs
  {
    FixedFirstRun();
    FixedSecondRun();
  }
}
