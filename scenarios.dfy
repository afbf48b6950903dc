// The walks of the library's own test suite, over the trees its fixtures
// build: one file, two files, and two files at the root next to a
// directory holding two more.

module WalkScenarios {
  import opened Errors
  import opened WalkOptions
  import opened Walking
  import opened WalkLaws

  /** A regular file: both probes see it; listing it fails. */
  function FileNode(name: string, size: nat): Node {
    var probe := Probe(Some(Info(RegularFile, size)), None);
    Node(name, probe, probe, Some(Io(20)), [])
  }

  /** A directory listing `kids`. */
  function DirNode(name: string, kids: seq<Node>): Node {
    var probe := Probe(Some(Info(Directory, 4096)), None);
    Node(name, probe, probe, None, kids)
  }

  /** The fixture writing n files named file<i>.txt, for n <= 2. */
  function TwoFiles(): seq<Node> {
    [FileNode("file0.txt", 14), FileNode("file1.txt", 14)]
  }

  /** Two files at the root, and a directory holding two more. */
  function TwoFilesAtRootTwoInSubdir(): Node {
    DirNode("", TwoFiles() + [DirNode("subdir", TwoFiles())])
  }

  /** A walk as the suite builds it: the defaults, with the algorithm under test. */
  function SuiteWalk(algorithm: int, root: Node): Walk {
    Walk(DefaultWalkOpts().(algorithm := algorithm), [], root)
  }

  /** The mocked visitor of the suite, answering every call with `answer`. */
  function Answering(answer: Signal): Visitor {
    (h: seq<Visit>, v: Visit) => answer
  }

  lemma NilIsQuiet()
    ensures Quiet(Answering(Nil))
  {
  }

  function FileVisit(dir: Path, name: string): Visit {
    Visit(dir + [name], Info(RegularFile, 14), None)
  }

  function DirVisit(path: Path): Visit {
    Visit(path, Info(Directory, 4096), None)
  }

  /** One file: one call. */
  lemma Hello(algorithm: int)
    requires algorithm == AlgorithmBasic || algorithm == AlgorithmDepthFirst
    ensures WalkSpec(SuiteWalk(algorithm, DirNode("", [FileNode("hello.txt", 11)])), Answering(Nil))
            == (None, [Visit(["hello.txt"], Info(RegularFile, 11), None)])
  {
    var root := DirNode("", [FileNode("hello.txt", 11)]);
    var w := DefaultWalkOpts().(algorithm := algorithm);
    var v := Visit(["hello.txt"], Info(RegularFile, 11), None);
    assert DiscoverChild(w, [], root.children[0]) == Deliver(v);
    assert Readable(w, root, [], 0);
    assert BasicOrder(w, root, [], 0) == [v];
    assert DfsOrder(w, root, [], 0) == [v];
    NilIsQuiet();
    WalkFollowsOrder(SuiteWalk(algorithm, root), Answering(Nil));
  }

  /** Two files: two calls, in listing order. */
  lemma TwoFilesVisited(algorithm: int)
    requires algorithm == AlgorithmBasic || algorithm == AlgorithmDepthFirst
    ensures WalkSpec(SuiteWalk(algorithm, DirNode("", TwoFiles())), Answering(Nil))
            == (None, [FileVisit([], "file0.txt"), FileVisit([], "file1.txt")])
  {
    var root := DirNode("", TwoFiles());
    var w := DefaultWalkOpts().(algorithm := algorithm);
    var files := [FileVisit([], "file0.txt"), FileVisit([], "file1.txt")];
    FilesDelivered(w, [], TwoFiles());
    assert Readable(w, root, [], 0);
    assert BasicOrder(w, root, [], 0) == files;
    assert DfsOrder(w, root, [], 0) == files;
    NilIsQuiet();
    WalkFollowsOrder(SuiteWalk(algorithm, root), Answering(Nil));
  }

  /** How the walk discovers the two files of the fixture in `dir`. */
  lemma FilesDelivered(w: WalkOpts, dir: Path, kids: seq<Node>)
    requires kids == TwoFiles()
    ensures DiscoverChild(w, dir, kids[0]) == Deliver(FileVisit(dir, "file0.txt"))
    ensures DiscoverChild(w, dir, kids[1]) == Deliver(FileVisit(dir, "file1.txt"))
  {
  }

  /** What the suite's walk finds inside the subdirectory of the nested tree. */
  lemma InsideSubdir(algorithm: int)
    ensures var w := DefaultWalkOpts().(algorithm := algorithm);
            var sub := DirNode("subdir", TwoFiles());
            var files := [FileVisit(["subdir"], "file0.txt"), FileVisit(["subdir"], "file1.txt")];
            && Readable(w, sub, ["subdir"], 1)
            && BasicOrder(w, sub, ["subdir"], 1) == files
            && DfsOrder(w, sub, ["subdir"], 1) == files
  {
    var w := DefaultWalkOpts().(algorithm := algorithm);
    var sub := DirNode("subdir", TwoFiles());
    var files := [FileVisit(["subdir"], "file0.txt"), FileVisit(["subdir"], "file1.txt")];
    FilesDelivered(w, ["subdir"], TwoFiles());
    assert DfsSubtrees(w, sub, ["subdir"], 1, 0) == [];
    assert Delivered(w, sub, ["subdir"], 0) == files;
    assert Passing(w, files) == files;
  }

  /** What the suite's walk finds at the root of the nested tree. */
  lemma AtRoot(algorithm: int)
    ensures var w := DefaultWalkOpts().(algorithm := algorithm);
            var root := TwoFilesAtRootTwoInSubdir();
            && DiscoverChild(w, [], root.children[0]) == Deliver(FileVisit([], "file0.txt"))
            && DiscoverChild(w, [], root.children[1]) == Deliver(FileVisit([], "file1.txt"))
            && DiscoverChild(w, [], root.children[2]) == Deliver(DirVisit(["subdir"]))
            && Readable(w, root, [], 0)
  {
    var w := DefaultWalkOpts().(algorithm := algorithm);
    var root := TwoFilesAtRootTwoInSubdir();
    RootChildren(w);
    InsideSubdir(algorithm);
    assert ReadableFrom(w, root, [], 0, 2);
    assert ReadableFrom(w, root, [], 0, 0);
  }

  /** The nested tree under walkBasic: five calls, each directory after its contents. */
  lemma TwoFilesNestedBasic()
    ensures WalkSpec(SuiteWalk(AlgorithmBasic, TwoFilesAtRootTwoInSubdir()), Answering(Nil))
            == (None, [FileVisit([], "file0.txt"), FileVisit([], "file1.txt"),
                       FileVisit(["subdir"], "file0.txt"), FileVisit(["subdir"], "file1.txt"),
                       DirVisit(["subdir"])])
  {
    var w := DefaultWalkOpts().(algorithm := AlgorithmBasic);
    var root := TwoFilesAtRootTwoInSubdir();
    AtRoot(AlgorithmBasic);
    InsideSubdir(AlgorithmBasic);
    var sub := [FileVisit(["subdir"], "file0.txt"), FileVisit(["subdir"], "file1.txt")];
    assert BasicOrderOf(w, root.children[2], DirVisit(["subdir"]), 0) == sub + [DirVisit(["subdir"])];
    assert BasicOrderFrom(w, root, [], 0, 3) == [];
    assert BasicOrderFrom(w, root, [], 0, 2) == sub + [DirVisit(["subdir"])];
    assert BasicOrderFrom(w, root, [], 0, 1) == [FileVisit([], "file1.txt")] + sub + [DirVisit(["subdir"])];
    assert BasicOrder(w, root, [], 0) == [FileVisit([], "file0.txt"), FileVisit([], "file1.txt")] + sub + [DirVisit(["subdir"])];
    NilIsQuiet();
    WalkFollowsOrder(SuiteWalk(AlgorithmBasic, root), Answering(Nil));
    assert [FileVisit([], "file0.txt"), FileVisit([], "file1.txt")] + sub + [DirVisit(["subdir"])]
           == [FileVisit([], "file0.txt"), FileVisit([], "file1.txt"), sub[0], sub[1], DirVisit(["subdir"])];
  }

  /** The nested tree under walkDFS: five calls, the subdirectory's files first. */
  lemma TwoFilesNestedDfs()
    ensures WalkSpec(SuiteWalk(AlgorithmDepthFirst, TwoFilesAtRootTwoInSubdir()), Answering(Nil))
            == (None, [FileVisit(["subdir"], "file0.txt"), FileVisit(["subdir"], "file1.txt"),
                       FileVisit([], "file0.txt"), FileVisit([], "file1.txt"),
                       DirVisit(["subdir"])])
  {
    AtRoot(AlgorithmDepthFirst);
    NestedDfsOrder();
    NilIsQuiet();
    WalkFollowsOrder(SuiteWalk(AlgorithmDepthFirst, TwoFilesAtRootTwoInSubdir()), Answering(Nil));
  }

  lemma NestedDfsOrder()
    ensures DfsOrder(DefaultWalkOpts().(algorithm := AlgorithmDepthFirst), TwoFilesAtRootTwoInSubdir(), [], 0)
            == [FileVisit(["subdir"], "file0.txt"), FileVisit(["subdir"], "file1.txt"),
                FileVisit([], "file0.txt"), FileVisit([], "file1.txt"), DirVisit(["subdir"])]
  {
    var w := DefaultWalkOpts().(algorithm := AlgorithmDepthFirst);
    var own := [FileVisit([], "file0.txt"), FileVisit([], "file1.txt"), DirVisit(["subdir"])];
    NestedSubtrees();
    NestedDelivered();
    assert Passing(w, own) == own;
  }

  /** walkDFS's walk of the nested tree's subdirectory. */
  lemma NestedSubtrees()
    ensures DfsSubtrees(DefaultWalkOpts().(algorithm := AlgorithmDepthFirst), TwoFilesAtRootTwoInSubdir(), [], 0, 0)
            == [FileVisit(["subdir"], "file0.txt"), FileVisit(["subdir"], "file1.txt")]
  {
    var w := DefaultWalkOpts().(algorithm := AlgorithmDepthFirst);
    var root := TwoFilesAtRootTwoInSubdir();
    RootChildren(w);
    InsideSubdir(AlgorithmDepthFirst);
    SubtreesThrough(w, root, [], 0, 0);
    SubtreesThrough(w, root, [], 0, 1);
    SubtreesThrough(w, root, [], 0, 2);
  }

  /** walkDFS's buffer at the nested tree's root. */
  lemma NestedDelivered()
    ensures Delivered(DefaultWalkOpts().(algorithm := AlgorithmDepthFirst), TwoFilesAtRootTwoInSubdir(), [], 0)
            == [FileVisit([], "file0.txt"), FileVisit([], "file1.txt"), DirVisit(["subdir"])]
  {
    var w := DefaultWalkOpts().(algorithm := AlgorithmDepthFirst);
    var root := TwoFilesAtRootTwoInSubdir();
    RootChildren(w);
    DeliveredThrough(w, root, [], 0);
    DeliveredThrough(w, root, [], 1);
    DeliveredThrough(w, root, [], 2);
  }

  /** Every configuration discovers the nested tree's root children alike. */
  lemma RootChildren(w: WalkOpts)
    ensures var root := TwoFilesAtRootTwoInSubdir();
            && DiscoverChild(w, [], root.children[0]) == Deliver(FileVisit([], "file0.txt"))
            && DiscoverChild(w, [], root.children[1]) == Deliver(FileVisit([], "file1.txt"))
            && DiscoverChild(w, [], root.children[2]) == Deliver(DirVisit(["subdir"]))
  {
    FilesDelivered(w, [], TwoFilesAtRootTwoInSubdir().children[..2]);
  }

  /** Depth 0 with symlinks followed: the root's three children are
      visited, the subdirectory's contents are not. */
  lemma ZeroDepth(algorithm: int)
    requires algorithm == AlgorithmBasic || algorithm == AlgorithmDepthFirst
    ensures WalkSpec(Walk(ZeroDepthOpts(algorithm), [], TwoFilesAtRootTwoInSubdir()), Answering(Nil))
            == (None, [FileVisit([], "file0.txt"), FileVisit([], "file1.txt"), DirVisit(["subdir"])])
  {
    var w := ZeroDepthOpts(algorithm);
    var root := TwoFilesAtRootTwoInSubdir();
    var own := [FileVisit([], "file0.txt"), FileVisit([], "file1.txt"), DirVisit(["subdir"])];
    RootChildren(w);
    assert MaxDepthReached(w, 1);
    assert Readable(w, root, [], 0);
    if algorithm == AlgorithmBasic {
      assert BasicOrderFrom(w, root, [], 0, 2) == [DirVisit(["subdir"])];
      assert BasicOrder(w, root, [], 0) == own;
    } else {
      assert DfsSubtrees(w, root, [], 0, 0) == [];
      assert Delivered(w, root, [], 0) == own;
      assert Passing(w, own) == own;
      assert DfsOrder(w, root, [], 0) == own;
    }
    NilIsQuiet();
    WalkFollowsOrder(Walk(w, [], root), Answering(Nil));
  }

  function ZeroDepthOpts(algorithm: int): WalkOpts {
    DefaultWalkOpts().(algorithm := algorithm, depth := 0, followSymlinks := true)
  }

  /** walkBasic's first call is for the first file at the root; walkDFS's
      for the first file in the subdirectory, whose walk runs before any
      root child is visited. */
  lemma FirstCall(answer: Signal)
    requires !answer.Nil?
    ensures BasicWalk(DefaultWalkOpts(), Answering(answer), TwoFilesAtRootTwoInSubdir(), [], 0, [])
            == (FaultOf(answer), [FileVisit([], "file0.txt")])
    ensures DfsWalk(DefaultWalkOpts().(algorithm := AlgorithmDepthFirst), Answering(answer),
                    TwoFilesAtRootTwoInSubdir(), [], 0, [])
            == (FaultOf(answer), [FileVisit(["subdir"], "file0.txt")])
  {
    var root := TwoFilesAtRootTwoInSubdir();
    var basic := DefaultWalkOpts();
    RootChildren(basic);
    assert Answering(answer)([], FileVisit([], "file0.txt")) == answer;
    assert [] + [FileVisit([], "file0.txt")] == [FileVisit([], "file0.txt")];
    assert BasicStep(basic, Answering(answer), root.children[0], FileVisit([], "file0.txt"), 0, [])
           == (FaultOf(answer), [FileVisit([], "file0.txt")]);
    var dfs := DefaultWalkOpts().(algorithm := AlgorithmDepthFirst);
    var sub := root.children[2];
    RootChildren(dfs);
    FilesDelivered(dfs, ["subdir"], sub.children);
    var inner := [FileVisit(["subdir"], "file0.txt"), FileVisit(["subdir"], "file1.txt")];
    assert DfsChildren(dfs, Answering(answer), sub, ["subdir"], 1, 2, [], inner) == (None, [], inner);
    assert [] + [inner[0]] == [inner[0]] && [inner[0]] + [inner[1]] == inner;
    assert DfsChildren(dfs, Answering(answer), sub, ["subdir"], 1, 1, [], [inner[0]]) == (None, [], inner);
    assert DfsChildren(dfs, Answering(answer), sub, ["subdir"], 1, 0, [], []) == (None, [], inner);
    assert Answering(answer)([], inner[0]) == answer;
    assert VisitBuffered(dfs, Answering(answer), inner, []) == (FaultOf(answer), [inner[0]]);
    assert DfsStep(dfs, Answering(answer), sub, DirVisit(["subdir"]), 0, []) == (FaultOf(answer), [inner[0]]);
    assert DfsChildren(dfs, Answering(answer), root, [], 0, 2, [], [FileVisit([], "file0.txt"), FileVisit([], "file1.txt")]).0
           == FaultOf(answer);
  }

  /** A visitor answering ErrStopWalk: one call, and the walk succeeds. */
  lemma StopWalkAfterOne(algorithm: int)
    requires algorithm == AlgorithmBasic || algorithm == AlgorithmDepthFirst
    ensures var (err, trace) := WalkSpec(SuiteWalk(algorithm, TwoFilesAtRootTwoInSubdir()), Answering(Stop));
            err.None? && |trace| == 1
  {
    FirstCall(Stop);
  }

  /** A visitor answering an error: one call, and the walk fails with it. */
  lemma VisitorErrorAfterOne(algorithm: int, e: Error)
    requires algorithm == AlgorithmBasic || algorithm == AlgorithmDepthFirst
    ensures var (err, trace) := WalkSpec(SuiteWalk(algorithm, TwoFilesAtRootTwoInSubdir()), Answering(Fail(e)));
            err == Some(e) && |trace| == 1
  {
    FirstCall(Fail(e));
  }

  /** An algorithm the library does not know: an error, and no call. */
  lemma BadAlgorithm(visit: Visitor)
    ensures WalkSpec(SuiteWalk(0xBADC0DE, TwoFilesAtRootTwoInSubdir()), visit) == (Some(InvalidAlgorithm), [])
  {
  }
}
