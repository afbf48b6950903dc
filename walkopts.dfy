// The configuration of a walk: the WalkOpts record, its defaults, the
// option functions NewWalk applies over them, and the decisions the walk
// takes from it (the size and kind filter, the depth limit).

module WalkOptions {
  import opened Errors

  /** Walk algorithms are plain integers; only these two are known. */
  const AlgorithmBasic: int := 0
  const AlgorithmDepthFirst: int := 1

  /** The settings of a walk. Sizes are int64 in the library; a negative
      bound means no bound, a negative depth means no depth limit. */
  datatype WalkOpts = WalkOpts(
    depth: int,
    algorithm: int,
    followSymlinks: bool,
    minimumFileSize: int,
    maximumFileSize: int,
    visitFiles: bool,
    visitDirs: bool,
    visitSymlinks: bool)

  /** DefaultWalkOpts: unlimited depth, the basic algorithm, symlinks not
      followed, no size bounds, every kind visited. */
  function DefaultWalkOpts(): (o: WalkOpts)
    ensures o.depth < 0 && o.algorithm == AlgorithmBasic && !o.followSymlinks
    ensures o.minimumFileSize < 0 && o.maximumFileSize < 0
    ensures o.visitFiles && o.visitDirs && o.visitSymlinks
  {
    WalkOpts(-1, AlgorithmBasic, false, -1, -1, true, true, true)
  }

  /** The option functions the library offers; each sets one field. */
  datatype WalkOptsFunc =
    | WalkDepth(depth: int)
    | WalkAlgorithm(algo: int)
    | WalkFollowSymlinks(follow: bool)
    | WalkMinimumFileSize(size: int)
    | WalkMaximumFileSize(size: int)
    | WalkVisitFiles(value: bool)
    | WalkVisitDirs(value: bool)
    | WalkVisitSymlinks(value: bool)

  /** Running one option function on a configuration. */
  function Apply(c: WalkOpts, o: WalkOptsFunc): WalkOpts {
    match o
    case WalkDepth(d) => c.(depth := d)
    case WalkAlgorithm(a) => c.(algorithm := a)
    case WalkFollowSymlinks(f) => c.(followSymlinks := f)
    case WalkMinimumFileSize(s) => c.(minimumFileSize := s)
    case WalkMaximumFileSize(s) => c.(maximumFileSize := s)
    case WalkVisitFiles(v) => c.(visitFiles := v)
    case WalkVisitDirs(v) => c.(visitDirs := v)
    case WalkVisitSymlinks(v) => c.(visitSymlinks := v)
  }

  /** Running the option functions in order. */
  function ApplyAll(c: WalkOpts, opts: seq<WalkOptsFunc>): WalkOpts
    decreases |opts|
  {
    if opts == [] then c else ApplyAll(Apply(c, opts[0]), opts[1..])
  }

  /** The configuration NewWalk builds: the defaults, then each option in order. */
  method Configure(opts: seq<WalkOptsFunc>) returns (config: WalkOpts)
    ensures config == ApplyAll(DefaultWalkOpts(), opts)
  {
    config := DefaultWalkOpts();
    for i := 0 to |opts|
      invariant ApplyAll(config, opts[i..]) == ApplyAll(DefaultWalkOpts(), opts)
    {
      assert opts[i..][1..] == opts[i + 1..];
      config := Apply(config, opts[i]);
    }
    assert opts[|opts|..] == [];
  }

  /** The fields of a configuration, to speak of them one at a time. */
  datatype Setting = Depth | Algorithm | Follow | MinSize | MaxSize | Files | Dirs | Symlinks

  datatype Value = Num(n: int) | Flag(b: bool)

  function Read(c: WalkOpts, s: Setting): Value {
    match s
    case Depth => Num(c.depth)
    case Algorithm => Num(c.algorithm)
    case Follow => Flag(c.followSymlinks)
    case MinSize => Num(c.minimumFileSize)
    case MaxSize => Num(c.maximumFileSize)
    case Files => Flag(c.visitFiles)
    case Dirs => Flag(c.visitDirs)
    case Symlinks => Flag(c.visitSymlinks)
  }

  /** The field an option function sets, and the value it writes there. */
  function Target(o: WalkOptsFunc): Setting {
    match o
    case WalkDepth(_) => Depth
    case WalkAlgorithm(_) => Algorithm
    case WalkFollowSymlinks(_) => Follow
    case WalkMinimumFileSize(_) => MinSize
    case WalkMaximumFileSize(_) => MaxSize
    case WalkVisitFiles(_) => Files
    case WalkVisitDirs(_) => Dirs
    case WalkVisitSymlinks(_) => Symlinks
  }

  function Written(o: WalkOptsFunc): Value {
    match o
    case WalkDepth(d) => Num(d)
    case WalkAlgorithm(a) => Num(a)
    case WalkFollowSymlinks(f) => Flag(f)
    case WalkMinimumFileSize(s) => Num(s)
    case WalkMaximumFileSize(s) => Num(s)
    case WalkVisitFiles(v) => Flag(v)
    case WalkVisitDirs(v) => Flag(v)
    case WalkVisitSymlinks(v) => Flag(v)
  }

  /** An option function writes its own field and leaves every other alone. */
  lemma ApplyFrame(c: WalkOpts, o: WalkOptsFunc, s: Setting)
    ensures Read(Apply(c, o), s) == if Target(o) == s then Written(o) else Read(c, s)
  {
  }

  /** A field no option function writes keeps its value. */
  lemma {:induction false} Untouched(c: WalkOpts, opts: seq<WalkOptsFunc>, s: Setting)
    requires forall k :: 0 <= k < |opts| ==> Target(opts[k]) != s
    ensures Read(ApplyAll(c, opts), s) == Read(c, s)
    decreases |opts|
  {
    if opts != [] {
      ApplyFrame(c, opts[0], s);
      Untouched(Apply(c, opts[0]), opts[1..], s);
    }
  }

  /** The last option function writing a field decides its value. */
  lemma {:induction false} LastWriterWins(c: WalkOpts, opts: seq<WalkOptsFunc>, k: nat, s: Setting)
    requires k < |opts| && Target(opts[k]) == s
    requires forall m :: k < m < |opts| ==> Target(opts[m]) != s
    ensures Read(ApplyAll(c, opts), s) == Written(opts[k])
    decreases |opts|
  {
    ApplyFrame(c, opts[0], s);
    if k == 0 {
      Untouched(Apply(c, opts[0]), opts[1..], s);
    } else {
      LastWriterWins(Apply(c, opts[0]), opts[1..], k - 1, s);
    }
  }

  /** The index of the last of the first n option functions that writes
      setting s, if any does. */
  function LastWriter(opts: seq<WalkOptsFunc>, s: Setting, n: nat): (k: Option<nat>)
    requires n <= |opts|
    ensures k.Some? ==> k.value < n && Target(opts[k.value]) == s
    ensures k.None? ==> forall m :: 0 <= m < n ==> Target(opts[m]) != s
    ensures k.Some? ==> forall m :: k.value < m < n ==> Target(opts[m]) != s
  {
    if n == 0 then None
    else if Target(opts[n - 1]) == s then Some(n - 1)
    else LastWriter(opts, s, n - 1)
  }

  /** Each setting of a configuration built from option functions is the
      value its last writer wrote, or the starting value when none writes it. */
  lemma Settled(c: WalkOpts, opts: seq<WalkOptsFunc>, s: Setting)
    ensures var k := LastWriter(opts, s, |opts|);
            Read(ApplyAll(c, opts), s) == if k.Some? then Written(opts[k.value]) else Read(c, s)
  {
    var k := LastWriter(opts, s, |opts|);
    if k.Some? {
      LastWriterWins(c, opts, k.value, s);
    } else {
      Untouched(c, opts, s);
    }
  }

  /** Every option function offered, as one NewWalk call may pass them. */
  function AllOptions(): seq<WalkOptsFunc> {
    [WalkVisitSymlinks(true), WalkVisitDirs(true), WalkVisitFiles(true),
     WalkMaximumFileSize(1000), WalkMinimumFileSize(500), WalkFollowSymlinks(true),
     WalkAlgorithm(AlgorithmDepthFirst), WalkDepth(10)]
  }

  /** Passing every option function once sets every field to its argument. */
  lemma AllOptionsApplied()
    ensures ApplyAll(DefaultWalkOpts(), AllOptions())
            == WalkOpts(10, AlgorithmDepthFirst, true, 500, 1000, true, true, true)
  {
  }

  /** WalkOpts.MeetsMinimumSize. */
  predicate MeetsMinimumSize(w: WalkOpts, size: int) {
    if w.minimumFileSize < 0 then true else size >= w.minimumFileSize
  }

  /** WalkOpts.MeetsMaximumSize. */
  predicate MeetsMaximumSize(w: WalkOpts, size: int) {
    if w.maximumFileSize < 0 then true else size <= w.maximumFileSize
  }

  /** The sizes that pass are an interval: both bounds inclusive, a
      negative bound no bound at all. */
  lemma SizeBoundsInclusive(w: WalkOpts, size: int)
    ensures MeetsMinimumSize(w, size) && MeetsMaximumSize(w, size)
            <==> (w.minimumFileSize < 0 || w.minimumFileSize <= size)
                 && (w.maximumFileSize < 0 || size <= w.maximumFileSize)
    ensures w.minimumFileSize >= 0 ==> MeetsMinimumSize(w, w.minimumFileSize) && !MeetsMinimumSize(w, w.minimumFileSize - 1)
    ensures w.maximumFileSize >= 0 ==> MeetsMaximumSize(w, w.maximumFileSize) && !MeetsMaximumSize(w, w.maximumFileSize + 1)
  {
  }

  /** What a stat of a node says, as far as the walk looks at it: its kind
      (from the file mode) and its size. */
  datatype Kind = RegularFile | Directory | SymbolicLink | OtherKind
  datatype Info = Info(kind: Kind, size: int)

  /** passesQuerySpecification, whose error result is always nil. */
  predicate PassesQuery(w: WalkOpts, info: Info) {
    if info.kind == RegularFile then
      w.visitFiles && MeetsMinimumSize(w, info.size) && MeetsMaximumSize(w, info.size)
    else if info.kind == Directory then w.visitDirs
    else if info.kind == SymbolicLink then w.visitSymlinks
    else true
  }

  /** The query filter decides by kind: files by the visit flag and both size
      bounds, directories and symlinks by their flags, anything else passes. */
  lemma QueryByKind(w: WalkOpts, info: Info)
    ensures info.kind == RegularFile ==>
              (PassesQuery(w, info) <==>
                 w.visitFiles
                 && (w.minimumFileSize < 0 || info.size >= w.minimumFileSize)
                 && (w.maximumFileSize < 0 || info.size <= w.maximumFileSize))
    ensures info.kind == Directory ==> (PassesQuery(w, info) <==> w.visitDirs)
    ensures info.kind == SymbolicLink ==> (PassesQuery(w, info) <==> w.visitSymlinks)
    ensures info.kind == OtherKind ==> PassesQuery(w, info)
  {
  }

  /** With the defaults every node passes the filter. */
  lemma DefaultsPassAll(info: Info)
    ensures PassesQuery(DefaultWalkOpts(), info)
  {
  }

  /** Walk.maxDepthReached. */
  predicate MaxDepthReached(w: WalkOpts, currentDepth: int) {
    w.depth >= 0 && currentDepth > w.depth
  }

  /** A negative depth never prunes; otherwise the levels up to the depth
      are walked and every deeper one is pruned. */
  lemma DepthLimit(w: WalkOpts, d: int, d': int)
    ensures w.depth < 0 ==> !MaxDepthReached(w, d)
    ensures w.depth >= 0 ==> !MaxDepthReached(w, w.depth) && MaxDepthReached(w, w.depth + 1)
    ensures d <= d' && MaxDepthReached(w, d) ==> MaxDepthReached(w, d')
  {
  }
}
