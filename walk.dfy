// The directory walk: discovery of a directory's children, the two
// traversal algorithms and the Walk dispatcher. The filesystem is a finite
// tree of nodes, each carrying the backend's answers for it; the visitor
// is a function of the calls made so far and the current visit, and each
// walk returns its result together with the trace of visitor calls.

module Walking {
  import opened Errors
  import opened WalkOptions

  /** What Lstat or Stat answers for a node: metadata, an error, or both. */
  datatype Probe = Probe(info: Option<Info>, err: Option<Error>)

  /** A node of the backend's tree: its name in its parent, the answers of
      Lstat and Stat for it, and the answer of ReadDir (an error, or its
      children in the backend's order). A symbolic link carries its
      target's Stat answer and listing, so following it descends into the
      target. */
  datatype Node = Node(name: string, lstat: Probe, stat: Probe, readErr: Option<Error>, children: seq<Node>)

  /** A path as the list of its components below the walk's root. */
  type Path = seq<string>

  /** Path.Join of a directory with a child's name: the name appended, or
      the directory itself for an empty name or ".", which clean away. */
  function ChildPath(parent: Path, name: string): (p: Path)
    ensures p == parent <==> name == "" || name == "."
  {
    if name == "" || name == "." then parent else parent + [name]
  }

  /** One call of the visitor: the child's path, its metadata and the error
      its probe reported along with the metadata. */
  datatype Visit = Visit(path: Path, info: Info, err: Option<Error>)

  /** What the visitor returns: nil, ErrStopWalk, or any other error. */
  datatype Signal = Nil | Stop | Fail(e: Error)

  /** The visitor, given the calls made before this one. */
  type Visitor = (seq<Visit>, Visit) -> Signal

  /** A non-nil error travelling up the walk: ErrStopWalk or another one. */
  datatype Fault = StopWalk | Raise(e: Error)

  function FaultOf(s: Signal): (f: Option<Fault>)
    ensures f.None? <==> s.Nil?
    ensures f == Some(StopWalk) <==> s.Stop?
  {
    match s
    case Nil => None
    case Stop => Some(StopWalk)
    case Fail(e) => Some(Raise(e))
  }

  /** How iterateImmediateChildren treats one listed child before handing it
      to the algorithm: skipped, aborting the walk, or delivered. */
  datatype Discovery = Skip | Abort(e: Error) | Deliver(v: Visit)

  /** The probe the walk uses: Stat when following symlinks, Lstat otherwise. */
  function ProbeOf(w: WalkOpts, child: Node): Probe {
    if w.followSymlinks then child.stat else child.lstat
  }

  /** iterateImmediateChildren on one child, before the algorithm sees it. */
  function DiscoverChild(w: WalkOpts, parent: Path, child: Node): Discovery {
    var path := ChildPath(parent, child.name);
    if path == parent then Skip
    else if w.followSymlinks && child.stat.err.Some? then Abort(child.stat.err.value)
    else
      var p := ProbeOf(w, child);
      if p.info.None? then Abort(if p.err.Some? then p.err.value else InfoIsNil)
      else Deliver(Visit(path, p.info.value, p.err))
  }

  /** What iterateImmediateChildren does with one child, case by case: a
      child whose path is the directory's own is skipped; a Stat error
      aborts when following symlinks; no metadata aborts with the probe's
      error, or with ErrInfoIsNil when there is none; otherwise the child
      is delivered at its path with its metadata and the probe's error. */
  lemma DiscoveryCases(w: WalkOpts, parent: Path, child: Node)
    ensures var d := DiscoverChild(w, parent, child);
            && (d.Skip? <==> child.name == "" || child.name == ".")
            && (!d.Skip? && w.followSymlinks && child.stat.err.Some? ==> d == Abort(child.stat.err.value))
            && (!d.Skip? && ProbeOf(w, child).info.None? && ProbeOf(w, child).err.None? ==> d == Abort(InfoIsNil))
            && (!d.Skip? && ProbeOf(w, child).info.None? && ProbeOf(w, child).err.Some? ==>
                  d == Abort(ProbeOf(w, child).err.value))
            && (d.Deliver? <==> !d.Skip? && ProbeOf(w, child).info.Some? && !(w.followSymlinks && child.stat.err.Some?))
            && (d.Deliver? ==> d.v.path == parent + [child.name]
                               && Some(d.v.info) == ProbeOf(w, child).info && d.v.err == ProbeOf(w, child).err)
  {
  }

  function IsDir(info: Info): bool {
    info.kind == Directory
  }

  // ---------------------------------------------------------------------
  // walkBasic

  /** walkBasic from `node` at `path`, `t` being the visitor calls so far. */
  function BasicWalk(w: WalkOpts, visit: Visitor, node: Node, path: Path, depth: nat, t: seq<Visit>)
    : (Option<Fault>, seq<Visit>)
    decreases node, 1, 0
  {
    if MaxDepthReached(w, depth) then (None, t)
    else if node.readErr.Some? then (Some(Raise(node.readErr.value)), t)
    else BasicChildren(w, visit, node, path, depth, 0, t)
  }

  /** iterateImmediateChildren with walkBasic's algorithm function, over the
      children of `dir` from the i-th on. */
  function BasicChildren(w: WalkOpts, visit: Visitor, dir: Node, path: Path, depth: nat, i: nat, t: seq<Visit>)
    : (Option<Fault>, seq<Visit>)
    requires i <= |dir.children|
    decreases dir, 0, |dir.children| - i
  {
    if i == |dir.children| then (None, t)
    else
      match DiscoverChild(w, path, dir.children[i])
      case Skip => BasicChildren(w, visit, dir, path, depth, i + 1, t)
      case Abort(e) => (Some(Raise(e)), t)
      case Deliver(v) =>
        var r := BasicStep(w, visit, dir.children[i], v, depth, t);
        if r.0.Some? then r else BasicChildren(w, visit, dir, path, depth, i + 1, r.1)
  }

  /** walkBasic's algorithm function on a delivered child: a directory's
      subtree is walked one level deeper first, then the child is filtered
      and visited. */
  function BasicStep(w: WalkOpts, visit: Visitor, child: Node, v: Visit, depth: nat, t: seq<Visit>)
    : (Option<Fault>, seq<Visit>)
    decreases child, 2, 0
  {
    var (f, t1) := if IsDir(v.info) then BasicWalk(w, visit, child, v.path, depth + 1, t) else (None, t);
    if f.Some? then (f, t1)
    else if !PassesQuery(w, v.info) then (None, t1)
    else (FaultOf(visit(t1, v)), t1 + [v])
  }

  /** walkBasic: iterateImmediateChildren's loop, calling the algorithm
      function on each delivered child. */
  method WalkBasic(w: WalkOpts, visit: Visitor, node: Node, path: Path, depth: nat, t: seq<Visit>)
    returns (f: Option<Fault>, trace: seq<Visit>)
    ensures (f, trace) == BasicWalk(w, visit, node, path, depth, t)
    decreases node, 0
  {
    if MaxDepthReached(w, depth) {
      return None, t;
    }
    if node.readErr.Some? {
      return Some(Raise(node.readErr.value)), t;
    }
    var kids := node.children;
    trace := t;
    var i := 0;
    while i < |kids|
      invariant 0 <= i <= |kids|
      invariant BasicChildren(w, visit, node, path, depth, i, trace) == BasicChildren(w, visit, node, path, depth, 0, t)
    {
      var d := DiscoverChild(w, path, kids[i]);
      match d {
        case Skip =>
        case Abort(e) =>
          return Some(Raise(e)), trace;
        case Deliver(v) =>
          var g;
          g, trace := BasicAlgorithm(w, visit, kids[i], v, depth, trace);
          if g.Some? {
            return g, trace;
          }
      }
      i := i + 1;
    }
    return None, trace;
  }

  /** The algorithm function walkBasic hands to iterateImmediateChildren. */
  method BasicAlgorithm(w: WalkOpts, visit: Visitor, child: Node, v: Visit, depth: nat, t: seq<Visit>)
    returns (f: Option<Fault>, trace: seq<Visit>)
    ensures (f, trace) == BasicStep(w, visit, child, v, depth, t)
    decreases child, 1
  {
    trace := t;
    if IsDir(v.info) {
      f, trace := WalkBasic(w, visit, child, v.path, depth + 1, trace);
      if f.Some? {
        return f, trace;
      }
    }
    if PassesQuery(w, v.info) {
      var s := visit(trace, v);
      trace := trace + [v];
      return FaultOf(s), trace;
    }
    return None, trace;
  }

  // ---------------------------------------------------------------------
  // walkDFS

  /** walkDFS from `node`: every directory child's subtree is walked while
      the children are buffered, then the buffer is filtered and visited. */
  function DfsWalk(w: WalkOpts, visit: Visitor, node: Node, path: Path, depth: nat, t: seq<Visit>)
    : (Option<Fault>, seq<Visit>)
    decreases node, 1, 0
  {
    if MaxDepthReached(w, depth) then (None, t)
    else if node.readErr.Some? then (Some(Raise(node.readErr.value)), t)
    else
      var (f, t1, buf) := DfsChildren(w, visit, node, path, depth, 0, t, []);
      if f.Some? then (f, t1) else VisitBuffered(w, visit, buf, t1)
  }

  /** iterateImmediateChildren with walkDFS's algorithm function, over the
      children of `dir` from the i-th on, `buf` holding the children
      delivered so far. */
  function DfsChildren(w: WalkOpts, visit: Visitor, dir: Node, path: Path, depth: nat, i: nat,
                       t: seq<Visit>, buf: seq<Visit>): (Option<Fault>, seq<Visit>, seq<Visit>)
    requires i <= |dir.children|
    decreases dir, 0, |dir.children| - i
  {
    if i == |dir.children| then (None, t, buf)
    else
      match DiscoverChild(w, path, dir.children[i])
      case Skip => DfsChildren(w, visit, dir, path, depth, i + 1, t, buf)
      case Abort(e) => (Some(Raise(e)), t, buf)
      case Deliver(v) =>
        var r := DfsStep(w, visit, dir.children[i], v, depth, t);
        if r.0.Some? then (r.0, r.1, buf)
        else DfsChildren(w, visit, dir, path, depth, i + 1, r.1, buf + [v])
  }

  /** walkDFS's algorithm function on a delivered child: a directory's
      subtree is walked one level deeper; the child is then buffered. */
  function DfsStep(w: WalkOpts, visit: Visitor, child: Node, v: Visit, depth: nat, t: seq<Visit>)
    : (Option<Fault>, seq<Visit>)
    decreases child, 2, 0
  {
    if IsDir(v.info) then DfsWalk(w, visit, child, v.path, depth + 1, t) else (None, t)
  }

  /** The second pass of walkDFS: filters and visits the buffered children in order. */
  function VisitBuffered(w: WalkOpts, visit: Visitor, buf: seq<Visit>, t: seq<Visit>): (Option<Fault>, seq<Visit>)
    decreases |buf|
  {
    if buf == [] then (None, t)
    else if !PassesQuery(w, buf[0].info) then VisitBuffered(w, visit, buf[1..], t)
    else
      var s := visit(t, buf[0]);
      if s.Nil? then VisitBuffered(w, visit, buf[1..], t + [buf[0]])
      else (FaultOf(s), t + [buf[0]])
  }

  /** The loop of walkDFS over its buffer. */
  method VisitAll(w: WalkOpts, visit: Visitor, buf: seq<Visit>, t: seq<Visit>)
    returns (f: Option<Fault>, trace: seq<Visit>)
    ensures (f, trace) == VisitBuffered(w, visit, buf, t)
  {
    trace := t;
    for i := 0 to |buf|
      invariant VisitBuffered(w, visit, buf[i..], trace) == VisitBuffered(w, visit, buf, t)
    {
      assert buf[i..][1..] == buf[i + 1..];
      if PassesQuery(w, buf[i].info) {
        var s := visit(trace, buf[i]);
        trace := trace + [buf[i]];
        if !s.Nil? {
          return FaultOf(s), trace;
        }
      }
    }
    assert buf[|buf|..] == [];
    return None, trace;
  }

  /** walkDFS: the discovery loop walks each directory child's subtree and
      buffers every delivered child; the buffer is visited last. */
  method WalkDfs(w: WalkOpts, visit: Visitor, node: Node, path: Path, depth: nat, t: seq<Visit>)
    returns (f: Option<Fault>, trace: seq<Visit>)
    ensures (f, trace) == DfsWalk(w, visit, node, path, depth, t)
    decreases node
  {
    if MaxDepthReached(w, depth) {
      return None, t;
    }
    if node.readErr.Some? {
      return Some(Raise(node.readErr.value)), t;
    }
    var kids := node.children;
    var children: seq<Visit> := [];
    trace := t;
    var i := 0;
    while i < |kids|
      invariant 0 <= i <= |kids|
      invariant DfsChildren(w, visit, node, path, depth, i, trace, children)
                == DfsChildren(w, visit, node, path, depth, 0, t, [])
    {
      var d := DiscoverChild(w, path, kids[i]);
      match d {
        case Skip =>
        case Abort(e) =>
          return Some(Raise(e)), trace;
        case Deliver(v) =>
          if IsDir(v.info) {
            var g;
            g, trace := WalkDfs(w, visit, kids[i], v.path, depth + 1, trace);
            if g.Some? {
              return g, trace;
            }
          }
          children := children + [v];
      }
      i := i + 1;
    }
    f, trace := VisitAll(w, visit, children, trace);
  }

  // ---------------------------------------------------------------------
  // Walk

  /** A configured walk: its options, the root's path and the tree below it. */
  datatype Walk = Walk(opts: WalkOpts, rootPath: Path, root: Node)

  /** Walk.Walk's handling of what the algorithm returns: ErrStopWalk is
      success, any other error is handed back. */
  function Finish(o: (Option<Fault>, seq<Visit>)): (r: (Option<Error>, seq<Visit>))
    ensures r.1 == o.1
    ensures r.0.None? <==> o.0.None? || o.0 == Some(StopWalk)
    ensures o.0.Some? && o.0.value.Raise? ==> r.0 == Some(o.0.value.e)
  {
    match o.0
    case None => (None, o.1)
    case Some(StopWalk) => (None, o.1)
    case Some(Raise(e)) => (Some(e), o.1)
  }

  /** Walk.Walk: the configured algorithm from the root at depth 0; an
      unknown algorithm fails without a visit. */
  function WalkSpec(w: Walk, visit: Visitor): (r: (Option<Error>, seq<Visit>))
    ensures w.opts.algorithm != AlgorithmBasic && w.opts.algorithm != AlgorithmDepthFirst
            ==> r == (Some(InvalidAlgorithm), [])
  {
    if w.opts.algorithm == AlgorithmBasic then Finish(BasicWalk(w.opts, visit, w.root, w.rootPath, 0, []))
    else if w.opts.algorithm == AlgorithmDepthFirst then Finish(DfsWalk(w.opts, visit, w.root, w.rootPath, 0, []))
    else (Some(InvalidAlgorithm), [])
  }

  /** Walk.Walk, running the algorithm's method. */
  method Run(w: Walk, visit: Visitor) returns (err: Option<Error>, trace: seq<Visit>)
    ensures (err, trace) == WalkSpec(w, visit)
  {
    var f;
    if w.opts.algorithm == AlgorithmBasic {
      f, trace := WalkBasic(w.opts, visit, w.root, w.rootPath, 0, []);
    } else if w.opts.algorithm == AlgorithmDepthFirst {
      f, trace := WalkDfs(w.opts, visit, w.root, w.rootPath, 0, []);
    } else {
      return Some(InvalidAlgorithm), [];
    }
    if f == Some(StopWalk) {
      err := None;
    } else if f.Some? {
      err := Some(f.value.e);
    } else {
      err := None;
    }
  }

  /** NewWalkWithOpts: a nil root or nil options are refused. */
  function NewWalkWithOpts(root: Option<Path>, fs: Node, opts: Option<WalkOpts>): (r: Result<Walk>)
    ensures root.None? ==> r == Err(NilRoot)
    ensures root.Some? && opts.None? ==> r == Err(NilOpts)
    ensures r.Ok? <==> root.Some? && opts.Some?
    ensures r.Ok? ==> r.value == Walk(opts.value, root.value, fs)
  {
    if root.None? then Err(NilRoot)
    else if opts.None? then Err(NilOpts)
    else Ok(Walk(opts.value, root.value, fs))
  }

  /** NewWalk: the defaults with the option functions applied in order. */
  method NewWalk(root: Option<Path>, fs: Node, opts: seq<WalkOptsFunc>) returns (r: Result<Walk>)
    ensures root.None? ==> r == Err(NilRoot)
    ensures root.Some? ==> r == Ok(Walk(ApplyAll(DefaultWalkOpts(), opts), root.value, fs))
  {
    var config := Configure(opts);
    r := NewWalkWithOpts(root, fs, Some(config));
  }
}
