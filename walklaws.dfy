// What the two walk algorithms promise: the first non-nil visitor result
// ends the walk, a walk that meets no error visits its nodes in a fixed
// order (post-order for walkBasic, subtrees first for walkDFS), both
// algorithms visit the same nodes, and the walks of the library's tests.

module WalkLaws {
  import opened Errors
  import opened WalkOptions
  import opened Walking

  // ---------------------------------------------------------------------
  // The first non-nil visitor result ends the walk

  /** The calls a walk appended to the trace `t`, ending in `t'` with
      result `f`: every call but the last returned nil (the last too when
      the walk succeeded), a last call that returned non-nil is the walk's
      result, and ErrStopWalk comes only from the visitor. */
  ghost predicate StopsAtFirstNonNil(visit: Visitor, t: seq<Visit>, f: Option<Fault>, t': seq<Visit>) {
    && |t| <= |t'| && t'[..|t|] == t
    && (forall k :: |t| <= k < |t'| - 1 ==> visit(t'[..k], t'[k]) == Nil)
    && (f.None? ==> forall k :: |t| <= k < |t'| ==> visit(t'[..k], t'[k]) == Nil)
    && (|t'| > |t| && visit(t'[..|t'| - 1], t'[|t'| - 1]) != Nil ==>
          f == FaultOf(visit(t'[..|t'| - 1], t'[|t'| - 1])))
    && (f == Some(StopWalk) ==> |t'| > |t| && visit(t'[..|t'| - 1], t'[|t'| - 1]) == Stop)
  }

  /** A successful stretch of calls followed by another stretch. */
  lemma Then(visit: Visitor, t: seq<Visit>, t1: seq<Visit>, f: Option<Fault>, t2: seq<Visit>)
    requires StopsAtFirstNonNil(visit, t, None, t1)
    requires StopsAtFirstNonNil(visit, t1, f, t2)
    ensures StopsAtFirstNonNil(visit, t, f, t2)
  {
    assert t2[..|t|] == t1[..|t|];
    forall k | |t| <= k < |t1|
      ensures t2[..k] == t1[..k] && t2[k] == t1[k]
    {
      assert t2[..|t1|][..k] == t2[..k];
    }
    if |t2| == |t1| && |t1| > |t| {
      assert visit(t1[..|t1| - 1], t1[|t1| - 1]) == Nil;
    }
  }

  /** One call of the visitor. */
  lemma CallOnce(visit: Visitor, t: seq<Visit>, v: Visit)
    ensures StopsAtFirstNonNil(visit, t, FaultOf(visit(t, v)), t + [v])
  {
    assert (t + [v])[..|t|] == t;
  }

  lemma {:induction false} BasicStops(w: WalkOpts, visit: Visitor, node: Node, path: Path, depth: nat, t: seq<Visit>)
    ensures var r := BasicWalk(w, visit, node, path, depth, t);
            StopsAtFirstNonNil(visit, t, r.0, r.1)
    decreases node, 1, 0
  {
    if !MaxDepthReached(w, depth) && node.readErr.None? {
      BasicChildrenStop(w, visit, node, path, depth, 0, t);
    }
  }

  lemma {:induction false} BasicChildrenStop(w: WalkOpts, visit: Visitor, dir: Node, path: Path, depth: nat, i: nat, t: seq<Visit>)
    requires i <= |dir.children|
    ensures var r := BasicChildren(w, visit, dir, path, depth, i, t);
            StopsAtFirstNonNil(visit, t, r.0, r.1)
    decreases dir, 0, |dir.children| - i
  {
    if i < |dir.children| {
      match DiscoverChild(w, path, dir.children[i])
      case Skip =>
        BasicChildrenStop(w, visit, dir, path, depth, i + 1, t);
      case Abort(e) =>
      case Deliver(v) =>
        var r := BasicStep(w, visit, dir.children[i], v, depth, t);
        BasicStepStops(w, visit, dir.children[i], v, depth, t);
        if r.0.None? {
          BasicChildrenStop(w, visit, dir, path, depth, i + 1, r.1);
          var r' := BasicChildren(w, visit, dir, path, depth, i + 1, r.1);
          Then(visit, t, r.1, r'.0, r'.1);
        }
    }
  }

  lemma {:induction false} BasicStepStops(w: WalkOpts, visit: Visitor, child: Node, v: Visit, depth: nat, t: seq<Visit>)
    ensures var r := BasicStep(w, visit, child, v, depth, t);
            StopsAtFirstNonNil(visit, t, r.0, r.1)
    decreases child, 2, 0
  {
    var (f, t1) := if IsDir(v.info) then BasicWalk(w, visit, child, v.path, depth + 1, t) else (None, t);
    if IsDir(v.info) {
      BasicStops(w, visit, child, v.path, depth + 1, t);
    }
    if f.None? && PassesQuery(w, v.info) {
      CallOnce(visit, t1, v);
      Then(visit, t, t1, FaultOf(visit(t1, v)), t1 + [v]);
    }
  }

  lemma {:induction false} VisitBufferedStops(w: WalkOpts, visit: Visitor, buf: seq<Visit>, t: seq<Visit>)
    ensures var r := VisitBuffered(w, visit, buf, t);
            StopsAtFirstNonNil(visit, t, r.0, r.1)
    decreases |buf|
  {
    if buf != [] {
      if !PassesQuery(w, buf[0].info) {
        VisitBufferedStops(w, visit, buf[1..], t);
      } else {
        CallOnce(visit, t, buf[0]);
        if visit(t, buf[0]).Nil? {
          VisitBufferedStops(w, visit, buf[1..], t + [buf[0]]);
          var r := VisitBuffered(w, visit, buf[1..], t + [buf[0]]);
          Then(visit, t, t + [buf[0]], r.0, r.1);
        }
      }
    }
  }

  lemma {:induction false} DfsStops(w: WalkOpts, visit: Visitor, node: Node, path: Path, depth: nat, t: seq<Visit>)
    ensures var r := DfsWalk(w, visit, node, path, depth, t);
            StopsAtFirstNonNil(visit, t, r.0, r.1)
    decreases node, 1, 0
  {
    if !MaxDepthReached(w, depth) && node.readErr.None? {
      DfsChildrenStop(w, visit, node, path, depth, 0, t, []);
      var (f, t1, buf) := DfsChildren(w, visit, node, path, depth, 0, t, []);
      if f.None? {
        VisitBufferedStops(w, visit, buf, t1);
        var r := VisitBuffered(w, visit, buf, t1);
        Then(visit, t, t1, r.0, r.1);
      }
    }
  }

  lemma {:induction false} DfsChildrenStop(w: WalkOpts, visit: Visitor, dir: Node, path: Path, depth: nat, i: nat,
                                           t: seq<Visit>, buf: seq<Visit>)
    requires i <= |dir.children|
    ensures var r := DfsChildren(w, visit, dir, path, depth, i, t, buf);
            StopsAtFirstNonNil(visit, t, r.0, r.1)
    decreases dir, 0, |dir.children| - i
  {
    if i < |dir.children| {
      match DiscoverChild(w, path, dir.children[i])
      case Skip =>
        DfsChildrenStop(w, visit, dir, path, depth, i + 1, t, buf);
      case Abort(e) =>
      case Deliver(v) =>
        var r := DfsStep(w, visit, dir.children[i], v, depth, t);
        if IsDir(v.info) {
          DfsStops(w, visit, dir.children[i], v.path, depth + 1, t);
        }
        if r.0.None? {
          DfsChildrenStop(w, visit, dir, path, depth, i + 1, r.1, buf + [v]);
          var r' := DfsChildren(w, visit, dir, path, depth, i + 1, r.1, buf + [v]);
          Then(visit, t, r.1, r'.0, r'.1);
        }
    }
  }

  /** Walk.Walk stops at the first non-nil visitor result: ErrStopWalk
      becomes success, any other error is the walk's result, and no call
      follows. */
  lemma WalkStopsAtFirstNonNil(w: Walk, visit: Visitor)
    ensures var (err, trace) := WalkSpec(w, visit);
            && (forall k :: 0 <= k < |trace| - 1 ==> visit(trace[..k], trace[k]) == Nil)
            && (|trace| > 0 && visit(trace[..|trace| - 1], trace[|trace| - 1]) == Stop ==> err.None?)
            && (|trace| > 0 && visit(trace[..|trace| - 1], trace[|trace| - 1]).Fail? ==>
                  err == Some(visit(trace[..|trace| - 1], trace[|trace| - 1]).e))
  {
    if w.opts.algorithm == AlgorithmBasic {
      BasicStops(w.opts, visit, w.root, w.rootPath, 0, []);
    } else if w.opts.algorithm == AlgorithmDepthFirst {
      DfsStops(w.opts, visit, w.root, w.rootPath, 0, []);
    }
  }

  /** A visitor that returns non-nil on its first call is called once at most. */
  lemma FirstCallDecides(w: Walk, visit: Visitor)
    requires forall v :: visit([], v) != Nil
    ensures |WalkSpec(w, visit).1| <= 1
  {
    WalkStopsAtFirstNonNil(w, visit);
    var trace := WalkSpec(w, visit).1;
    assert trace[..0] == [];
  }

  // ---------------------------------------------------------------------
  // Walks that meet no error

  /** The visitor that always returns nil. */
  ghost predicate Quiet(visit: Visitor) {
    forall h, v :: visit(h, v) == Nil
  }

  /** Every directory the walk reads below `node` lists without error and
      every child it probes is skipped or delivered. */
  ghost predicate Readable(w: WalkOpts, node: Node, path: Path, depth: nat)
    decreases node, 1, 0
  {
    MaxDepthReached(w, depth) || (node.readErr.None? && ReadableFrom(w, node, path, depth, 0))
  }

  ghost predicate ReadableFrom(w: WalkOpts, dir: Node, path: Path, depth: nat, i: nat)
    requires i <= |dir.children|
    decreases dir, 0, |dir.children| - i
  {
    i == |dir.children|
    || (var d := DiscoverChild(w, path, dir.children[i]);
        && !d.Abort?
        && (d.Deliver? && IsDir(d.v.info) ==> Readable(w, dir.children[i], d.v.path, depth + 1))
        && ReadableFrom(w, dir, path, depth, i + 1))
  }

  /** The visits of walkBasic below `node`: for each delivered child in
      listing order, the visits of its subtree when it is a directory, then
      the child itself when it passes the filter. */
  function BasicOrder(w: WalkOpts, node: Node, path: Path, depth: nat): seq<Visit>
    decreases node, 1, 0
  {
    if MaxDepthReached(w, depth) || node.readErr.Some? then []
    else BasicOrderFrom(w, node, path, depth, 0)
  }

  function BasicOrderFrom(w: WalkOpts, dir: Node, path: Path, depth: nat, i: nat): seq<Visit>
    requires i <= |dir.children|
    decreases dir, 0, |dir.children| - i
  {
    if i == |dir.children| then []
    else
      var d := DiscoverChild(w, path, dir.children[i]);
      (if d.Deliver? then BasicOrderOf(w, dir.children[i], d.v, depth) else [])
      + BasicOrderFrom(w, dir, path, depth, i + 1)
  }

  /** The visits walkBasic makes for one delivered child. */
  function BasicOrderOf(w: WalkOpts, child: Node, v: Visit, depth: nat): seq<Visit>
    decreases child, 2, 0
  {
    (if IsDir(v.info) then BasicOrder(w, child, v.path, depth + 1) else [])
    + (if PassesQuery(w, v.info) then [v] else [])
  }

  /** The children of `dir` from the i-th on that are delivered, in order. */
  function Delivered(w: WalkOpts, dir: Node, path: Path, i: nat): seq<Visit>
    requires i <= |dir.children|
    decreases |dir.children| - i
  {
    if i == |dir.children| then []
    else
      var d := DiscoverChild(w, path, dir.children[i]);
      (if d.Deliver? then [d.v] else []) + Delivered(w, dir, path, i + 1)
  }

  /** The visits that pass the filter, in order. */
  function Passing(w: WalkOpts, vs: seq<Visit>): seq<Visit>
    decreases |vs|
  {
    if vs == [] then []
    else (if PassesQuery(w, vs[0].info) then [vs[0]] else []) + Passing(w, vs[1..])
  }

  /** The visits of walkDFS below `node`: the subtrees of all directory
      children first, in listing order, then the node's own children that
      pass the filter, in listing order. */
  function DfsOrder(w: WalkOpts, node: Node, path: Path, depth: nat): seq<Visit>
    decreases node, 1, 0
  {
    if MaxDepthReached(w, depth) || node.readErr.Some? then []
    else DfsSubtrees(w, node, path, depth, 0) + Passing(w, Delivered(w, node, path, 0))
  }

  function DfsSubtrees(w: WalkOpts, dir: Node, path: Path, depth: nat, i: nat): seq<Visit>
    requires i <= |dir.children|
    decreases dir, 0, |dir.children| - i
  {
    if i == |dir.children| then []
    else
      var d := DiscoverChild(w, path, dir.children[i]);
      (if d.Deliver? then DfsSubtreeOf(w, dir.children[i], d.v, depth) else [])
      + DfsSubtrees(w, dir, path, depth, i + 1)
  }

  /** The visits walkDFS makes below one delivered child. */
  function DfsSubtreeOf(w: WalkOpts, child: Node, v: Visit, depth: nat): seq<Visit>
    decreases child, 2, 0
  {
    if IsDir(v.info) then DfsOrder(w, child, v.path, depth + 1) else []
  }

  /** walkBasic with a nil visitor over a readable tree succeeds and visits
      exactly BasicOrder. */
  lemma {:induction false} BasicFollowsOrder(w: WalkOpts, visit: Visitor, node: Node, path: Path, depth: nat, t: seq<Visit>)
    requires Quiet(visit) && Readable(w, node, path, depth)
    ensures BasicWalk(w, visit, node, path, depth, t) == (None, t + BasicOrder(w, node, path, depth))
    decreases node, 1, 0
  {
    if !MaxDepthReached(w, depth) {
      BasicChildrenFollowOrder(w, visit, node, path, depth, 0, t);
    } else {
      assert t + [] == t;
    }
  }

  lemma {:induction false} BasicChildrenFollowOrder(w: WalkOpts, visit: Visitor, dir: Node, path: Path, depth: nat, i: nat, t: seq<Visit>)
    requires i <= |dir.children|
    requires Quiet(visit) && ReadableFrom(w, dir, path, depth, i)
    ensures BasicChildren(w, visit, dir, path, depth, i, t) == (None, t + BasicOrderFrom(w, dir, path, depth, i))
    decreases dir, 0, |dir.children| - i
  {
    if i == |dir.children| {
      assert t + [] == t;
    } else {
      var d := DiscoverChild(w, path, dir.children[i]);
      var rest := BasicOrderFrom(w, dir, path, depth, i + 1);
      if d.Skip? {
        BasicChildrenFollowOrder(w, visit, dir, path, depth, i + 1, t);
        assert [] + rest == rest;
      } else {
        var step := BasicOrderOf(w, dir.children[i], d.v, depth);
        BasicStepFollowsOrder(w, visit, dir.children[i], d.v, depth, t);
        BasicChildrenFollowOrder(w, visit, dir, path, depth, i + 1, t + step);
        Assoc(t, step, rest);
      }
    }
  }

  lemma {:induction false} BasicStepFollowsOrder(w: WalkOpts, visit: Visitor, child: Node, v: Visit, depth: nat, t: seq<Visit>)
    requires Quiet(visit)
    requires IsDir(v.info) ==> Readable(w, child, v.path, depth + 1)
    ensures BasicStep(w, visit, child, v, depth, t) == (None, t + BasicOrderOf(w, child, v, depth))
    decreases child, 2, 0
  {
    var sub := if IsDir(v.info) then BasicOrder(w, child, v.path, depth + 1) else [];
    var own := if PassesQuery(w, v.info) then [v] else [];
    if IsDir(v.info) {
      BasicFollowsOrder(w, visit, child, v.path, depth + 1, t);
    } else {
      assert t + [] == t;
    }
    assert visit(t + sub, v) == Nil;
    Assoc(t, sub, own);
    assert (t + sub) + [] == t + sub;
  }

  lemma Assoc(a: seq<Visit>, b: seq<Visit>, c: seq<Visit>)
    ensures (a + b) + c == a + (b + c)
  {
  }

  /** The second pass of walkDFS with a nil visitor visits the passing
      buffered children in order. */
  lemma {:induction false} VisitBufferedQuiet(w: WalkOpts, visit: Visitor, buf: seq<Visit>, t: seq<Visit>)
    requires Quiet(visit)
    ensures VisitBuffered(w, visit, buf, t) == (None, t + Passing(w, buf))
    decreases |buf|
  {
    if buf == [] {
      assert t + [] == t;
    } else if !PassesQuery(w, buf[0].info) {
      VisitBufferedQuiet(w, visit, buf[1..], t);
      assert [] + Passing(w, buf[1..]) == Passing(w, buf[1..]);
    } else {
      assert visit(t, buf[0]) == Nil;
      VisitBufferedQuiet(w, visit, buf[1..], t + [buf[0]]);
      Assoc(t, [buf[0]], Passing(w, buf[1..]));
    }
  }

  /** walkDFS with a nil visitor over a readable tree succeeds and visits
      exactly DfsOrder. */
  lemma {:induction false} DfsFollowsOrder(w: WalkOpts, visit: Visitor, node: Node, path: Path, depth: nat, t: seq<Visit>)
    requires Quiet(visit) && Readable(w, node, path, depth)
    ensures DfsWalk(w, visit, node, path, depth, t) == (None, t + DfsOrder(w, node, path, depth))
    decreases node, 1, 0
  {
    if !MaxDepthReached(w, depth) {
      var subs := DfsSubtrees(w, node, path, depth, 0);
      var buf := Delivered(w, node, path, 0);
      DfsChildrenFollowOrder(w, visit, node, path, depth, 0, t, []);
      assert [] + buf == buf;
      VisitBufferedQuiet(w, visit, buf, t + subs);
      Assoc(t, subs, Passing(w, buf));
    } else {
      assert t + [] == t;
    }
  }

  lemma {:induction false} DfsChildrenFollowOrder(w: WalkOpts, visit: Visitor, dir: Node, path: Path, depth: nat, i: nat,
                                                  t: seq<Visit>, buf: seq<Visit>)
    requires i <= |dir.children|
    requires Quiet(visit) && ReadableFrom(w, dir, path, depth, i)
    ensures DfsChildren(w, visit, dir, path, depth, i, t, buf)
            == (None, t + DfsSubtrees(w, dir, path, depth, i), buf + Delivered(w, dir, path, i))
    decreases dir, 0, |dir.children| - i, 1
  {
    if i == |dir.children| {
      assert t + [] == t && buf + [] == buf;
    } else {
      if DiscoverChild(w, path, dir.children[i]).Skip? {
        DfsChildrenFollowOrder(w, visit, dir, path, depth, i + 1, t, buf);
        PassOver(w, dir, path, depth, i);
      } else {
        DfsDeliveredFollowsOrder(w, visit, dir, path, depth, i, t, buf);
      }
    }
  }

  /** The step of DfsChildrenFollowOrder at a delivered child. */
  lemma {:induction false} DfsDeliveredFollowsOrder(w: WalkOpts, visit: Visitor, dir: Node, path: Path, depth: nat, i: nat,
                                                    t: seq<Visit>, buf: seq<Visit>)
    requires i < |dir.children| && DiscoverChild(w, path, dir.children[i]).Deliver?
    requires Quiet(visit) && ReadableFrom(w, dir, path, depth, i)
    ensures DfsChildren(w, visit, dir, path, depth, i, t, buf)
            == (None, t + DfsSubtrees(w, dir, path, depth, i), buf + Delivered(w, dir, path, i))
    decreases dir, 0, |dir.children| - i, 0
  {
    var v := DiscoverChild(w, path, dir.children[i]).v;
    var sub := DfsSubtreeOf(w, dir.children[i], v, depth);
    DfsStepFollowsOrder(w, visit, dir.children[i], v, depth, t);
    DfsChildrenFollowOrder(w, visit, dir, path, depth, i + 1, t + sub, buf + [v]);
    PassThrough(w, dir, path, depth, i);
    Assoc(t, sub, DfsSubtrees(w, dir, path, depth, i + 1));
    Assoc(buf, [v], Delivered(w, dir, path, i + 1));
  }

  lemma {:induction false} DfsStepFollowsOrder(w: WalkOpts, visit: Visitor, child: Node, v: Visit, depth: nat, t: seq<Visit>)
    requires Quiet(visit)
    requires IsDir(v.info) ==> Readable(w, child, v.path, depth + 1)
    ensures DfsStep(w, visit, child, v, depth, t) == (None, t + DfsSubtreeOf(w, child, v, depth))
    decreases child, 2, 0
  {
    if IsDir(v.info) {
      DfsFollowsOrder(w, visit, child, v.path, depth + 1, t);
    } else {
      assert t + [] == t;
    }
  }

  /** Walk.Walk with a nil visitor over a readable tree succeeds, and
      visits in the order of the configured algorithm. */
  lemma WalkFollowsOrder(w: Walk, visit: Visitor)
    requires Quiet(visit) && Readable(w.opts, w.root, w.rootPath, 0)
    ensures w.opts.algorithm == AlgorithmBasic ==>
              WalkSpec(w, visit) == (None, BasicOrder(w.opts, w.root, w.rootPath, 0))
    ensures w.opts.algorithm == AlgorithmDepthFirst ==>
              WalkSpec(w, visit) == (None, DfsOrder(w.opts, w.root, w.rootPath, 0))
  {
    if w.opts.algorithm == AlgorithmBasic {
      BasicFollowsOrder(w.opts, visit, w.root, w.rootPath, 0, []);
      assert [] + BasicOrder(w.opts, w.root, w.rootPath, 0) == BasicOrder(w.opts, w.root, w.rootPath, 0);
    } else if w.opts.algorithm == AlgorithmDepthFirst {
      DfsFollowsOrder(w.opts, visit, w.root, w.rootPath, 0, []);
      assert [] + DfsOrder(w.opts, w.root, w.rootPath, 0) == DfsOrder(w.opts, w.root, w.rootPath, 0);
    }
  }

  /** Both algorithms visit the same nodes, each as often, in different orders. */
  lemma {:induction false} SameVisits(w: WalkOpts, node: Node, path: Path, depth: nat)
    ensures multiset(BasicOrder(w, node, path, depth)) == multiset(DfsOrder(w, node, path, depth))
    decreases node, 1, 0
  {
    if !MaxDepthReached(w, depth) && node.readErr.None? {
      SameVisitsFrom(w, node, path, depth, 0);
    }
  }

  lemma {:induction false} SameVisitsFrom(w: WalkOpts, dir: Node, path: Path, depth: nat, i: nat)
    requires i <= |dir.children|
    ensures multiset(BasicOrderFrom(w, dir, path, depth, i))
            == multiset(DfsSubtrees(w, dir, path, depth, i)) + multiset(Passing(w, Delivered(w, dir, path, i)))
    decreases dir, 0, |dir.children| - i, 1
  {
    if i == |dir.children| {
      assert Passing(w, []) == [];
    } else if DiscoverChild(w, path, dir.children[i]).Deliver? {
      SameVisitsDelivered(w, dir, path, depth, i);
    } else {
      SameVisitsSkipped(w, dir, path, depth, i);
    }
  }

  /** The step of SameVisitsFrom at a child that is not delivered. */
  lemma {:induction false} SameVisitsSkipped(w: WalkOpts, dir: Node, path: Path, depth: nat, i: nat)
    requires i < |dir.children| && !DiscoverChild(w, path, dir.children[i]).Deliver?
    ensures multiset(BasicOrderFrom(w, dir, path, depth, i))
            == multiset(DfsSubtrees(w, dir, path, depth, i)) + multiset(Passing(w, Delivered(w, dir, path, i)))
    decreases dir, 0, |dir.children| - i, 0
  {
    SameVisitsFrom(w, dir, path, depth, i + 1);
    PassOver(w, dir, path, depth, i);
  }

  /** A delivered child adds its own visits in front of the later ones,
      in walkBasic's order, in walkDFS's subtrees and in its buffer. */
  lemma PassThrough(w: WalkOpts, dir: Node, path: Path, depth: nat, i: nat)
    requires i < |dir.children| && DiscoverChild(w, path, dir.children[i]).Deliver?
    ensures var v := DiscoverChild(w, path, dir.children[i]).v;
            && BasicOrderFrom(w, dir, path, depth, i)
               == BasicOrderOf(w, dir.children[i], v, depth) + BasicOrderFrom(w, dir, path, depth, i + 1)
            && DfsSubtrees(w, dir, path, depth, i)
               == DfsSubtreeOf(w, dir.children[i], v, depth) + DfsSubtrees(w, dir, path, depth, i + 1)
            && Delivered(w, dir, path, i) == [v] + Delivered(w, dir, path, i + 1)
  {
    SubtreesThrough(w, dir, path, depth, i);
    DeliveredThrough(w, dir, path, i);
  }

  lemma SubtreesThrough(w: WalkOpts, dir: Node, path: Path, depth: nat, i: nat)
    requires i < |dir.children| && DiscoverChild(w, path, dir.children[i]).Deliver?
    ensures DfsSubtrees(w, dir, path, depth, i)
            == DfsSubtreeOf(w, dir.children[i], DiscoverChild(w, path, dir.children[i]).v, depth)
               + DfsSubtrees(w, dir, path, depth, i + 1)
  {
  }

  lemma DeliveredThrough(w: WalkOpts, dir: Node, path: Path, i: nat)
    requires i < |dir.children| && DiscoverChild(w, path, dir.children[i]).Deliver?
    ensures Delivered(w, dir, path, i) == [DiscoverChild(w, path, dir.children[i]).v] + Delivered(w, dir, path, i + 1)
  {
  }

  /** A child that is not delivered adds nothing to either order. */
  lemma PassOver(w: WalkOpts, dir: Node, path: Path, depth: nat, i: nat)
    requires i < |dir.children| && !DiscoverChild(w, path, dir.children[i]).Deliver?
    ensures BasicOrderFrom(w, dir, path, depth, i) == BasicOrderFrom(w, dir, path, depth, i + 1)
    ensures DfsSubtrees(w, dir, path, depth, i) == DfsSubtrees(w, dir, path, depth, i + 1)
    ensures Delivered(w, dir, path, i) == Delivered(w, dir, path, i + 1)
  {
    assert [] + BasicOrderFrom(w, dir, path, depth, i + 1) == BasicOrderFrom(w, dir, path, depth, i + 1);
    assert [] + DfsSubtrees(w, dir, path, depth, i + 1) == DfsSubtrees(w, dir, path, depth, i + 1);
    assert [] + Delivered(w, dir, path, i + 1) == Delivered(w, dir, path, i + 1);
  }

  /** The step of SameVisitsFrom at a delivered child. */
  lemma {:induction false} SameVisitsDelivered(w: WalkOpts, dir: Node, path: Path, depth: nat, i: nat)
    requires i < |dir.children| && DiscoverChild(w, path, dir.children[i]).Deliver?
    ensures multiset(BasicOrderFrom(w, dir, path, depth, i))
            == multiset(DfsSubtrees(w, dir, path, depth, i)) + multiset(Passing(w, Delivered(w, dir, path, i)))
    decreases dir, 0, |dir.children| - i, 0
  {
    var child := dir.children[i];
    var v := DiscoverChild(w, path, child).v;
    var basic := BasicOrderFrom(w, dir, path, depth, i + 1);
    var subs := DfsSubtrees(w, dir, path, depth, i + 1);
    var later := Delivered(w, dir, path, i + 1);
    var own := if PassesQuery(w, v.info) then [v] else [];
    SameVisitsFrom(w, dir, path, depth, i + 1);
    SameVisitsOf(w, child, v, depth);
    PassingCons(w, v, later);
    PassThrough(w, dir, path, depth, i);
    Regroup(BasicOrderOf(w, child, v, depth), DfsSubtreeOf(w, child, v, depth), own, basic, subs, Passing(w, later));
  }

  lemma {:induction false} SameVisitsOf(w: WalkOpts, child: Node, v: Visit, depth: nat)
    ensures multiset(BasicOrderOf(w, child, v, depth))
            == multiset(DfsSubtreeOf(w, child, v, depth)) + multiset(if PassesQuery(w, v.info) then [v] else [])
    decreases child, 2, 0
  {
    if IsDir(v.info) {
      SameVisits(w, child, v.path, depth + 1);
    }
  }

  /** Multiset bookkeeping for SameVisitsFrom's step. */
  lemma Regroup(x: seq<Visit>, y: seq<Visit>, own: seq<Visit>, basic: seq<Visit>, subs: seq<Visit>, pass: seq<Visit>)
    requires multiset(x) == multiset(y) + multiset(own)
    requires multiset(basic) == multiset(subs) + multiset(pass)
    ensures multiset(x + basic) == multiset(y + subs) + multiset(own + pass)
  {
  }

  lemma PassingCons(w: WalkOpts, v: Visit, vs: seq<Visit>)
    ensures Passing(w, [v] + vs) == (if PassesQuery(w, v.info) then [v] else []) + Passing(w, vs)
  {
    assert ([v] + vs)[1..] == vs;
  }

  // ---------------------------------------------------------------------
  // Every node once, and the depth limit

  /** A tree every node of which the default walk reaches: each child is
      listed under a name of its own, answers Lstat with metadata, and each
      directory lists without error. */
  ghost predicate Plain(node: Node)
    decreases node, 0
  {
    forall k :: 0 <= k < |node.children| ==> PlainChild(node.children[k])
  }

  ghost predicate PlainChild(c: Node)
    decreases c, 1
  {
    && c.name != "" && c.name != "." && c.lstat.info.Some?
    && (IsDir(c.lstat.info.value) ==> c.readErr.None? && Plain(c))
  }

  /** The number of nodes below `node` reached without following links:
      every child, and below each directory child its own nodes. */
  function Size(node: Node): nat
    decreases node, 1
  {
    SizeFrom(node, 0)
  }

  function SizeFrom(dir: Node, i: nat): nat
    requires i <= |dir.children|
    decreases dir, 0, |dir.children| - i
  {
    if i == |dir.children| then 0
    else
      var c := dir.children[i];
      1 + (if c.lstat.info.Some? && IsDir(c.lstat.info.value) then Size(c) else 0) + SizeFrom(dir, i + 1)
  }

  /** Options under which the walk reaches and visits every node: no depth
      limit, links not followed, no size bounds, every kind visited. The
      defaults are such options. */
  predicate Unrestricted(w: WalkOpts) {
    && w.depth < 0 && !w.followSymlinks
    && w.minimumFileSize < 0 && w.maximumFileSize < 0
    && w.visitFiles && w.visitDirs && w.visitSymlinks
  }

  /** Under unrestricted options, each algorithm's order holds one visit per
      node below the root of a tree whose every node is reached. */
  lemma VisitsEveryNodeOnce(w: WalkOpts, node: Node, path: Path, depth: nat)
    requires Unrestricted(w) && node.readErr.None? && Plain(node)
    ensures |BasicOrder(w, node, path, depth)| == Size(node)
    ensures |DfsOrder(w, node, path, depth)| == Size(node)
  {
    BasicCount(w, node, path, depth);
    SameVisits(w, node, path, depth);
    assert |multiset(DfsOrder(w, node, path, depth))| == |DfsOrder(w, node, path, depth)|;
  }

  lemma {:induction false} BasicCount(w: WalkOpts, node: Node, path: Path, depth: nat)
    requires Unrestricted(w) && node.readErr.None? && Plain(node)
    ensures |BasicOrder(w, node, path, depth)| == Size(node)
    decreases node, 1
  {
    assert !MaxDepthReached(w, depth);
    BasicCountFrom(w, node, path, depth, 0);
  }

  lemma {:induction false} BasicCountFrom(w: WalkOpts, dir: Node, path: Path, depth: nat, i: nat)
    requires Unrestricted(w) && i <= |dir.children| && Plain(dir)
    ensures |BasicOrderFrom(w, dir, path, depth, i)| == SizeFrom(dir, i)
    decreases dir, 0, |dir.children| - i
  {
    if i < |dir.children| {
      var c := dir.children[i];
      var d := PlainDelivered(w, path, c);
      assert PassesQuery(w, d.v.info);
      if IsDir(d.v.info) {
        BasicCount(w, c, d.v.path, depth + 1);
      }
      BasicCountFrom(w, dir, path, depth, i + 1);
    }
  }

  /** Under unrestricted options a child of a tree whose every node is
      reached is delivered with its Lstat answer. */
  lemma PlainDelivered(w: WalkOpts, path: Path, c: Node) returns (d: Discovery)
    requires Unrestricted(w) && PlainChild(c)
    ensures d == DiscoverChild(w, path, c) == Deliver(Visit(path + [c.name], c.lstat.info.value, c.lstat.err))
  {
    d := DiscoverChild(w, path, c);
  }

  /** Under unrestricted options, a tree whose every node is reached is
      readable: no directory fails to list and no child aborts. */
  lemma {:induction false} PlainReadable(w: WalkOpts, node: Node, path: Path, depth: nat)
    requires Unrestricted(w) && node.readErr.None? && Plain(node)
    ensures Readable(w, node, path, depth)
    decreases node, 1
  {
    PlainReadableFrom(w, node, path, depth, 0);
  }

  lemma {:induction false} PlainReadableFrom(w: WalkOpts, dir: Node, path: Path, depth: nat, i: nat)
    requires Unrestricted(w) && i <= |dir.children| && Plain(dir)
    ensures ReadableFrom(w, dir, path, depth, i)
    decreases dir, 0, |dir.children| - i
  {
    if i < |dir.children| {
      var c := dir.children[i];
      var d := PlainDelivered(w, path, c);
      if IsDir(d.v.info) {
        PlainReadable(w, c, d.v.path, depth + 1);
      }
      PlainReadableFrom(w, dir, path, depth, i + 1);
    }
  }

  /** With a depth limit, no visit lies more than depth + 1 levels below the
      root: the root's children are visited at depth 0, and a directory at
      the limit is not read. */
  lemma VisitsWithinDepth(w: WalkOpts, node: Node, path: Path)
    requires w.depth >= 0
    ensures forall v :: v in BasicOrder(w, node, path, 0) ==> |v.path| <= |path| + w.depth + 1
    ensures forall v :: v in DfsOrder(w, node, path, 0) ==> |v.path| <= |path| + w.depth + 1
  {
    DepthBound(w, node, path, 0);
    SameVisits(w, node, path, 0);
    forall v | v in DfsOrder(w, node, path, 0) ensures |v.path| <= |path| + w.depth + 1 {
      assert v in multiset(DfsOrder(w, node, path, 0));
      assert v in multiset(BasicOrder(w, node, path, 0));
    }
  }

  lemma {:induction false} DepthBound(w: WalkOpts, node: Node, path: Path, depth: nat)
    requires w.depth >= 0
    ensures forall v :: v in BasicOrder(w, node, path, depth) ==> |v.path| + depth <= |path| + w.depth + 1
    decreases node, 1
  {
    if !MaxDepthReached(w, depth) && node.readErr.None? {
      DepthBoundFrom(w, node, path, depth, 0);
    }
  }

  lemma {:induction false} DepthBoundFrom(w: WalkOpts, dir: Node, path: Path, depth: nat, i: nat)
    requires w.depth >= 0 && !MaxDepthReached(w, depth) && i <= |dir.children|
    ensures forall v :: v in BasicOrderFrom(w, dir, path, depth, i) ==> |v.path| + depth <= |path| + w.depth + 1
    decreases dir, 0, |dir.children| - i
  {
    if i < |dir.children| {
      var c := dir.children[i];
      var d := DiscoverChild(w, path, c);
      if d.Deliver? {
        DeliveredOneDeeper(w, path, c);
        if IsDir(d.v.info) {
          DepthBound(w, c, d.v.path, depth + 1);
        }
      }
      DepthBoundFrom(w, dir, path, depth, i + 1);
    }
  }

  /** A delivered child's path is one element longer than its parent's. */
  lemma DeliveredOneDeeper(w: WalkOpts, parent: Path, child: Node)
    requires DiscoverChild(w, parent, child).Deliver?
    ensures |DiscoverChild(w, parent, child).v.path| == |parent| + 1
  {
  }

  // ---------------------------------------------------------------------
  // Every walk visits a prefix of its order

  /** `r` is the trace `t` followed by a prefix of `order`. */
  ghost predicate ExtendsBy(t: seq<Visit>, r: seq<Visit>, order: seq<Visit>) {
    |t| <= |r| && r[..|t|] == t && r[|t|..] <= order
  }

  lemma ExtendsExactly(t: seq<Visit>, a: seq<Visit>)
    ensures ExtendsBy(t, t + a, a)
  {
    assert (t + a)[..|t|] == t && (t + a)[|t|..] == a;
  }

  lemma ExtendsNothing(t: seq<Visit>, a: seq<Visit>)
    ensures ExtendsBy(t, t, a)
  {
    assert t[..|t|] == t && t[|t|..] == [];
  }

  lemma ExtendsMore(t: seq<Visit>, r: seq<Visit>, a: seq<Visit>, b: seq<Visit>)
    requires ExtendsBy(t, r, a)
    ensures ExtendsBy(t, r, a + b)
  {
    var x := r[|t|..];
    assert (a + b)[..|x|] == a[..|x|];
  }

  lemma ExtendsThen(t: seq<Visit>, a: seq<Visit>, r: seq<Visit>, b: seq<Visit>)
    requires ExtendsBy(t + a, r, b)
    ensures ExtendsBy(t, r, a + b)
  {
    var n := |t + a|;
    assert r[..|t|] == r[..n][..|t|] == (t + a)[..|t|] == t;
    var x := r[n..];
    assert r[|t|..] == r[|t|..n] + x;
    assert r[|t|..n] == r[..n][|t|..] == (t + a)[|t|..] == a;
    assert (a + b)[..|a| + |x|] == a + b[..|x|];
  }

  /** Whatever the visitor answers and whatever the tree holds, walkBasic
      appends a prefix of BasicOrder to the trace, and all of it when it
      ends without error: pruning, an unreadable directory, an aborting
      child or a non-nil visitor result only cut the order short. */
  lemma {:induction false} BasicWithinOrder(w: WalkOpts, visit: Visitor, node: Node, path: Path, depth: nat, t: seq<Visit>)
    ensures var r := BasicWalk(w, visit, node, path, depth, t);
            && ExtendsBy(t, r.1, BasicOrder(w, node, path, depth))
            && (r.0.None? ==> r.1 == t + BasicOrder(w, node, path, depth))
    decreases node, 1, 0
  {
    if MaxDepthReached(w, depth) || node.readErr.Some? {
      ExtendsNothing(t, []);
      assert t + [] == t;
    } else {
      BasicChildrenWithinOrder(w, visit, node, path, depth, 0, t);
    }
  }

  lemma {:induction false} BasicChildrenWithinOrder(w: WalkOpts, visit: Visitor, dir: Node, path: Path, depth: nat, i: nat,
                                                    t: seq<Visit>)
    requires i <= |dir.children|
    ensures var r := BasicChildren(w, visit, dir, path, depth, i, t);
            && ExtendsBy(t, r.1, BasicOrderFrom(w, dir, path, depth, i))
            && (r.0.None? ==> r.1 == t + BasicOrderFrom(w, dir, path, depth, i))
    decreases dir, 0, |dir.children| - i
  {
    if i == |dir.children| {
      ExtendsNothing(t, []);
      assert t + [] == t;
    } else {
      var d := DiscoverChild(w, path, dir.children[i]);
      var rest := BasicOrderFrom(w, dir, path, depth, i + 1);
      match d
      case Skip =>
        BasicChildrenWithinOrder(w, visit, dir, path, depth, i + 1, t);
        PassOver(w, dir, path, depth, i);
      case Abort(_) =>
        ExtendsNothing(t, BasicOrderFrom(w, dir, path, depth, i));
      case Deliver(v) =>
        var step := BasicOrderOf(w, dir.children[i], v, depth);
        PassThrough(w, dir, path, depth, i);
        BasicStepWithinOrder(w, visit, dir.children[i], v, depth, t);
        var r1 := BasicStep(w, visit, dir.children[i], v, depth, t);
        if r1.0.Some? {
          ExtendsMore(t, r1.1, step, rest);
        } else {
          BasicChildrenWithinOrder(w, visit, dir, path, depth, i + 1, t + step);
          ExtendsThen(t, step, BasicChildren(w, visit, dir, path, depth, i + 1, t + step).1, rest);
          Assoc(t, step, rest);
        }
    }
  }

  lemma {:induction false} BasicStepWithinOrder(w: WalkOpts, visit: Visitor, child: Node, v: Visit, depth: nat, t: seq<Visit>)
    ensures var r := BasicStep(w, visit, child, v, depth, t);
            && ExtendsBy(t, r.1, BasicOrderOf(w, child, v, depth))
            && (r.0.None? ==> r.1 == t + BasicOrderOf(w, child, v, depth))
    decreases child, 2, 0
  {
    var sub := if IsDir(v.info) then BasicOrder(w, child, v.path, depth + 1) else [];
    var own := if PassesQuery(w, v.info) then [v] else [];
    var (f, t1) := if IsDir(v.info) then BasicWalk(w, visit, child, v.path, depth + 1, t) else (None, t);
    if IsDir(v.info) {
      BasicWithinOrder(w, visit, child, v.path, depth + 1, t);
    } else {
      ExtendsExactly(t, []);
      assert t + [] == t;
    }
    if f.Some? {
      ExtendsMore(t, t1, sub, own);
    } else {
      ExtendsExactly(t, sub + own);
      Assoc(t, sub, own);
      if !PassesQuery(w, v.info) {
        assert sub + own == sub;
      }
    }
  }

  /** The same for walkDFS and DfsOrder. */
  lemma {:induction false} DfsWithinOrder(w: WalkOpts, visit: Visitor, node: Node, path: Path, depth: nat, t: seq<Visit>)
    ensures var r := DfsWalk(w, visit, node, path, depth, t);
            && ExtendsBy(t, r.1, DfsOrder(w, node, path, depth))
            && (r.0.None? ==> r.1 == t + DfsOrder(w, node, path, depth))
    decreases node, 1, 0
  {
    if MaxDepthReached(w, depth) || node.readErr.Some? {
      ExtendsNothing(t, []);
      assert t + [] == t;
    } else {
      var subs := DfsSubtrees(w, node, path, depth, 0);
      var pass := Passing(w, Delivered(w, node, path, 0));
      var (f, t1, buf) := DfsChildren(w, visit, node, path, depth, 0, t, []);
      DfsChildrenWithinOrder(w, visit, node, path, depth, 0, t, []);
      if f.Some? {
        ExtendsMore(t, t1, subs, pass);
      } else {
        assert buf == Delivered(w, node, path, 0);
        VisitBufferedWithinOrder(w, visit, buf, t1);
        ExtendsThen(t, subs, VisitBuffered(w, visit, buf, t1).1, pass);
        Assoc(t, subs, pass);
      }
    }
  }

  lemma {:induction false} DfsChildrenWithinOrder(w: WalkOpts, visit: Visitor, dir: Node, path: Path, depth: nat, i: nat,
                                                  t: seq<Visit>, buf: seq<Visit>)
    requires i <= |dir.children|
    ensures var r := DfsChildren(w, visit, dir, path, depth, i, t, buf);
            && ExtendsBy(t, r.1, DfsSubtrees(w, dir, path, depth, i))
            && (r.0.None? ==> r.1 == t + DfsSubtrees(w, dir, path, depth, i) && r.2 == buf + Delivered(w, dir, path, i))
    decreases dir, 0, |dir.children| - i
  {
    if i == |dir.children| {
      ExtendsNothing(t, []);
      assert t + [] == t && buf + [] == buf;
    } else {
      var d := DiscoverChild(w, path, dir.children[i]);
      var rest := DfsSubtrees(w, dir, path, depth, i + 1);
      match d
      case Skip =>
        DfsChildrenWithinOrder(w, visit, dir, path, depth, i + 1, t, buf);
        PassOver(w, dir, path, depth, i);
      case Abort(_) =>
        ExtendsNothing(t, DfsSubtrees(w, dir, path, depth, i));
      case Deliver(v) =>
        var sub := DfsSubtreeOf(w, dir.children[i], v, depth);
        PassThrough(w, dir, path, depth, i);
        DfsStepWithinOrder(w, visit, dir.children[i], v, depth, t);
        var r1 := DfsStep(w, visit, dir.children[i], v, depth, t);
        if r1.0.Some? {
          ExtendsMore(t, r1.1, sub, rest);
        } else {
          DfsChildrenWithinOrder(w, visit, dir, path, depth, i + 1, t + sub, buf + [v]);
          ExtendsThen(t, sub, DfsChildren(w, visit, dir, path, depth, i + 1, t + sub, buf + [v]).1, rest);
          Assoc(t, sub, rest);
          Assoc(buf, [v], Delivered(w, dir, path, i + 1));
        }
    }
  }

  lemma {:induction false} DfsStepWithinOrder(w: WalkOpts, visit: Visitor, child: Node, v: Visit, depth: nat, t: seq<Visit>)
    ensures var r := DfsStep(w, visit, child, v, depth, t);
            && ExtendsBy(t, r.1, DfsSubtreeOf(w, child, v, depth))
            && (r.0.None? ==> r.1 == t + DfsSubtreeOf(w, child, v, depth))
    decreases child, 2, 0
  {
    if IsDir(v.info) {
      DfsWithinOrder(w, visit, child, v.path, depth + 1, t);
    } else {
      ExtendsExactly(t, []);
      assert t + [] == t;
    }
  }

  /** walkDFS's buffer loop appends a prefix of the passing buffered
      children, and all of them when no call answers non-nil. */
  lemma {:induction false} VisitBufferedWithinOrder(w: WalkOpts, visit: Visitor, buf: seq<Visit>, t: seq<Visit>)
    ensures var r := VisitBuffered(w, visit, buf, t);
            && ExtendsBy(t, r.1, Passing(w, buf))
            && (r.0.None? ==> r.1 == t + Passing(w, buf))
    decreases |buf|
  {
    if buf == [] {
      ExtendsNothing(t, []);
      assert t + [] == t;
    } else if !PassesQuery(w, buf[0].info) {
      VisitBufferedWithinOrder(w, visit, buf[1..], t);
      assert Passing(w, buf) == [] + Passing(w, buf[1..]) == Passing(w, buf[1..]);
    } else {
      var b := [buf[0]];
      var rest := Passing(w, buf[1..]);
      assert Passing(w, buf) == b + rest;
      if visit(t, buf[0]).Nil? {
        VisitBufferedWithinOrder(w, visit, buf[1..], t + b);
        ExtendsThen(t, b, VisitBuffered(w, visit, buf[1..], t + b).1, rest);
        Assoc(t, b, rest);
      } else {
        ExtendsExactly(t, b);
        ExtendsMore(t, t + b, b, rest);
      }
    }
  }

  /** Walk.Walk, for every visitor and every tree, calls the visitor on a
      prefix of its algorithm's order, and on all of it when the walk ends
      without error. */
  lemma WalkWithinOrder(w: Walk, visit: Visitor)
    ensures w.opts.algorithm == AlgorithmBasic ==>
              && WalkSpec(w, visit).1 <= BasicOrder(w.opts, w.root, w.rootPath, 0)
              && (BasicWalk(w.opts, visit, w.root, w.rootPath, 0, []).0.None? ==>
                    WalkSpec(w, visit) == (None, BasicOrder(w.opts, w.root, w.rootPath, 0)))
    ensures w.opts.algorithm == AlgorithmDepthFirst ==>
              && WalkSpec(w, visit).1 <= DfsOrder(w.opts, w.root, w.rootPath, 0)
              && (DfsWalk(w.opts, visit, w.root, w.rootPath, 0, []).0.None? ==>
                    WalkSpec(w, visit) == (None, DfsOrder(w.opts, w.root, w.rootPath, 0)))
  {
    var e: seq<Visit> := [];
    if w.opts.algorithm == AlgorithmBasic {
      var r := BasicWalk(w.opts, visit, w.root, w.rootPath, 0, e);
      BasicWithinOrder(w.opts, visit, w.root, w.rootPath, 0, e);
      assert r.1[|e|..] == r.1;
      assert e + BasicOrder(w.opts, w.root, w.rootPath, 0) == BasicOrder(w.opts, w.root, w.rootPath, 0);
    } else if w.opts.algorithm == AlgorithmDepthFirst {
      var r := DfsWalk(w.opts, visit, w.root, w.rootPath, 0, e);
      DfsWithinOrder(w.opts, visit, w.root, w.rootPath, 0, e);
      assert r.1[|e|..] == r.1;
      assert e + DfsOrder(w.opts, w.root, w.rootPath, 0) == DfsOrder(w.opts, w.root, w.rootPath, 0);
    }
  }

  /** With a depth limit d >= 0, every visitor call of every walk, whatever
      the visitor answers, is for a node at most d + 1 levels below the root. */
  lemma WalkWithinDepth(w: Walk, visit: Visitor)
    requires w.opts.depth >= 0
    ensures forall v :: v in WalkSpec(w, visit).1 ==> |v.path| <= |w.rootPath| + w.opts.depth + 1
  {
    var trace := WalkSpec(w, visit).1;
    var order := if w.opts.algorithm == AlgorithmBasic then BasicOrder(w.opts, w.root, w.rootPath, 0)
                 else DfsOrder(w.opts, w.root, w.rootPath, 0);
    WalkWithinOrder(w, visit);
    VisitsWithinDepth(w.opts, w.root, w.rootPath);
    if w.opts.algorithm == AlgorithmBasic || w.opts.algorithm == AlgorithmDepthFirst {
      forall v | v in trace ensures |v.path| <= |w.rootPath| + w.opts.depth + 1 {
        var k :| 0 <= k < |trace| && trace[k] == v;
        assert order[k] == v;
      }
    }
  }

  /** Under unrestricted options over a tree whose every node is reached,
      every walk calls the visitor at most once per node, and a visitor
      that always answers nil is called exactly once per node, with
      success. */
  lemma WalkVisitsEveryNodeOnce(w: Walk, visit: Visitor)
    requires Unrestricted(w.opts) && w.root.readErr.None? && Plain(w.root)
    ensures |WalkSpec(w, visit).1| <= Size(w.root)
    ensures Quiet(visit) && (w.opts.algorithm == AlgorithmBasic || w.opts.algorithm == AlgorithmDepthFirst) ==>
              WalkSpec(w, visit).0 == None && |WalkSpec(w, visit).1| == Size(w.root)
  {
    WalkWithinOrder(w, visit);
    VisitsEveryNodeOnce(w.opts, w.root, w.rootPath, 0);
    if Quiet(visit) {
      PlainReadable(w.opts, w.root, w.rootPath, 0);
      WalkFollowsOrder(w, visit);
    }
  }
}
