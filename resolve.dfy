// Symbolic-link resolution of path.go: Lstat, IsSymlink, Resolve,
// resolveIfSymlink, resolveAllHelper/ResolveAll and Equals, against an
// abstract backend that answers lstat and readlink for each path.

module Resolve {
  import opened Errors
  import opened Strings
  import opened FilePath
  import opened Paths

  /** What the backend holds at one path. */
  datatype Entry =
    | Missing                // nothing exists there
    | Plain                  // exists and is not a symbolic link
    | Link(target: string)   // a symbolic link, with its target as written
    | BadLink(e: Error)      // a symbolic link whose readlink fails
    | Unstatable(e: Error)   // lstat itself fails

  /** The backend: which optional interfaces it implements (afero.Lstater,
      afero.LinkReader) and what it holds at each path string. */
  datatype Backend = Backend(lstater: bool, linkReader: bool, at: string -> Entry)

  /** Path.Lstat, reduced to the symlink bit of the returned mode. */
  function Lstat(fs: Backend, p: string): (r: Result<bool>)
    ensures !fs.lstater ==> r == Err(DoesNotImplement)
    ensures fs.lstater && fs.at(p).Missing? ==> r == Err(NotExist)
    ensures r.Ok? <==> fs.lstater && (fs.at(p).Plain? || fs.at(p).Link? || fs.at(p).BadLink?)
    ensures r.Ok? ==> (r.value <==> !fs.at(p).Plain?)
  {
    if !fs.lstater then Err(DoesNotImplement)
    else match fs.at(p)
      case Missing => Err(NotExist)
      case Unstatable(e) => Err(e)
      case Plain => Ok(false)
      case _ => Ok(true)
  }

  /** Path.IsSymlink: the Lstat symlink bit, or Lstat's error. */
  function IsSymlink(fs: Backend, p: string): (r: Result<bool>)
    ensures r == Lstat(fs, p)
  {
    match Lstat(fs, p)
    case Err(e) => Err(e)
    case Ok(isLink) => Ok(isLink)
  }

  /** Path.Resolve: the link's target through afero.LinkReader. */
  function Resolve(fs: Backend, p: string): (r: Result<string>)
    ensures !fs.linkReader ==> r == Err(DoesNotImplement)
    ensures r.Ok? <==> fs.linkReader && fs.at(p).Link?
    ensures r.Ok? ==> r.value == fs.at(p).target
  {
    if !fs.linkReader then Err(DoesNotImplement)
    else match fs.at(p)
      case Missing => Err(NotExist)
      case Link(t) => Ok(t)
      case BadLink(e) => Err(e)
      case Unstatable(e) => Err(e)
      case Plain => Err(NotALink)
  }

  /** What resolveIfSymlink returns: a path, whether it was a link, an error. */
  datatype Resolved = Resolved(path: string, isLink: bool, err: Option<Error>)

  /** resolveIfSymlink: a link's target, otherwise the path itself; on an
      error the path comes back unchanged. */
  function ResolveIfSymlink(fs: Backend, p: string): (r: Resolved)
    ensures r.err.Some? || !r.isLink ==> r.path == p
    ensures r.err.None? <==> IsSymlink(fs, p).Ok? && (IsSymlink(fs, p).value ==> Resolve(fs, p).Ok?)
    ensures r.isLink <==> IsSymlink(fs, p) == Ok(true)
    ensures r.isLink && r.err.None? ==> r.path == Resolve(fs, p).value
  {
    match IsSymlink(fs, p)
    case Err(e) => Resolved(p, false, Some(e))
    case Ok(isLink) =>
      if isLink then
        match Resolve(fs, p)
        case Err(e) => Resolved(p, true, Some(e))
        case Ok(target) => Resolved(target, true, None)
      else Resolved(p, false, None)
  }

  /** The string resolveAllHelper builds for the first i+1 parts. */
  function Prefix(parts: seq<string>, i: nat): string
    requires i < |parts|
  {
    JoinWith(parts[..i + 1], Sep)
  }

  /** A prefix that is neither a link nor an error. */
  predicate Clear(fs: Backend, q: string) {
    ResolveIfSymlink(fs, q) == Resolved(q, false, None)
  }

  /** How the scan over the prefixes of a part list ends. */
  datatype Scan = NoLink | Fail(e: Error) | LinkAt(i: nat, target: string)

  /** The scan of resolveAllHelper from prefix i on: the first prefix that is
      a link or whose probe fails. */
  function FirstLink(fs: Backend, parts: seq<string>, i: nat): (r: Scan)
    ensures r.LinkAt? ==> i <= r.i < |parts|
    decreases |parts| - i
  {
    if i >= |parts| then NoLink
    else
      var c := ResolveIfSymlink(fs, Prefix(parts, i));
      if c.err.Some? then Fail(c.err.value)
      else if c.isLink then LinkAt(i, c.path)
      else FirstLink(fs, parts, i + 1)
  }

  /** The scan finds no link exactly when every prefix from i on is clear. */
  lemma {:induction false} FirstLinkNone(fs: Backend, parts: seq<string>, i: nat)
    ensures FirstLink(fs, parts, i) == NoLink <==>
              forall j :: i <= j < |parts| ==> Clear(fs, Prefix(parts, j))
    decreases |parts| - i
  {
    if i < |parts| {
      FirstLinkNone(fs, parts, i + 1);
    }
  }

  /** A link found by the scan is the first unclear prefix, and the scan
      reports its target; a failure is the first unclear prefix's error. */
  lemma {:induction false} FirstLinkFound(fs: Backend, parts: seq<string>, i: nat)
    ensures FirstLink(fs, parts, i).LinkAt? ==>
              var k := FirstLink(fs, parts, i).i;
              i <= k < |parts|
              && (forall j :: i <= j < k ==> Clear(fs, Prefix(parts, j)))
              && ResolveIfSymlink(fs, Prefix(parts, k)) == Resolved(FirstLink(fs, parts, i).target, true, None)
    ensures FirstLink(fs, parts, i).Fail? ==>
              exists k :: i <= k < |parts|
                && (forall j :: i <= j < k ==> Clear(fs, Prefix(parts, j)))
                && ResolveIfSymlink(fs, Prefix(parts, k)).err == Some(FirstLink(fs, parts, i).e)
    decreases |parts| - i
  {
    if i < |parts| {
      var c := ResolveIfSymlink(fs, Prefix(parts, i));
      if c.err.None? && !c.isLink {
        FirstLinkFound(fs, parts, i + 1);
        if FirstLink(fs, parts, i).Fail? {
          var k :| i + 1 <= k < |parts|
                && (forall j :: i + 1 <= j < k ==> Clear(fs, Prefix(parts, j)))
                && ResolveIfSymlink(fs, Prefix(parts, k)).err == Some(FirstLink(fs, parts, i).e);
          assert forall j :: i <= j < k ==> Clear(fs, Prefix(parts, j));
        }
      }
    }
  }

  /** The path resolveAllHelper recurses on after a link at prefix i: an
      absolute target followed by the rest, or a relative target placed in
      the link's parent directory and followed by the rest. */
  function Rewrite(parts: seq<string>, i: nat, target: string): (r: string)
    requires i < |parts|
    ensures IsAbsolute(target) ==> IsAbsolute(r)
  {
    var rest := parts[i + 1..];
    if IsAbsolute(target) then
      assert ([target] + [JoinWith(rest, Sep)])[0] == target;
      JoinRooted([target] + [JoinWith(rest, Sep)]);
      Join(target, [JoinWith(rest, Sep)])
    else Join(JoinPath(Parent(Prefix(parts, i)), target), rest)
  }

  /** A join whose first element is rooted is rooted. */
  lemma JoinRooted(elems: seq<string>)
    requires |elems| > 0 && Rooted(elems[0])
    ensures Rooted(JoinAll(elems))
  {
    assert DropLeadingEmpty(elems) == elems;
    JoinWithHead(elems);
  }

  /** Every rewritten path is already clean. */
  lemma RewriteIsClean(parts: seq<string>, i: nat, target: string)
    requires i < |parts|
    ensures Rewrite(parts, i, target) != "" ==> Clean(Rewrite(parts, i, target)) == Rewrite(parts, i, target)
  {
    var rest := parts[i + 1..];
    if IsAbsolute(target) {
      JoinIsClean(target, [JoinWith(rest, Sep)]);
    } else {
      JoinIsClean(JoinPath(Parent(Prefix(parts, i)), target), rest);
    }
  }

  /** One pass of resolveAllHelper's loop over a path: it ends with the path
      and an error (or none), or it continues on the rewritten path. */
  datatype Step = Stop(path: string, err: Option<Error>) | Continue(next: string)

  function StepOf(fs: Backend, p: string): (s: Step)
    ensures s.Stop? ==> s.path == p
  {
    match FirstLink(fs, Parts(p), 0)
    case NoLink => Stop(p, None)
    case Fail(e) => Stop(p, Some(e))
    case LinkAt(i, target) => Continue(Rewrite(Parts(p), i, target))
  }

  /** How a resolution ends: a path and an error, or the step budget spent
      with the path reached so far. */
  datatype Resolution = Done(path: string, err: Option<Error>) | OutOfFuel(path: string)

  /** Follows `step` from `p`, continuing at most `fuel` times. */
  function Iterate(step: string -> Step, p: string, fuel: nat): Resolution
    decreases fuel
  {
    match step(p)
    case Stop(q, e) => Done(q, e)
    case Continue(q) => if fuel == 0 then OutOfFuel(p) else Iterate(step, q, fuel - 1)
  }

  /** A pass that continues hands the rest of the budget to the next path. */
  lemma IterateContinues(step: string -> Step, p: string, fuel: nat)
    requires step(p).Continue? && fuel > 0
    ensures Iterate(step, p, fuel) == Iterate(step, step(p).next, fuel - 1)
  {
  }

  /** A larger budget changes nothing once the iteration ends within a smaller one. */
  lemma {:induction false} IterateFuelMonotone(step: string -> Step, p: string, fuel: nat, fuel': nat)
    requires fuel <= fuel' && Iterate(step, p, fuel).Done?
    ensures Iterate(step, p, fuel') == Iterate(step, p, fuel)
    decreases fuel
  {
    if step(p).Continue? {
      IterateFuelMonotone(step, step(p).next, fuel - 1, fuel' - 1);
    }
  }

  /** When every stop keeps its input path, an iteration ends on a path at which the step stops. */
  lemma {:induction false} IterateEndsAtStop(step: string -> Step, p: string, fuel: nat)
    requires forall x :: step(x).Stop? ==> step(x).path == x
    requires Iterate(step, p, fuel).Done?
    ensures step(Iterate(step, p, fuel).path) == Stop(Iterate(step, p, fuel).path, Iterate(step, p, fuel).err)
    decreases fuel
  {
    if step(p).Continue? {
      IterateEndsAtStop(step, step(p).next, fuel - 1);
    }
  }

  /** The pass of resolveAllHelper over any path, against one backend. */
  function Passes(fs: Backend): string -> Step {
    q => StepOf(fs, q)
  }

  /** resolveAllHelper as a function of the backend: at most `fuel` links are followed. */
  function ResolveAllSpec(fs: Backend, p: string, fuel: nat): Resolution
  {
    Iterate(Passes(fs), p, fuel)
  }

  /** The loop of resolveAllHelper: probes the prefixes of `parts` in order
      and stops at the first that is a link or whose probe fails. */
  method ScanPrefixes(fs: Backend, parts: seq<string>) returns (s: Scan)
    ensures s == FirstLink(fs, parts, 0)
  {
    var i := 0;
    while i < |parts|
      invariant 0 <= i <= |parts|
      invariant FirstLink(fs, parts, i) == FirstLink(fs, parts, 0)
    {
      var componentPath := Prefix(parts, i);
      var c := ResolveIfSymlink(fs, componentPath);
      if c.err.Some? {
        return Fail(c.err.value);
      }
      if c.isLink {
        return LinkAt(i, c.path);
      }
      i := i + 1;
    }
    return NoLink;
  }

  /** `step` is the pass of resolveAllHelper against `fs`. The quantifier
      is triggered by StepOf only, so a pass is unfolded where it is needed. */
  ghost predicate IsPassOf(fs: Backend, step: string -> Step) {
    forall q {:trigger StepOf(fs, q)} :: step(q) == StepOf(fs, q)
  }

  /** resolveAllHelper: scans the prefixes of the path's parts and, at the
      first link, recurses on the rewritten path. An error is returned with
      the path this call was given, which after a rewrite is no longer the
      caller's path. The ghost `step` names the pass the result is iterated from. */
  method ResolveAllHelper(fs: Backend, p: string, fuel: nat, ghost step: string -> Step) returns (r: Resolution)
    requires IsPassOf(fs, step)
    ensures r == Iterate(step, p, fuel)
    decreases fuel
  {
    var st := Pass(fs, p, step);
    match st
    case Stop(q, e) =>
      r := Done(q, e);
    case Continue(next) =>
      if fuel == 0 {
        r := OutOfFuel(p);
      } else {
        r := ResolveAllHelper(fs, next, fuel - 1, step);
      }
  }

  /** One pass of resolveAllHelper: the scan of the prefixes, and at the
      first link the rewritten path to go on with. */
  method Pass(fs: Backend, p: string, ghost step: string -> Step) returns (st: Step)
    requires IsPassOf(fs, step)
    ensures st == step(p)
  {
    var parts := Parts(p);
    var s := ScanPrefixes(fs, parts);
    assert step(p) == StepOf(fs, p);
    match s
    case NoLink =>
      st := Stop(p, None);
    case Fail(e) =>
      st := Stop(p, Some(e));
    case LinkAt(i, target) =>
      st := Continue(Rewrite(parts, i, target));
  }

  /** A path whose scan meets no link and no error; by FirstLinkNone, one
      whose every prefix is clear. */
  predicate Canonical(fs: Backend, p: string) {
    FirstLink(fs, Parts(p), 0) == NoLink
  }

  /** A path none of whose prefixes is a link or an error resolves to itself,
      whatever the budget. */
  lemma NoLinkUnchanged(fs: Backend, p: string, fuel: nat)
    requires forall j :: 0 <= j < |Parts(p)| ==> Clear(fs, Prefix(Parts(p), j))
    ensures Canonical(fs, p)
    ensures ResolveAllSpec(fs, p, fuel) == Done(p, None)
  {
    FirstLinkNone(fs, Parts(p), 0);
  }

  /** A resolution that ends, ends on a path whose own pass stops with the
      same error; a successful one ends on a canonical path. */
  lemma ResolvedIsCanonical(fs: Backend, p: string, fuel: nat)
    requires ResolveAllSpec(fs, p, fuel).Done?
    ensures var r := ResolveAllSpec(fs, p, fuel);
            StepOf(fs, r.path) == Stop(r.path, r.err)
    ensures ResolveAllSpec(fs, p, fuel).err.None? ==> Canonical(fs, ResolveAllSpec(fs, p, fuel).path)
  {
    IterateEndsAtStop(Passes(fs), p, fuel);
  }

  /** Resolving is idempotent: a resolved path resolves to itself. */
  lemma ResolveIdempotent(fs: Backend, p: string, fuel: nat, fuel': nat)
    requires ResolveAllSpec(fs, p, fuel).Done? && ResolveAllSpec(fs, p, fuel).err.None?
    ensures var q := ResolveAllSpec(fs, p, fuel).path;
            ResolveAllSpec(fs, q, fuel') == Done(q, None)
  {
    ResolvedIsCanonical(fs, p, fuel);
  }

  /** At the first link, whose earlier prefixes are all clear, resolution
      continues on the rewritten path with one step less. */
  lemma FirstLinkRewrites(fs: Backend, p: string, k: nat, target: string, fuel: nat)
    requires k < |Parts(p)| && fuel > 0
    requires forall j :: 0 <= j < k ==> Clear(fs, Prefix(Parts(p), j))
    requires ResolveIfSymlink(fs, Prefix(Parts(p), k)) == Resolved(target, true, None)
    ensures StepOf(fs, p) == Continue(Rewrite(Parts(p), k, target))
    ensures ResolveAllSpec(fs, p, fuel) == ResolveAllSpec(fs, Rewrite(Parts(p), k, target), fuel - 1)
  {
    ScanReaches(fs, Parts(p), 0, k);
    assert StepOf(fs, p) == Continue(Rewrite(Parts(p), k, target));
    IterateContinues(Passes(fs), p, fuel);
  }

  /** At the first prefix whose probe fails, resolution stops with that error
      and the path it was given. */
  lemma FirstErrorStops(fs: Backend, p: string, k: nat, e: Error, fuel: nat)
    requires k < |Parts(p)|
    requires forall j :: 0 <= j < k ==> Clear(fs, Prefix(Parts(p), j))
    requires ResolveIfSymlink(fs, Prefix(Parts(p), k)).err == Some(e)
    ensures ResolveAllSpec(fs, p, fuel) == Done(p, Some(e))
  {
    ScanReaches(fs, Parts(p), 0, k);
  }

  /** Over clear prefixes the scan moves on unchanged. */
  lemma {:induction false} ScanReaches(fs: Backend, parts: seq<string>, i: nat, k: nat)
    requires i <= k <= |parts|
    requires forall j :: i <= j < k ==> Clear(fs, Prefix(parts, j))
    ensures FirstLink(fs, parts, i) == FirstLink(fs, parts, k)
    decreases k - i
  {
    if i < k {
      ScanReaches(fs, parts, i + 1, k);
    }
  }

  /** The budget only bounds the number of links followed: a resolution that
      finishes within a budget gives the same answer with any larger one. */
  lemma FuelMonotone(fs: Backend, p: string, fuel: nat, fuel': nat)
    requires fuel <= fuel' && ResolveAllSpec(fs, p, fuel).Done?
    ensures ResolveAllSpec(fs, p, fuel') == ResolveAllSpec(fs, p, fuel)
  {
    IterateFuelMonotone(Passes(fs), p, fuel, fuel');
  }

  /** Path.ResolveAll as documented: the canonical path, or the path unchanged
      with the error; a spent budget reports TooManyLinks. */
  function ResolveAll(fs: Backend, p: string, fuel: nat): (r: (string, Option<Error>))
    ensures r.1.Some? ==> r.0 == p
    ensures r.1.None? <==> ResolveAllSpec(fs, p, fuel) == Done(r.0, None)
    ensures r.1.None? ==> Canonical(fs, r.0)
  {
    match ResolveAllSpec(fs, p, fuel)
    case OutOfFuel(_) => (p, Some(TooManyLinks))
    case Done(q, e) =>
      if e.Some? then (p, e)
      else
        assert Canonical(fs, q) by { ResolvedIsCanonical(fs, p, fuel); }
        (q, None)
  }

  /** Passes(fs) is the pass resolveAllHelper makes against fs. */
  lemma PassesIsPass(fs: Backend)
    ensures IsPassOf(fs, Passes(fs))
  {
  }

  /** Path.ResolveAll through the helper, returning the caller's path with
      any error as documented. */
  method ResolveAllPath(fs: Backend, p: string, fuel: nat) returns (q: string, err: Option<Error>)
    ensures (q, err) == ResolveAll(fs, p, fuel)
  {
    PassesIsPass(fs);
    var r := ResolveAllHelper(fs, p, fuel, Passes(fs));
    match r
    case OutOfFuel(_) =>
      q, err := p, Some(TooManyLinks);
    case Done(path, e) =>
      if e.Some? {
        q, err := p, e;
      } else {
        q, err := path, None;
      }
  }

  /** Path.Equals: both paths resolve, and to the same string. */
  function Equals(fs: Backend, p: string, q: string, fuel: nat): (r: Result<bool>)
    ensures r.Ok? <==> ResolveAll(fs, p, fuel).1.None? && ResolveAll(fs, q, fuel).1.None?
    ensures r.Err? ==> r.error == (if ResolveAll(fs, p, fuel).1.Some? then ResolveAll(fs, p, fuel).1 else ResolveAll(fs, q, fuel).1).value
    ensures r.Ok? ==> (r.value <==> ResolveAll(fs, p, fuel).0 == ResolveAll(fs, q, fuel).0)
  {
    var (a, errA) := ResolveAll(fs, p, fuel);
    if errA.Some? then Err(errA.value)
    else
      var (b, errB) := ResolveAll(fs, q, fuel);
      if errB.Some? then Err(errB.value)
      else Ok(a == b)
  }

  /** Equality of resolved paths is reflexive and symmetric. */
  lemma EqualsReflexiveSymmetric(fs: Backend, p: string, q: string, fuel: nat)
    ensures ResolveAll(fs, p, fuel).1.None? ==> Equals(fs, p, p, fuel) == Ok(true)
    ensures Equals(fs, p, q, fuel).Ok? ==> Equals(fs, q, p, fuel) == Equals(fs, p, q, fuel)
  {
    var rp := ResolveAll(fs, p, fuel);
    var rq := ResolveAll(fs, q, fuel);
    assert Equals(fs, p, p, fuel) == if rp.1.Some? then Err(rp.1.value) else Ok(rp.0 == rp.0);
    if Equals(fs, p, q, fuel).Ok? {
      assert Equals(fs, p, q, fuel) == Ok(rp.0 == rq.0);
      assert Equals(fs, q, p, fuel) == Ok(rq.0 == rp.0);
    }
  }

  /** A path is equal to the canonical path it resolves to. */
  lemma EqualsItsResolution(fs: Backend, p: string, fuel: nat)
    requires ResolveAll(fs, p, fuel).1.None?
    ensures Equals(fs, p, ResolveAll(fs, p, fuel).0, fuel) == Ok(true)
  {
  }

  /** A backend with a single relative link, "home" to "data", where "data"
      does not exist. */
  function DanglingHome(): Backend {
    Backend(true, true, q => if q == "home" then Link("data") else Missing)
  }

  lemma WordParts(w: string)
    requires |w| > 1 && forall k :: 0 <= k < |w| ==> 'a' <= w[k] <= 'z'
    ensures Parts(w) == [w]
  {
    PartsOfNormal(w);
    assert '/' !in w;
    SplitFromNoSlash(w, 0);
  }

  lemma WordIsClean(w: string)
    requires |w| > 1 && forall k :: 0 <= k < |w| ==> 'a' <= w[k] <= 'z'
    ensures Clean(w) == w && JoinAll([w]) == w
  {
    assert '/' !in w;
    SplitFromNoSlash(w, 0);
    assert w != "." && w != ".." by { assert 'a' <= w[0]; }
    assert CleanParts(false, [], [w]) == [w];
    assert DropLeadingEmpty([w]) == [w];
  }

  lemma DotDataIsData()
    ensures JoinAll([".", "data"]) == "data"
  {
    var s := "./data";
    assert JoinWith([".", "data"], Sep) == s by {
      assert [".", "data"][1..] == ["data"];
    }
    assert s[0..1] == "." && s[2..] == "data";
    assert Split(s) == [".", "data"];
    assert DropLeadingEmpty([".", "data"]) == [".", "data"];
  }

  lemma HomeParent()
    ensures Prefix(["home"], 0) == "home"
    ensures Parent("home") == "."
  {
    assert ["home"][..1] == ["home"];
    assert Split("") == [""];
  }

  lemma JoinPathDotData()
    ensures JoinPath(".", "data") == "data"
  {
    WordParts("data");
    DotDataIsData();
    assert [".", "data"] == ["."] + ["data"];
  }

  lemma HomeRewritesToData()
    ensures Rewrite(["home"], 0, "data") == "data"
  {
    WordIsClean("data");
    HomeParent();
    JoinPathDotData();
    assert ["home"][1..] == [];
    assert ["data"] + [] == ["data"];
  }

  /** The pass over "home" meets the link and continues on "data". */
  lemma HomeStep()
    ensures StepOf(DanglingHome(), "home") == Continue("data")
  {
    var fs := DanglingHome();
    HomeParent();
    assert ResolveIfSymlink(fs, "home") == Resolved("data", true, None);
    assert FirstLink(fs, ["home"], 0) == LinkAt(0, "data");
    WordParts("home");
    assert StepOf(fs, "home") == Continue(Rewrite(["home"], 0, "data"));
    HomeRewritesToData();
  }

  /** The pass over "data" fails: nothing exists there. */
  lemma DataStep()
    ensures StepOf(DanglingHome(), "data") == Stop("data", Some(NotExist))
  {
    WordParts("data");
    assert Prefix(["data"], 0) == "data" by { assert ["data"][..1] == ["data"]; }
    assert FirstLink(DanglingHome(), ["data"], 0) == Fail(NotExist);
  }

  /** The helper as written hands back the rewritten path "data", not the
      caller's "home", when the link's target is missing; the documented
      behaviour returns "home". */
  lemma HelperReturnsRewrittenPathOnError(fuel: nat)
    requires fuel >= 1
    ensures ResolveAllSpec(DanglingHome(), "home", fuel) == Done("data", Some(NotExist))
    ensures ResolveAll(DanglingHome(), "home", fuel) == ("home", Some(NotExist))
  {
    HomeStep();
    DataStep();
    var fs := DanglingHome();
    assert Passes(fs)("home") == Continue("data");
    assert Passes(fs)("data") == Stop("data", Some(NotExist));
    assert Iterate(Passes(fs), "data", fuel - 1) == Done("data", Some(NotExist));
  }

  // ---------------------------------------------------------------------
  // Two chained links, as in the library's ResolveAll tests. The link `h`
  // (home) holds "./" + m/s/l (mnt/nfs/symlinks/home), and m/s/l holds a
  // second target `t`: "../" + d (../data/users/home), one level up from
  // its parent m/s, or an absolute "/" + a. Then h/u resolves to m/d/u, or
  // to /a/u, in two rewrites. The lists `m`, `d` and `a` stand for any run
  // of ordinary names. The backend answers by the components of the string
  // it is asked about, exactly as the library builds that string: the
  // prefixes of an absolute path come out as "/", "//a0", "//a0/a1", ...

  /** A name as the tests' directories have them: ordinary, with no white
      space at either end. */
  ghost predicate Word(x: string) {
    OrdinaryName(x) && !IsSpace(x[0]) && !IsSpace(x[|x| - 1])
  }

  ghost predicate Words(xs: seq<string>) {
    |xs| >= 1 && forall k :: 0 <= k < |xs| ==> Word(xs[k])
  }

  /** The names of the chain: `h` is not where `m` starts, else the first
      link would shadow a directory. */
  ghost predicate ChainNames(h: string, m: seq<string>, s: string, l: string, u: string) {
    Word(h) && Words(m) && Word(s) && Word(l) && Word(u) && h != m[0]
  }

  /** The first link's target, "./m/s/l". */
  function HomeTarget(m: seq<string>, s: string, l: string): string {
    "./" + JoinWith(m + [s, l], Sep)
  }

  /** The relative second target, "../d". */
  function UpTarget(d: seq<string>): string {
    JoinWith([".."] + d, Sep)
  }

  /** The two links, and as plain entries every prefix of m/s and of `plain`. */
  function ChainedLinks(h: string, m: seq<string>, s: string, l: string, t: string, plain: seq<string>): Backend {
    Backend(true, true, q =>
      var ps := Split(q);
      if ps == [h] then Link(HomeTarget(m, s, l))
      else if ps == m + [s, l] then Link(t)
      else if ps != [] && (ps <= m + [s] || ps <= plain) then Plain
      else Missing)
  }

  /** TestResolveAll: the second link climbs to m/d. */
  function RelativeChain(h: string, m: seq<string>, s: string, l: string, d: seq<string>, u: string): Backend {
    ChainedLinks(h, m, s, l, UpTarget(d), m + d + [u])
  }

  /** TestResolveAllAbsolute: the second link is the absolute /a. */
  function AbsoluteChain(h: string, m: seq<string>, s: string, l: string, a: seq<string>, u: string): Backend {
    ChainedLinks(h, m, s, l, Sep + JoinWith(a, Sep), ["", ""] + a + [u])
  }

  lemma WordsAppend(a: seq<string>, b: seq<string>)
    requires Words(a) && Words(b)
    ensures Words(a + b)
  {
    forall k | 0 <= k < |a + b| ensures Word((a + b)[k]) {
      if k < |a| { assert (a + b)[k] == a[k]; } else { assert (a + b)[k] == b[k - |a|]; }
    }
  }

  lemma WordsComponents(xs: seq<string>)
    requires Words(xs)
    ensures Components(xs)
    ensures forall k :: 0 <= k < |xs| ==> OrdinaryName(xs[k])
  {
  }

  /** A path of words splits back into its words and has them as its parts. */
  lemma WordsParts(xs: seq<string>)
    requires Words(xs)
    ensures Split(JoinWith(xs, Sep)) == xs
    ensures Parts(JoinWith(xs, Sep)) == xs
  {
    SplitJoin(xs);
    PartsOfRelativeJoin(xs);
  }

  /** A string whose components the backend lists as plain is clear. */
  lemma ChainPlain(h: string, m: seq<string>, s: string, l: string, t: string, plain: seq<string>, ps: seq<string>)
    requires Split(JoinWith(ps, Sep)) == ps && ps != [h] && ps != m + [s, l]
    requires ps != [] && (ps <= m + [s] || ps <= plain)
    ensures Clear(ChainedLinks(h, m, s, l, t, plain), JoinWith(ps, Sep))
  {
  }

  /** The first rewrite: the target goes in the parent "." of h, then u follows. */
  lemma FirstRewrite(h: string, m: seq<string>, s: string, l: string, u: string)
    requires ChainNames(h, m, s, l, u)
    ensures Rewrite([h, u], 0, HomeTarget(m, s, l)) == JoinWith(m + [s, l, u], Sep)
  {
    var t := HomeTarget(m, s, l);
    assert t[0] == '.';
    assert [h, u][..1] == [h] && [h, u][1..] == [u];
    assert Parent(h) == ".";
    HomeTargetJoin(m, s, l, u);
  }

  /** The first target placed in "." is m/s/l; then u follows. */
  lemma HomeTargetJoin(m: seq<string>, s: string, l: string, u: string)
    requires Words(m) && Word(s) && Word(l) && Word(u)
    ensures Join(JoinPath(".", HomeTarget(m, s, l)), [u]) == JoinWith(m + [s, l, u], Sep)
  {
    var a := m + [s, l];
    WordsAppend(m, [s, l]);
    WordsComponents(a);
    DotSlashJoinPath(a);
    assert Join(JoinWith(a, Sep), [u]) == JoinWith(a + [u], Sep) by {
      JoinOfNames(a, [u]);
    }
    assert a + [u] == m + [s, l, u];
  }

  /** "./" and words, placed in ".", are the words. */
  lemma DotSlashJoinPath(a: seq<string>)
    requires Components(a) && forall k :: 0 <= k < |a| ==> OrdinaryName(a[k])
    ensures JoinPath(".", "./" + JoinWith(a, Sep)) == JoinWith(a, Sep)
  {
    PartsOfDotSlashJoin(a);
    DotJoin(a);
  }

  /** The relative second rewrite: "../d" goes in the parent m/s of m/s/l,
      climbs to m, then u follows. */
  lemma SecondRewrite(m: seq<string>, s: string, l: string, d: seq<string>, u: string)
    requires Words(m) && Word(s) && Word(l) && Words(d) && Word(u)
    ensures Rewrite(m + [s, l, u], |m| + 1, UpTarget(d)) == JoinWith(m + d + [u], Sep)
  {
    var parts := m + [s, l, u];
    var a := m + [s, l];
    assert !IsAbsolute(UpTarget(d)) by { JoinWithHead([".."] + d); }
    assert parts[..|m| + 2] == a && parts[|m| + 2..] == [u];
    WordsAppend(m, [s]);
    assert Parent(JoinWith(a, Sep)) == JoinWith(m + [s], Sep) by {
      WordsComponents(m + [s]);
      assert (m + [s]) + [l] == a;
      DirOfSnoc(m + [s], l);
    }
    UpTargetJoin(m + [s], d, u);
    assert (m + [s])[..|m|] == m;
  }

  /** The second target placed in a join of words climbs out of its last
      word; then u follows. */
  lemma UpTargetJoin(ws: seq<string>, d: seq<string>, u: string)
    requires Words(ws) && Words(d) && Word(u)
    ensures Join(JoinPath(JoinWith(ws, Sep), UpTarget(d)), [u]) == JoinWith(ws[..|ws| - 1] + d + [u], Sep)
  {
    assert ([".."] + d)[0] == "..";
    PartsOfRelativeJoin([".."] + d);
    ClimbJoin(ws, d);
    var rest := ws[..|ws| - 1] + d;
    assert forall k :: 0 <= k < |rest| ==> OrdinaryName(rest[k]) by {
      forall k | 0 <= k < |rest| ensures OrdinaryName(rest[k]) {
        if k < |ws| - 1 { assert rest[k] == ws[k]; } else { assert rest[k] == d[k - |ws| + 1]; }
      }
    }
    JoinOfNames(rest, [u]);
  }

  /** The absolute second rewrite: the target replaces everything up to the
      link, then u follows. */
  lemma AbsoluteRewrite(m: seq<string>, s: string, l: string, a: seq<string>, u: string)
    requires Words(a) && Word(u)
    ensures Rewrite(m + [s, l, u], |m| + 1, Sep + JoinWith(a, Sep)) == Sep + JoinWith(a + [u], Sep)
  {
    var t := Sep + JoinWith(a, Sep);
    assert IsAbsolute(t);
    assert (m + [s, l, u])[|m| + 2..] == [u];
    assert JoinWith([u], Sep) == u;
    JoinHead(t, [u]);
    JoinWithAppend([t], [u]);
    JoinWithSnoc(a, u);
    assert JoinWith([t] + [u], Sep) == Sep + JoinWith(a + [u], Sep);
    WordsAppend(a, [u]);
    WordsComponents(a + [u]);
    CleanOfRender(true, a + [u]);
  }

  lemma ChainFirstStep(h: string, m: seq<string>, s: string, l: string, t: string, plain: seq<string>, u: string, fuel: nat)
    requires ChainNames(h, m, s, l, u) && fuel > 0
    ensures var fs := ChainedLinks(h, m, s, l, t, plain);
            StepOf(fs, JoinWith([h, u], Sep)) == Continue(JoinWith(m + [s, l, u], Sep))
    ensures var fs := ChainedLinks(h, m, s, l, t, plain);
            ResolveAllSpec(fs, JoinWith([h, u], Sep), fuel) == ResolveAllSpec(fs, JoinWith(m + [s, l, u], Sep), fuel - 1)
  {
    var fs := ChainedLinks(h, m, s, l, t, plain);
    var p := JoinWith([h, u], Sep);
    WordsParts([h, u]);
    assert Prefix([h, u], 0) == h by { assert [h, u][..1] == [h]; }
    assert Split(h) == [h] by { SplitJoin([h]); }
    assert ResolveIfSymlink(fs, h) == Resolved(HomeTarget(m, s, l), true, None);
    FirstLinkRewrites(fs, p, 0, HomeTarget(m, s, l), fuel);
    FirstRewrite(h, m, s, l, u);
  }

  lemma ChainSecondStep(h: string, m: seq<string>, s: string, l: string, t: string, plain: seq<string>, u: string, fuel: nat)
    requires ChainNames(h, m, s, l, u) && fuel > 0
    ensures var fs, parts := ChainedLinks(h, m, s, l, t, plain), m + [s, l, u];
            StepOf(fs, JoinWith(parts, Sep)) == Continue(Rewrite(parts, |m| + 1, t))
    ensures var fs, parts := ChainedLinks(h, m, s, l, t, plain), m + [s, l, u];
            ResolveAllSpec(fs, JoinWith(parts, Sep), fuel) == ResolveAllSpec(fs, Rewrite(parts, |m| + 1, t), fuel - 1)
  {
    var fs := ChainedLinks(h, m, s, l, t, plain);
    var parts := m + [s, l, u];
    ChainSecondScan(h, m, s, l, t, plain, u);
    FirstLinkRewrites(fs, JoinWith(parts, Sep), |m| + 1, t, fuel);
  }

  /** On m/s/l/u the scan passes m's prefixes and m/s, and stops at the link m/s/l. */
  lemma ChainSecondScan(h: string, m: seq<string>, s: string, l: string, t: string, plain: seq<string>, u: string)
    requires ChainNames(h, m, s, l, u)
    ensures var fs, parts := ChainedLinks(h, m, s, l, t, plain), m + [s, l, u];
            && Parts(JoinWith(parts, Sep)) == parts
            && (forall j :: 0 <= j < |m| + 1 ==> Clear(fs, Prefix(parts, j)))
            && ResolveIfSymlink(fs, Prefix(parts, |m| + 1)) == Resolved(t, true, None)
  {
    var parts := m + [s, l, u];
    WordsAppend(m, [s, l, u]);
    WordsParts(parts);
    ChainSecondPrefixes(h, m, s, l, t, plain, u);
    assert parts[..|m| + 2] == m + [s, l];
    ChainSecondLink(h, m, s, l, t, plain, u);
  }

  lemma ChainSecondPrefixes(h: string, m: seq<string>, s: string, l: string, t: string, plain: seq<string>, u: string)
    requires ChainNames(h, m, s, l, u)
    ensures var fs, parts := ChainedLinks(h, m, s, l, t, plain), m + [s, l, u];
            forall j :: 0 <= j < |m| + 1 ==> Clear(fs, Prefix(parts, j))
  {
    var parts := m + [s, l, u];
    WordsAppend(m, [s, l, u]);
    forall j | 0 <= j < |m| + 1 ensures Clear(ChainedLinks(h, m, s, l, t, plain), Prefix(parts, j)) {
      var ps := parts[..j + 1];
      assert ps <= m + [s];
      assert |ps| < |m + [s, l]|;
      assert ps[0] == m[0];
      assert Words(ps);
      WordsParts(ps);
      ChainPlain(h, m, s, l, t, plain, ps);
    }
  }

  lemma ChainSecondLink(h: string, m: seq<string>, s: string, l: string, t: string, plain: seq<string>, u: string)
    requires ChainNames(h, m, s, l, u)
    ensures ResolveIfSymlink(ChainedLinks(h, m, s, l, t, plain), JoinWith(m + [s, l], Sep)) == Resolved(t, true, None)
  {
    var a := m + [s, l];
    WordsAppend(m, [s, l]);
    WordsParts(a);
    assert a != [h];
  }

  /** m/d/u has no link on it: it resolves to itself. */
  lemma RelativeEnd(h: string, m: seq<string>, s: string, l: string, d: seq<string>, u: string, fuel: nat)
    requires ChainNames(h, m, s, l, u) && Words(d) && s != d[0]
    ensures ResolveAllSpec(RelativeChain(h, m, s, l, d, u), JoinWith(m + d + [u], Sep), fuel)
            == Done(JoinWith(m + d + [u], Sep), None)
  {
    var parts := m + d + [u];
    WordsAppend(m, d);
    WordsAppend(m + d, [u]);
    WordsParts(parts);
    RelativeEndPrefixes(h, m, s, l, d, u);
    NoLinkUnchanged(RelativeChain(h, m, s, l, d, u), JoinWith(parts, Sep), fuel);
  }

  lemma RelativeEndPrefixes(h: string, m: seq<string>, s: string, l: string, d: seq<string>, u: string)
    requires ChainNames(h, m, s, l, u) && Words(d) && s != d[0]
    ensures var fs, parts := RelativeChain(h, m, s, l, d, u), m + d + [u];
            forall j :: 0 <= j < |parts| ==> Clear(fs, Prefix(parts, j))
  {
    var parts := m + d + [u];
    WordsAppend(m, d);
    WordsAppend(m + d, [u]);
    forall j | 0 <= j < |parts| ensures Clear(RelativeChain(h, m, s, l, d, u), Prefix(parts, j)) {
      var ps := parts[..j + 1];
      assert ps <= parts;
      assert ps[0] == m[0];
      assert Words(ps);
      assert |ps| == |m| + 2 ==> ps[|m|] == d[0];
      WordsParts(ps);
      ChainPlain(h, m, s, l, UpTarget(d), parts, ps);
    }
  }

  /** /a/u has no link on it: it resolves to itself. */
  lemma AbsoluteEnd(h: string, m: seq<string>, s: string, l: string, a: seq<string>, u: string, fuel: nat)
    requires ChainNames(h, m, s, l, u) && Words(a)
    ensures ResolveAllSpec(AbsoluteChain(h, m, s, l, a, u), Sep + JoinWith(a + [u], Sep), fuel)
            == Done(Sep + JoinWith(a + [u], Sep), None)
  {
    var b := a + [u];
    var p := Sep + JoinWith(b, Sep);
    assert Parts(p) == [Sep] + b by {
      WordsAppend(a, [u]);
      WordsComponents(b);
      PartsOfAbsoluteJoin(b);
    }
    AbsoluteEndPrefixes(h, m, s, l, a, u);
    NoLinkUnchanged(AbsoluteChain(h, m, s, l, a, u), p, fuel);
  }

  lemma AbsoluteEndPrefixes(h: string, m: seq<string>, s: string, l: string, a: seq<string>, u: string)
    requires ChainNames(h, m, s, l, u) && Words(a)
    ensures var fs, parts := AbsoluteChain(h, m, s, l, a, u), [Sep] + (a + [u]);
            forall j :: 0 <= j < |parts| ==> Clear(fs, Prefix(parts, j))
  {
    var b := a + [u];
    var parts := [Sep] + b;
    WordsAppend(a, [u]);
    forall j | 0 <= j < |parts| ensures Clear(AbsoluteChain(h, m, s, l, a, u), Prefix(parts, j)) {
      var c := b[..j];
      var ps := ["", ""] + c;
      assert parts[..j + 1] == [Sep] + c;
      RootPrefix(c);
      assert ps <= ["", ""] + a + [u];
      assert ps[0] == "" && m[0] != "";
      assert forall k :: 0 <= k < |ps| ==> '/' !in ps[k] by {
        forall k | 0 <= k < |ps| ensures '/' !in ps[k] {
          if k >= 2 { assert ps[k] == b[k - 2]; }
        }
      }
      SplitJoin(ps);
      ChainPlain(h, m, s, l, Sep + JoinWith(a, Sep), ["", ""] + a + [u], ps);
    }
  }

  /** A prefix of an absolute part list, joined as the library joins it,
      starts with two separators unless it is the root itself. */
  lemma RootPrefix(c: seq<string>)
    ensures JoinWith([Sep] + c, Sep) == JoinWith(["", ""] + c, Sep)
  {
    if c != [] {
      assert ([Sep] + c)[1..] == c;
      assert (["", ""] + c)[1..] == [""] + c;
      assert ([""] + c)[1..] == c;
    }
  }

  /** TestResolveAll: h/u resolves through both links to m/d/u, with no
      error, once the budget allows two links; with less it reports
      TooManyLinks and hands the path back. m/d/u resolves to itself. */
  lemma RelativeChainResolves(h: string, m: seq<string>, s: string, l: string, d: seq<string>, u: string, fuel: nat)
    requires ChainNames(h, m, s, l, u) && Words(d) && s != d[0]
    ensures var fs := RelativeChain(h, m, s, l, d, u);
            var p, r := JoinWith([h, u], Sep), JoinWith(m + d + [u], Sep);
            && (fuel >= 2 ==> ResolveAll(fs, p, fuel) == (r, None))
            && (fuel < 2 ==> ResolveAll(fs, p, fuel) == (p, Some(TooManyLinks)))
            && ResolveAll(fs, r, fuel) == (r, None)
  {
    var t, plain := UpTarget(d), m + d + [u];
    var fs := RelativeChain(h, m, s, l, d, u);
    ChainFirstStep(h, m, s, l, t, plain, u, 1);
    ChainSecondStep(h, m, s, l, t, plain, u, 1);
    SecondRewrite(m, s, l, d, u);
    RelativeEnd(h, m, s, l, d, u, fuel);
    RelativeEnd(h, m, s, l, d, u, if fuel >= 2 then fuel - 2 else 0);
    TwoLinksResolve(fs, JoinWith([h, u], Sep), JoinWith(m + [s, l, u], Sep), JoinWith(m + d + [u], Sep), fuel);
  }

  /** TestResolveAllAbsolute: with an absolute second link, h/u resolves
      to /a/u, whose last parts are a and then u. */
  lemma AbsoluteChainResolves(h: string, m: seq<string>, s: string, l: string, a: seq<string>, u: string, fuel: nat)
    requires ChainNames(h, m, s, l, u) && Words(a) && fuel >= 2
    ensures var r := Sep + JoinWith(a + [u], Sep);
            && ResolveAll(AbsoluteChain(h, m, s, l, a, u), JoinWith([h, u], Sep), fuel) == (r, None)
            && Parts(r) == [Sep] + a + [u]
  {
    var fs := AbsoluteChain(h, m, s, l, a, u);
    var p, q, r := JoinWith([h, u], Sep), JoinWith(m + [s, l, u], Sep), Sep + JoinWith(a + [u], Sep);
    AbsoluteSteps(h, m, s, l, a, u);
    AbsoluteEnd(h, m, s, l, a, u, fuel);
    AbsoluteEnd(h, m, s, l, a, u, if fuel >= 2 then fuel - 2 else 0);
    TwoLinksResolve(fs, p, q, r, fuel);
    AbsoluteResultParts(a, u);
  }

  lemma AbsoluteResultParts(a: seq<string>, u: string)
    requires Words(a) && Word(u)
    ensures Parts(Sep + JoinWith(a + [u], Sep)) == [Sep] + a + [u]
  {
    WordsAppend(a, [u]);
    WordsComponents(a + [u]);
    PartsOfAbsoluteJoin(a + [u]);
    assert [Sep] + (a + [u]) == [Sep] + a + [u];
  }

  /** The two rewrites of TestResolveAllAbsolute: h/u, m/s/l/u, /a/u. */
  lemma AbsoluteSteps(h: string, m: seq<string>, s: string, l: string, a: seq<string>, u: string)
    requires ChainNames(h, m, s, l, u) && Words(a)
    ensures var fs := AbsoluteChain(h, m, s, l, a, u);
            && StepOf(fs, JoinWith([h, u], Sep)) == Continue(JoinWith(m + [s, l, u], Sep))
            && StepOf(fs, JoinWith(m + [s, l, u], Sep)) == Continue(Sep + JoinWith(a + [u], Sep))
  {
    var t, plain := Sep + JoinWith(a, Sep), ["", ""] + a + [u];
    ChainFirstStep(h, m, s, l, t, plain, u, 1);
    ChainSecondStep(h, m, s, l, t, plain, u, 1);
    AbsoluteRewrite(m, s, l, a, u);
  }

  /** A path that reaches a canonical path in two rewrites resolves to it
      exactly when the budget allows two links. */
  lemma TwoLinksResolve(fs: Backend, p: string, q: string, r: string, fuel: nat)
    requires StepOf(fs, p) == Continue(q) && StepOf(fs, q) == Continue(r)
    requires ResolveAllSpec(fs, r, fuel) == Done(r, None)
    requires ResolveAllSpec(fs, r, if fuel >= 2 then fuel - 2 else 0) == Done(r, None)
    ensures fuel >= 2 ==> ResolveAll(fs, p, fuel) == (r, None)
    ensures fuel < 2 ==> ResolveAll(fs, p, fuel) == (p, Some(TooManyLinks))
    ensures ResolveAll(fs, r, fuel) == (r, None)
  {
    var step := Passes(fs);
    assert step(p) == Continue(q) && step(q) == Continue(r);
    if fuel >= 2 {
      assert Iterate(step, p, fuel) == Iterate(step, q, fuel - 1);
      assert Iterate(step, q, fuel - 1) == Iterate(step, r, fuel - 2);
      assert ResolveAllSpec(fs, p, fuel) == Done(r, None);
    } else if fuel == 1 {
      assert Iterate(step, p, 1) == Iterate(step, q, 0) == OutOfFuel(q);
      assert ResolveAllSpec(fs, p, fuel).OutOfFuel?;
    } else {
      assert Iterate(step, p, 0) == OutOfFuel(p);
      assert ResolveAllSpec(fs, p, fuel).OutOfFuel?;
    }
  }
}
