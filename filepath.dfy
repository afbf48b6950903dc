// A lexical, component-level model of the three Go path/filepath functions
// the library delegates to: Clean (through Join), Dir and Base. Components
// are the pieces between separators; "." is dropped and ".." pops the
// previous component, exactly as Go's filepath.Clean does on POSIX.

module FilePath {
  import opened Strings

  /** A path string is rooted when it starts with the separator. */
  predicate Rooted(p: string) {
    StartsWithSlash(p)
  }

  /** Go's Clean, component by component: `acc` holds the components kept so far. */
  function CleanParts(rooted: bool, acc: seq<string>, xs: seq<string>): seq<string>
    decreases xs
  {
    if xs == [] then acc
    else if xs[0] == "" || xs[0] == "." then CleanParts(rooted, acc, xs[1..])
    else if xs[0] == ".." then
      if |acc| > 0 && acc[|acc| - 1] != ".." then CleanParts(rooted, acc[..|acc| - 1], xs[1..])
      else if rooted then CleanParts(rooted, acc, xs[1..])
      else CleanParts(rooted, acc + [".."], xs[1..])
    else CleanParts(rooted, acc + [xs[0]], xs[1..])
  }

  /** The shape of Clean's component list: no empty or "." component, no separator
      inside a component, and ".." only as a leading run of an unrooted path. */
  ghost predicate CleanForm(rooted: bool, st: seq<string>) {
    && (forall i :: 0 <= i < |st| ==> st[i] != "" && st[i] != "." && '/' !in st[i])
    && (forall i :: 0 <= i < |st| && st[i] == ".." ==> !rooted && forall j :: 0 <= j < i ==> st[j] == "..")
  }

  /** The string form of a cleaned component list. */
  function Render(rooted: bool, st: seq<string>): string {
    if rooted then Sep + JoinWith(st, Sep)
    else if st == [] then "."
    else JoinWith(st, Sep)
  }

  /** filepath.Clean: the shortest lexically equivalent path; "" becomes ".". */
  function Clean(p: string): (r: string)
    ensures r != ""
    ensures Rooted(r) <==> Rooted(p)
  {
    var st := CleanParts(Rooted(p), [], Split(p));
    CleanPartsForm(Rooted(p), [], Split(p));
    assert !Rooted(p) ==> !Rooted(Render(false, st)) by {
      if !Rooted(p) && st != [] { JoinWithHead(st); }
    }
    Render(Rooted(p), st)
  }

  lemma {:induction false} CleanPartsForm(rooted: bool, acc: seq<string>, xs: seq<string>)
    requires CleanForm(rooted, acc)
    requires forall k :: 0 <= k < |xs| ==> '/' !in xs[k]
    ensures CleanForm(rooted, CleanParts(rooted, acc, xs))
    decreases xs
  {
    if xs == [] {
    } else if xs[0] == "" || xs[0] == "." {
      CleanPartsForm(rooted, acc, xs[1..]);
    } else if xs[0] == ".." {
      if |acc| > 0 && acc[|acc| - 1] != ".." {
        CleanPartsForm(rooted, acc[..|acc| - 1], xs[1..]);
      } else if rooted {
        CleanPartsForm(rooted, acc, xs[1..]);
      } else {
        CleanPartsForm(rooted, acc + [".."], xs[1..]);
      }
    } else {
      CleanPartsForm(rooted, acc + [xs[0]], xs[1..]);
    }
  }

  /** Clean leaves a list that is already in clean form untouched. */
  lemma {:induction false} CleanPartsKeeps(rooted: bool, acc: seq<string>, ys: seq<string>)
    requires CleanForm(rooted, acc + ys)
    ensures CleanParts(rooted, acc, ys) == acc + ys
    decreases ys
  {
    if ys != [] {
      assert (acc + ys)[|acc|] == ys[0];
      if ys[0] == ".." {
        assert forall j :: 0 <= j < |acc| ==> (acc + ys)[j] == acc[j];
      }
      assert acc + ys == (acc + [ys[0]]) + ys[1..];
      CleanPartsKeeps(rooted, acc + [ys[0]], ys[1..]);
    }
  }

  /** Rendering a clean-form list and cleaning it again gives the same string. */
  lemma CleanOfRender(rooted: bool, st: seq<string>)
    requires CleanForm(rooted, st)
    ensures Clean(Render(rooted, st)) == Render(rooted, st)
  {
    var q := Render(rooted, st);
    if rooted {
      assert Rooted(q);
      RootedSplit(st);
      assert [] + st == st;
      CleanPartsKeeps(rooted, [], st);
      assert Clean(q) == Render(true, CleanParts(true, [], Split(q)));
    } else if st == [] {
      assert q == "." && '/' !in q;
      SplitFromNoSlash(q, 0);
      assert Split(q) == ["."];
      assert CleanParts(false, [], ["."]) == CleanParts(false, [], []);
    } else {
      JoinWithHead(st);
      assert st[0][0] in st[0];
      assert !Rooted(q);
      SplitJoin(st);
      assert [] + st == st;
      CleanPartsKeeps(rooted, [], st);
      assert Clean(q) == Render(false, CleanParts(false, [], st));
    }
  }

  /** The rooted string form splits into an empty piece and then the components. */
  lemma RootedSplit(st: seq<string>)
    requires forall i :: 0 <= i < |st| ==> '/' !in st[i]
    ensures CleanParts(true, [], Split(Sep + JoinWith(st, Sep))) == CleanParts(true, [], st)
  {
    var j := JoinWith(st, Sep);
    assert Sep + j == "" + Sep + j;
    SplitCons("", j);
    var xs := [""] + Split(j);
    assert xs[0] == "" && xs[1..] == Split(j);
    assert CleanParts(true, [], xs) == CleanParts(true, [], Split(j));
    if st == [] {
      assert Split(j) == [""];
      assert CleanParts(true, [], [""]) == CleanParts(true, [], []);
    } else {
      SplitJoin(st);
    }
  }

  /** Cleaning is idempotent: a cleaned path is its own clean form. */
  lemma CleanIdempotent(p: string)
    ensures Clean(Clean(p)) == Clean(p)
  {
    CleanPartsForm(Rooted(p), [], Split(p));
    CleanOfRender(Rooted(p), CleanParts(Rooted(p), [], Split(p)));
  }

  /** Elements dropped before the first non-empty one by filepath.Join. */
  function DropLeadingEmpty(elems: seq<string>): (r: seq<string>)
    ensures |r| <= |elems| && r == elems[|elems| - |r|..]
    ensures r == [] || r[0] != ""
    ensures forall k :: 0 <= k < |elems| - |r| ==> elems[k] == ""
  {
    if elems == [] then []
    else if elems[0] == "" then DropLeadingEmpty(elems[1..])
    else elems
  }

  /** filepath.Join: joins the elements from the first non-empty one with the
      separator and cleans the result; all-empty input gives "". */
  function JoinAll(elems: seq<string>): (r: string)
    ensures r == "" <==> (forall k :: 0 <= k < |elems| ==> elems[k] == "")
  {
    var rest := DropLeadingEmpty(elems);
    if rest == [] then "" else Clean(JoinWith(rest, Sep))
  }

  /** The index of the last separator in `s[..j]`, or -1. */
  function LastSlash(s: string, j: nat): (k: int)
    requires j <= |s|
    ensures -1 <= k < j
    ensures k >= 0 ==> s[k] == '/'
    ensures forall m :: k < m < j ==> s[m] != '/'
    decreases j
  {
    if j == 0 then -1 else if s[j - 1] == '/' then j - 1 else LastSlash(s, j - 1)
  }

  /** filepath.Dir: everything up to the last separator, cleaned. */
  function Dir(p: string): (r: string)
    ensures r != ""
    ensures Rooted(p) ==> Rooted(r)
    ensures '/' !in p ==> r == "."
  {
    var k := LastSlash(p, |p|);
    if k < 0 then
      assert Split("") == [""];
      Clean("")
    else Clean(p[..k + 1])
  }

  /** filepath.Base: the last component once trailing separators are removed;
      "" gives "." and a path of separators only gives "/". */
  function Base(p: string): (r: string)
    ensures r != ""
    ensures r == "/" || '/' !in r
    ensures p == [] ==> r == "."
    ensures p != [] && (forall m :: 0 <= m < |p| ==> p[m] == '/') ==> r == Sep
  {
    if p == [] then "."
    else
      var end := BackOverChar(p, 0, |p|, '/');
      if end == 0 then Sep
      else
        var k := LastSlash(p, end);
        var name := p[k + 1..end];
        assert name[|name| - 1] == p[end - 1];
        name
  }

  /** Base of a path ending in a component `y`, with or without one
      trailing separator, after a prefix that is empty or ends in a separator: `y`. */
  lemma BaseOfLast(pre: string, y: string)
    requires y != "" && '/' !in y
    requires pre == "" || pre[|pre| - 1] == '/'
    ensures Base(pre + y) == y
    ensures Base(pre + y + Sep) == y
  {
    var s := pre + y;
    assert s[..|s|] == s;
    BaseAt(s, pre, y, |s|);
    assert (s + Sep)[..|s|] == s;
    BaseAt(s + Sep, pre, y, |s|);
  }

  /** The component of `t` ending at `end`, where `t[..end]` is `pre + y`
      and only separators follow. */
  lemma BaseAt(t: string, pre: string, y: string, end: nat)
    requires y != "" && '/' !in y
    requires pre == "" || pre[|pre| - 1] == '/'
    requires end == |pre| + |y| <= |t| && t[..end] == pre + y
    requires forall m :: end <= m < |t| ==> t[m] == '/'
    ensures Base(t) == y
  {
    assert t[end - 1] == y[|y| - 1];
    assert y[|y| - 1] in y;
    var e := BackOverChar(t, 0, |t|, '/');
    assert e == end;
    var k := LastSlash(t, e);
    forall m | |pre| <= m < end ensures t[m] != '/' {
      assert t[m] == (pre + y)[m] == y[m - |pre|];
      assert y[m - |pre|] in y;
    }
    if pre != "" {
      assert t[|pre| - 1] == (pre + y)[|pre| - 1] == '/';
    }
    assert k == |pre| - 1;
    assert t[k + 1..e] == (pre + y)[|pre|..] == y;
  }

  /** Clean of a join of separator-free pieces cleans those pieces. */
  lemma CleanOfJoin(pieces: seq<string>)
    requires |pieces| >= 1 && forall k :: 0 <= k < |pieces| ==> '/' !in pieces[k]
    ensures var s := JoinWith(pieces, Sep);
            Clean(s) == Render(Rooted(s), CleanParts(Rooted(s), [], pieces))
  {
    SplitJoin(pieces);
  }

  /** Dir cuts the path at its last separator. */
  lemma DirAt(p: string, k: nat)
    requires k < |p| && p[k] == '/'
    requires forall m :: k < m < |p| ==> p[m] != '/'
    ensures Dir(p) == Clean(p[..k + 1])
  {
  }

  /** Every result of Dir and of Join is already clean. */
  lemma DirAndJoinAreClean(p: string, elems: seq<string>)
    ensures Clean(Dir(p)) == Dir(p)
    ensures JoinAll(elems) != "" ==> Clean(JoinAll(elems)) == JoinAll(elems)
  {
    var k := LastSlash(p, |p|);
    if k < 0 { CleanIdempotent(""); } else { CleanIdempotent(p[..k + 1]); }
    var rest := DropLeadingEmpty(elems);
    if rest != [] { CleanIdempotent(JoinWith(rest, Sep)); }
  }
  /** An ordinary component: not empty, not "." or "..", no separator. */
  ghost predicate OrdinaryName(x: string) {
    x != "" && x != "." && x != ".." && '/' !in x
  }

  /** Clean works left to right: a list can be cleaned in two halves. */
  lemma {:induction false} CleanPartsAppend(rooted: bool, acc: seq<string>, xs: seq<string>, ys: seq<string>)
    ensures CleanParts(rooted, acc, xs + ys) == CleanParts(rooted, CleanParts(rooted, acc, xs), ys)
    decreases xs
  {
    if xs == [] {
      assert xs + ys == ys;
    } else {
      assert (xs + ys)[0] == xs[0];
      assert (xs + ys)[1..] == xs[1..] + ys;
      if xs[0] == "" || xs[0] == "." {
        CleanPartsAppend(rooted, acc, xs[1..], ys);
      } else if xs[0] == ".." {
        if |acc| > 0 && acc[|acc| - 1] != ".." {
          CleanPartsAppend(rooted, acc[..|acc| - 1], xs[1..], ys);
        } else if rooted {
          CleanPartsAppend(rooted, acc, xs[1..], ys);
        } else {
          CleanPartsAppend(rooted, acc + [".."], xs[1..], ys);
        }
      } else {
        CleanPartsAppend(rooted, acc + [xs[0]], xs[1..], ys);
      }
    }
  }

  /** A join of ordinary names is clean and not rooted. */
  lemma CleanOfNames(ws: seq<string>)
    requires |ws| >= 1 && forall k :: 0 <= k < |ws| ==> OrdinaryName(ws[k])
    ensures Clean(JoinWith(ws, Sep)) == JoinWith(ws, Sep)
    ensures !Rooted(JoinWith(ws, Sep))
  {
    CleanOfRender(false, ws);
    JoinWithHead(ws);
    assert ws[0][0] in ws[0];
  }

  /** Dir of a join of ordinary names and one more component drops that component. */
  lemma DirOfSnoc(init: seq<string>, y: string)
    requires |init| >= 1 && forall k :: 0 <= k < |init| ==> OrdinaryName(init[k])
    requires '/' !in y
    ensures Dir(JoinWith(init + [y], Sep)) == JoinWith(init, Sep)
  {
    var j := JoinWith(init, Sep);
    JoinWithSnoc(init, y);
    assert (j + Sep)[|j|] == '/';
    DirOfLast(j + Sep, y);
    CleanOfNamesSlash(init);
  }

  /** Dir of a prefix ending in a separator followed by one component. */
  lemma DirOfLast(pre: string, y: string)
    requires pre != "" && pre[|pre| - 1] == '/' && '/' !in y
    ensures Dir(pre + y) == Clean(pre)
  {
    var p := pre + y;
    forall m | |pre| <= m < |p| ensures p[m] != '/' {
      assert p[m] == y[m - |pre|];
      assert y[m - |pre|] in y;
    }
    DirAt(p, |pre| - 1);
    assert p[..|pre|] == pre;
  }

  /** A trailing separator after ordinary names is cleaned away. */
  lemma CleanOfNamesSlash(ws: seq<string>)
    requires |ws| >= 1 && forall k :: 0 <= k < |ws| ==> OrdinaryName(ws[k])
    ensures Clean(JoinWith(ws, Sep) + Sep) == JoinWith(ws, Sep)
  {
    var xs := ws + [""];
    assert forall k :: 0 <= k < |xs| ==> '/' !in xs[k] by {
      forall k | 0 <= k < |xs| ensures '/' !in xs[k] {
        if k < |ws| { assert xs[k] == ws[k]; }
      }
    }
    JoinWithSnoc(ws, "");
    assert JoinWith(xs, Sep) == JoinWith(ws, Sep) + Sep;
    NamesThenEmpty(ws);
    CleanByParts(xs, ws);
  }

  /** Clean of an unrooted join, given what its pieces clean to. */
  lemma CleanByParts(xs: seq<string>, st: seq<string>)
    requires |xs| >= 1 && forall k :: 0 <= k < |xs| ==> '/' !in xs[k]
    requires !Rooted(JoinWith(xs, Sep)) && st != []
    requires CleanParts(false, [], xs) == st
    ensures Clean(JoinWith(xs, Sep)) == JoinWith(st, Sep)
  {
    CleanOfJoin(xs);
  }

  /** The component list of ordinary names and a trailing empty piece:
      unrooted, and cleaned to the names. */
  lemma NamesThenEmpty(ws: seq<string>)
    requires |ws| >= 1 && forall k :: 0 <= k < |ws| ==> OrdinaryName(ws[k])
    ensures !Rooted(JoinWith(ws, Sep) + Sep)
    ensures CleanParts(false, [], ws + [""]) == ws
  {
    assert !Rooted(JoinWith(ws, Sep) + Sep) by {
      JoinWithHead(ws);
      assert ws[0][0] in ws[0];
    }
    calc {
      CleanParts(false, [], ws + [""]);
    == { CleanPartsAppend(false, [], ws, [""]); }
      CleanParts(false, CleanParts(false, [], ws), [""]);
    == { KeepNames([], ws); assert [] + ws == ws; }
      CleanParts(false, ws, [""]);
    == { CleanPartsEmpty(false, ws); }
      ws;
    }
  }

  /** One step of Clean: an empty piece is dropped. */
  lemma CleanPartsEmpty(rooted: bool, acc: seq<string>)
    ensures CleanParts(rooted, acc, [""]) == acc
  {
    assert [""][1..] == [];
  }

  /** One step of Clean: a leading "." is dropped. */
  lemma CleanPartsDot(rooted: bool, acc: seq<string>, xs: seq<string>)
    ensures CleanParts(rooted, acc, ["."] + xs) == CleanParts(rooted, acc, xs)
  {
    var ys := ["."] + xs;
    assert ys[0] == "." && ys[1..] == xs;
  }

  /** One step of Clean: a leading ".." pops a kept component that is not "..". */
  lemma CleanPartsPop(rooted: bool, acc: seq<string>, xs: seq<string>)
    requires |acc| > 0 && acc[|acc| - 1] != ".."
    ensures CleanParts(rooted, acc, [".."] + xs) == CleanParts(rooted, acc[..|acc| - 1], xs)
  {
    var ys := [".."] + xs;
    assert ys[0] == ".." && ys[1..] == xs;
  }
  /** Clean keeps ordinary names after ordinary names. */
  lemma KeepNames(acc: seq<string>, ws: seq<string>)
    requires forall k :: 0 <= k < |acc| ==> OrdinaryName(acc[k])
    requires forall k :: 0 <= k < |ws| ==> OrdinaryName(ws[k])
    ensures CleanParts(false, acc, ws) == acc + ws
  {
    forall k | 0 <= k < |acc + ws| ensures OrdinaryName((acc + ws)[k]) {
      if k < |acc| { assert (acc + ws)[k] == acc[k]; } else { assert (acc + ws)[k] == ws[k - |acc|]; }
    }
    CleanPartsKeeps(false, acc, ws);
  }

  /** A ".." after ordinary names cancels the last of them. */
  lemma ClimbParts(ws: seq<string>, d: seq<string>)
    requires |ws| >= 1 && forall k :: 0 <= k < |ws| ==> OrdinaryName(ws[k])
    requires forall k :: 0 <= k < |d| ==> OrdinaryName(d[k])
    ensures CleanParts(false, [], ws + ([".."] + d)) == ws[..|ws| - 1] + d
  {
    var init := ws[..|ws| - 1];
    assert forall k :: 0 <= k < |init| ==> init[k] == ws[k];
    calc {
      CleanParts(false, [], ws + ([".."] + d));
    == { CleanPartsAppend(false, [], ws, [".."] + d); }
      CleanParts(false, CleanParts(false, [], ws), [".."] + d);
    == { KeepNames([], ws); assert [] + ws == ws; }
      CleanParts(false, ws, [".."] + d);
    == { CleanPartsPop(false, ws, d); }
      CleanParts(false, init, d);
    == { KeepNames(init, d); }
      init + d;
    }
  }
}
