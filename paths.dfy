// The lexical part of a Path: absolute-ness, normalisation, splitting into
// parts, relative paths, and Join/Parent/Name (which delegate to Go's
// filepath). A Path's string is modelled by itself; its backend is left to
// the Resolve module.

module Paths {
  import opened Errors
  import opened Strings
  import opened FilePath

  /** A path is absolute exactly when its string starts with "/". */
  predicate IsAbsolute(p: string) {
    StartsWithSlash(p)
  }

  /** A string that normalisation leaves alone: no surrounding white space,
      no leading "./", and no trailing "/" unless it is the root "/". */
  ghost predicate IsNormalPathString(p: string) {
    && TrimSpace(p) == p
    && !(|p| >= 2 && p[..2] == "./")
    && !(|p| > 1 && p[|p| - 1] == '/')
  }

  /** normalizePathString: trims white space, one leading "./", trailing blanks,
      and one trailing "/" when more than one character remains. */
  function NormalizePathString(path: string): (r: string)
    ensures |r| <= |path|
    ensures r == "" <==> (TrimSpace(path) == "" || TrimSpace(path) == "./")
    ensures TrimSpace(path) == "/" ==> r == "/"
    ensures IsNormalPathString(path) ==> r == path
  {
    var t := TrimSpace(path);
    var u := TrimDotSlash(t);
    var v := TrimRightBlanks(u);
    NormalizeSteps(path, t, u, v);
    if |v| > 1 then TrimSlashSuffix(v) else v
  }

  /** The three trimming steps of normalizePathString, and what they leave:
      once white space is trimmed, no trailing blank is left for TrimRight. */
  lemma NormalizeSteps(path: string, t: string, u: string, v: string)
    requires t == TrimSpace(path) && u == TrimDotSlash(t) && v == TrimRightBlanks(u)
    ensures u != "" ==> v == u
    ensures |v| <= |path|
    ensures var r := if |v| > 1 then TrimSlashSuffix(v) else v;
      && (r == "" <==> (t == "" || t == "./"))
      && (t == "/" ==> r == "/")
      && (IsNormalPathString(path) ==> r == path)
  {
    BlanksAlreadyTrimmed(t, u, v);
    assert IsNormalPathString(path) ==> t == path && u == path && v == path;
  }

  /** After TrimSpace, the TrimRight of blanks has nothing left to remove. */
  lemma BlanksAlreadyTrimmed(t: string, u: string, v: string)
    requires t == [] || !IsSpace(t[|t| - 1])
    requires u == TrimDotSlash(t) && v == TrimRightBlanks(u)
    ensures u != "" ==> v == u
  {
    if u != "" {
      assert u[|u| - 1] == t[|t| - 1];
      assert IsSpace(' ');
    }
  }

  /** The non-empty elements of `xs`, in their original order. */
  function NonEmpty(xs: seq<string>): (r: seq<string>)
    ensures |r| <= |xs|
    ensures forall k :: 0 <= k < |r| ==> r[k] != ""
  {
    if xs == [] then []
    else (if xs[0] == "" then [] else [xs[0]]) + NonEmpty(xs[1..])
  }

  /** The filter keeps exactly the non-empty elements. */
  lemma {:induction false} NonEmptyMembers(xs: seq<string>)
    ensures forall x :: x in NonEmpty(xs) <==> x in xs && x != ""
  {
    if xs != [] {
      NonEmptyMembers(xs[1..]);
      assert xs == [xs[0]] + xs[1..];
    }
  }

  /** Filtering distributes over concatenation, so the kept elements keep their order. */
  lemma {:induction false} NonEmptyAppend(a: seq<string>, b: seq<string>)
    ensures NonEmpty(a + b) == NonEmpty(a) + NonEmpty(b)
  {
    if a != [] {
      assert a + b != [];
      assert (a + b)[0] == a[0];
      assert (a + b)[1..] == a[1..] + b;
      NonEmptyAppend(a[1..], b);
    } else {
      assert a + b == b;
    }
  }

  /** normalizePathParts: drops every empty string, keeping the order of the rest. */
  method NormalizePathParts(path: seq<string>) returns (normalized: seq<string>)
    ensures normalized == NonEmpty(path)
  {
    normalized := [];
    var i := 0;
    while i < |path|
      invariant 0 <= i <= |path|
      invariant normalized == NonEmpty(path[..i])
    {
      assert path[..i + 1] == path[..i] + [path[i]];
      NonEmptyAppend(path[..i], [path[i]]);
      if path[i] != "" {
        normalized := normalized + [path[i]];
      }
      i := i + 1;
    }
    assert path[..i] == path;
  }

  /** Parts: the root marker "/" for an absolute path, then the non-empty
      pieces of the normalised string. */
  function Parts(p: string): (r: seq<string>)
    ensures IsAbsolute(p) <==> (|r| > 0 && r[0] == Sep)
    ensures forall k :: (if IsAbsolute(p) then 1 else 0) <= k < |r| ==> r[k] != "" && '/' !in r[k]
  {
    var pieces := NonEmpty(Split(NormalizePathString(p)));
    assert '/' in Sep;
    assert forall k :: 0 <= k < |pieces| ==> '/' !in pieces[k] by {
      NonEmptyMembers(Split(NormalizePathString(p)));
      forall k | 0 <= k < |pieces| ensures '/' !in pieces[k] {
        assert pieces[k] in pieces;
      }
    }
    (if IsAbsolute(p) then [Sep] else []) + pieces
  }

  /** `a` is a prefix of `b`. */
  predicate IsPrefix(a: seq<string>, b: seq<string>) {
    |a| <= |b| && b[..|a|] == a
  }

  /** The parts RelativeTo keeps: those after the other path's parts, and at
      least the first one is dropped even when the other path has no parts. */
  function Remainder(thisParts: seq<string>, n: nat): seq<string> {
    var from := if n == 0 then 1 else n;
    if from <= |thisParts| then thisParts[from..] else []
  }

  /** The path string RelativeTo builds from the kept parts. */
  function JoinOrDot(parts: seq<string>): string {
    if parts == [] || (|parts| == 1 && parts[0] == "") then "." else JoinWith(parts, "/")
  }

  /** The loop of RelativeTo over the two part lists, with the bounds check the
      Go loop lacks: it matches `otherParts` against the front of `thisParts`. */
  method MatchPrefix(thisParts: seq<string>, otherParts: seq<string>) returns (relativePath: seq<string>, ok: bool)
    ensures ok <==> IsPrefix(otherParts, thisParts)
    ensures ok ==> relativePath == Remainder(thisParts, |otherParts|)
  {
    var relativeBase := 0;
    var idx := 0;
    while idx < |otherParts|
      invariant 0 <= idx <= |otherParts| && idx <= |thisParts|
      invariant forall k :: 0 <= k < idx ==> thisParts[k] == otherParts[k]
      invariant relativeBase == if idx == 0 then 0 else idx - 1
    {
      if idx >= |thisParts| {
        return [], false;
      }
      if thisParts[idx] != otherParts[idx] {
        if |otherParts| <= |thisParts| {
          assert thisParts[..|otherParts|][idx] == thisParts[idx];
        }
        return [], false;
      }
      relativeBase := idx;
      idx := idx + 1;
    }
    assert thisParts[..|otherParts|] == otherParts;
    relativePath := if relativeBase + 1 <= |thisParts| then thisParts[relativeBase + 1..] else [];
    ok := true;
  }

  /** RelativeTo: `this` made relative to `other`. It succeeds exactly when
      Parts(other) is a prefix of Parts(p); the result names the remaining
      parts. On a mismatch the receiver comes back unchanged with an error. */
  method RelativeTo(p: string, other: string) returns (rel: string, err: Option<Error>)
    ensures err.None? <==> IsPrefix(Parts(other), Parts(p))
    ensures err.Some? ==> err.value == RelativeToMismatch && rel == p
    ensures err.None? ==> rel == JoinOrDot(Remainder(Parts(p), |Parts(other)|))
    ensures err.None? && Remainder(Parts(p), |Parts(other)|) != [] ==>
              Split(rel) == Remainder(Parts(p), |Parts(other)|)
  {
    var relativePath, ok := MatchPrefix(Parts(p), Parts(other));
    if !ok {
      return p, Some(RelativeToMismatch);
    }
    if |relativePath| == 0 || (|relativePath| == 1 && relativePath[0] == "") {
      relativePath := ["."];
    }
    rel, err := JoinWith(relativePath, "/"), None;
    RemainderRoundTrip(p, |Parts(other)|);
  }

  /** The string built from the kept parts splits back into exactly those parts. */
  lemma RemainderRoundTrip(p: string, n: nat)
    ensures Remainder(Parts(p), n) != [] ==>
              Split(JoinOrDot(Remainder(Parts(p), n))) == Remainder(Parts(p), n)
  {
    RemainderPieces(p, n);
    var rest := Remainder(Parts(p), n);
    if rest != [] {
      SplitJoin(rest);
    }
  }

  /** The kept parts are non-empty and free of separators. */
  lemma RemainderPieces(p: string, n: nat)
    ensures forall k :: 0 <= k < |Remainder(Parts(p), n)| ==>
              Remainder(Parts(p), n)[k] != "" && '/' !in Remainder(Parts(p), n)[k]
  {
    var t := Parts(p);
    var from := if n == 0 then 1 else n;
    if from <= |t| {
      forall k | 0 <= k < |t[from..]| ensures t[from..][k] != "" && '/' !in t[from..][k] {
        assert t[from..][k] == t[from + k];
      }
    }
  }

  /** How the loop of RelativeTo ends, as the Go code is written. */
  datatype Scan = Matched | Mismatched | IndexOutOfRange

  function ScanAsWritten(thisParts: seq<string>, otherParts: seq<string>, idx: nat): Scan
    decreases |otherParts| - idx
  {
    if idx >= |otherParts| then Matched
    else if idx >= |thisParts| then IndexOutOfRange
    else if thisParts[idx] != otherParts[idx] then Mismatched
    else ScanAsWritten(thisParts, otherParts, idx + 1)
  }

  /** The outcome of a Go call: a returned (path, error) pair or a run-time panic. */
  datatype Outcome = Returned(path: string, err: Option<Error>) | Panicked

  /** RelativeTo exactly as written: `thisParts[idx]` and `thisParts[relativeBase+1:]`
      are evaluated without bounds checks, so either can panic. */
  function RelativeToAsWritten(p: string, other: string): Outcome {
    var thisParts := Parts(p);
    var otherParts := Parts(other);
    match ScanAsWritten(thisParts, otherParts, 0)
    case IndexOutOfRange => Panicked
    case Mismatched => Returned(p, Some(RelativeToMismatch))
    case Matched =>
      var relativeBase := if |otherParts| == 0 then 0 else |otherParts| - 1;
      if relativeBase + 1 > |thisParts| then Panicked
      else Returned(JoinOrDot(thisParts[relativeBase + 1..]), None)
  }

  /** When both part lists are empty (for instance "" relative to "") the
      loop never runs, relativeBase stays 0, and `thisParts[1:]` is taken of
      an empty list: the code as written panics. */
  lemma RelativeToAsWrittenPanicsOnEmpty()
    ensures Parts("") == []
    ensures RelativeToAsWritten("", "") == Panicked
  {
    assert Split("") == [""];
  }

  /** The corrected RelativeTo on two paths without parts: the other path is
      trivially a prefix and the result is "." with no error. */
  lemma EmptyRelativeToEmpty(p: string, other: string)
    requires Parts(p) == [] && Parts(other) == []
    ensures IsPrefix(Parts(other), Parts(p))
    ensures JoinOrDot(Remainder(Parts(p), |Parts(other)|)) == "."
  {
  }

  /** Parts of a string that normalisation leaves alone: the root marker when
      absolute, then the non-empty pieces of the string itself. */
  lemma PartsOfNormal(p: string)
    requires |p| > 1 && !IsSpace(p[0]) && !IsSpace(p[|p| - 1])
    requires p[..2] != "./" && p[|p| - 1] != '/'
    ensures Parts(p) == (if IsAbsolute(p) then [Sep] else []) + NonEmpty(Split(p))
  {
    assert TrimSpace(p) == p;
    assert NormalizePathString(p) == p;
  }

  lemma EtcPasswdSplit()
    ensures Split("/etc/passwd") == ["", "etc", "passwd"]
  {
    var a := "/etc/passwd";
    assert a[0..0] == "" && a[1..4] == "etc" && a[5..] == "passwd";
  }

  lemma EtcPasswdTestSplit()
    ensures Split("/etc/passwd/test") == ["", "etc", "passwd", "test"]
  {
    var b := "/etc/passwd/test";
    assert b[0..0] == "";
    assert b[1..4] == "etc";
    assert b[5..11] == "passwd";
    assert b[12..] == "test";
    assert SplitFrom(b, 12, 12) == ["test"];
    assert SplitFrom(b, 5, 5) == ["passwd", "test"];
  }

  lemma EtcPasswdParts()
    ensures Parts("/etc/passwd") == ["/", "etc", "passwd"]
    ensures Parts("/etc/passwd/test") == ["/", "etc", "passwd", "test"]
  {
    EtcPasswdShortParts();
    EtcPasswdLongParts();
  }

  lemma EtcPasswdShortParts()
    ensures Parts("/etc/passwd") == ["/", "etc", "passwd"]
  {
    var a := "/etc/passwd";
    PartsOfNormal(a);
    EtcPasswdSplit();
    assert NonEmpty(["", "etc", "passwd"]) == ["etc", "passwd"];
  }

  lemma EtcPasswdLongParts()
    ensures Parts("/etc/passwd/test") == ["/", "etc", "passwd", "test"]
  {
    var b := "/etc/passwd/test";
    PartsOfNormal(b);
    EtcPasswdTestSplit();
    assert NonEmpty(["", "etc", "passwd", "test"]) == ["etc", "passwd", "test"];
  }

  /** The test case "/etc/passwd" relative to "/etc/passwd/test" expects an error,
      but the code as written indexes past the end of the shorter part list. */
  lemma RelativeToAsWrittenPanics()
    ensures RelativeToAsWritten("/etc/passwd", "/etc/passwd/test") == Panicked
    ensures !IsPrefix(Parts("/etc/passwd/test"), Parts("/etc/passwd"))
  {
    EtcPasswdParts();
  }

  /** Component lists that Parts gives back from their join: non-empty,
      separator-free pieces, the first not "." and the join neither starting
      nor ending with white space. */
  ghost predicate Components(pieces: seq<string>) {
    && |pieces| >= 1
    && (forall k :: 0 <= k < |pieces| ==> pieces[k] != "" && '/' !in pieces[k])
    && pieces[0] != "."
    && !IsSpace(pieces[0][0])
    && !IsSpace(pieces[|pieces| - 1][|pieces[|pieces| - 1]| - 1])
  }

  lemma {:induction false} NonEmptyKeepsAll(xs: seq<string>)
    requires forall k :: 0 <= k < |xs| ==> xs[k] != ""
    ensures NonEmpty(xs) == xs
  {
    if xs != [] {
      NonEmptyKeepsAll(xs[1..]);
    }
  }

  /** The join of components is already a normalised path string. */
  lemma JoinIsNormal(pieces: seq<string>)
    requires Components(pieces)
    ensures var p := JoinWith(pieces, Sep);
            p != "" && !IsSpace(p[0]) && !IsSpace(p[|p| - 1]) && p[0] != '/' && p[|p| - 1] != '/'
    ensures IsNormalPathString(JoinWith(pieces, Sep))
  {
    var p := JoinWith(pieces, Sep);
    JoinWithHead(pieces);
    JoinWithLast(pieces);
    assert p[0] in pieces[0];
    var last := pieces[|pieces| - 1];
    assert last[|last| - 1] in last;
    if |p| >= 2 {
      if |pieces| == 1 {
        assert p[1] in pieces[0];
      } else {
        assert p == pieces[0] + Sep + JoinWith(pieces[1..], Sep);
        if |pieces[0]| > 1 {
          assert p[1] in pieces[0];
        } else {
          assert p[..2] == pieces[0] + Sep;
        }
      }
    }
  }

  /** Parts undoes the join of components: relative, absolute, and with a
      leading "./". */
  lemma PartsOfRelativeJoin(pieces: seq<string>)
    requires Components(pieces)
    ensures Parts(JoinWith(pieces, Sep)) == pieces
  {
    var p := JoinWith(pieces, Sep);
    JoinIsNormal(pieces);
    assert NormalizePathString(p) == p;
    SplitJoin(pieces);
    NonEmptyKeepsAll(pieces);
  }

  lemma PartsOfAbsoluteJoin(pieces: seq<string>)
    requires Components(pieces)
    ensures Parts(Sep + JoinWith(pieces, Sep)) == [Sep] + pieces
  {
    var p := JoinWith(pieces, Sep);
    var q := Sep + p;
    JoinIsNormal(pieces);
    assert q[|q| - 1] == p[|p| - 1];
    assert TrimSpace(q) == q;
    assert IsNormalPathString(q);
    assert NormalizePathString(q) == q;
    SplitJoin(pieces);
    SplitCons("", p);
    assert "" + Sep + p == q;
    NonEmptyKeepsAll(pieces);
    NonEmptyAppend([""], pieces);
  }

  lemma PartsOfDotSlashJoin(pieces: seq<string>)
    requires Components(pieces)
    ensures Parts("./" + JoinWith(pieces, Sep)) == pieces
  {
    var p := JoinWith(pieces, Sep);
    var q := "./" + p;
    assert NormalizePathString(q) == p by {
      JoinIsNormal(pieces);
      DotSlashNormalizes(p);
    }
    SplitJoin(pieces);
    NonEmptyKeepsAll(pieces);
  }

  /** A leading "./" in front of a normal relative string is all that
      normalisation removes. */
  lemma DotSlashNormalizes(p: string)
    requires p != "" && !IsSpace(p[0]) && !IsSpace(p[|p| - 1]) && p[0] != '/' && p[|p| - 1] != '/'
    ensures NormalizePathString("./" + p) == p
  {
    var q := "./" + p;
    calc {
      NormalizePathString(q);
      { assert TrimSpace(q) == q by { assert q[|q| - 1] == p[|p| - 1]; } }
      var v := TrimRightBlanks(TrimDotSlash(q)); if |v| > 1 then TrimSlashSuffix(v) else v;
      { assert TrimDotSlash(q) == p by { assert q[2..] == p; } }
      var v := TrimRightBlanks(p); if |v| > 1 then TrimSlashSuffix(v) else v;
      { assert TrimRightBlanks(p) == p by { assert IsSpace(' '); } }
      if |p| > 1 then TrimSlashSuffix(p) else p;
      p;
    }
  }

  /** A non-empty list is a prefix of itself extended, and what RelativeTo
      keeps after it is the extension. */
  lemma PrefixRemainder(xs: seq<string>, ys: seq<string>)
    requires |xs| >= 1
    ensures IsPrefix(xs, xs + ys) && Remainder(xs + ys, |xs|) == ys
  {
    assert (xs + ys)[..|xs|] == xs;
    assert (xs + ys)[|xs|..] == ys;
  }

  /** The parts of an absolute join of two component lists, regrouped. */
  lemma PartsOfAbsoluteAppend(a: seq<string>, b: seq<string>)
    requires Components(a + b)
    ensures Parts(Sep + JoinWith(a + b, Sep)) == ([Sep] + a) + b
  {
    PartsOfAbsoluteJoin(a + b);
    assert [Sep] + (a + b) == ([Sep] + a) + b;
  }

  /** RelativeTo of an absolute joined path against the join of its leading
      components gives the join of the remaining ones. */
  lemma RelativeToOfAbsoluteJoin(a: seq<string>, b: seq<string>)
    requires Components(a + b) && Components(a) && Components(b)
    ensures IsPrefix(Parts(Sep + JoinWith(a, Sep)), Parts(Sep + JoinWith(a + b, Sep)))
    ensures JoinOrDot(Remainder(Parts(Sep + JoinWith(a + b, Sep)), |Parts(Sep + JoinWith(a, Sep))|)) == JoinWith(b, Sep)
  {
    PartsOfAbsoluteAppend(a, b);
    PartsOfAbsoluteJoin(a);
    PrefixRemainder([Sep] + a, b);
  }

  /** The same for relative paths. */
  lemma RelativeToOfRelativeJoin(a: seq<string>, b: seq<string>)
    requires Components(a + b) && Components(a) && Components(b)
    ensures IsPrefix(Parts(JoinWith(a, Sep)), Parts(JoinWith(a + b, Sep)))
    ensures JoinOrDot(Remainder(Parts(JoinWith(a + b, Sep)), |Parts(JoinWith(a, Sep))|)) == JoinWith(b, Sep)
  {
    PartsOfRelativeJoin(a + b);
    PartsOfRelativeJoin(a);
    PrefixRemainder(a, b);
  }

  /** One trailing separator does not change the parts of a normalised path,
      "." excepted (for "./" normalises to the empty string). */
  lemma PartsIgnoreTrailingSlash(p: string)
    requires p != "" && p != "." && IsNormalPathString(p)
    ensures Parts(p + Sep) == Parts(p)
  {
    var q := p + Sep;
    assert q[0] == p[0];
    assert IsSpace(p[0]) ==> TrimSpace(p) != p;
    assert TrimSpace(q) == q;
    assert !(|q| >= 2 && q[0] == '.' && q[1] == '/') by {
      if |p| >= 2 {
        assert q[..2] == p[..2];
      }
    }
    assert TrimDotSlash(q) == q;
    assert TrimRightBlanks(q) == q;
    assert NormalizePathString(q) == p;
    assert NormalizePathString(p) == p;
  }

  /** Path.Join: the path followed by the elements, through filepath.Join. */
  function Join(p: string, elems: seq<string>): (r: string)
    ensures r == "" <==> (p == "" && forall k :: 0 <= k < |elems| ==> elems[k] == "")
  {
    assert forall k :: 0 <= k < |elems| ==> ([p] + elems)[k + 1] == elems[k];
    JoinAll([p] + elems)
  }

  /** Join of a non-empty path: filepath.Join drops nothing, and cleans the
      path and the elements joined with separators. */
  lemma JoinHead(p: string, elems: seq<string>)
    requires p != ""
    ensures Join(p, elems) == Clean(JoinWith([p] + elems, Sep))
  {
    assert DropLeadingEmpty([p] + elems) == [p] + elems;
  }

  /** A joined path is already clean. */
  lemma JoinIsClean(p: string, elems: seq<string>)
    ensures Join(p, elems) != "" ==> Clean(Join(p, elems)) == Join(p, elems)
  {
    DirAndJoinAreClean("", [p] + elems);
  }

  /** Path.JoinPath: the path joined with the other path's parts. */
  function JoinPath(p: string, q: string): string {
    Join(p, Parts(q))
  }

  /** Joining ordinary names onto a join of ordinary names only adds separators. */
  lemma JoinOfNames(ws: seq<string>, more: seq<string>)
    requires |ws| >= 1 && forall k :: 0 <= k < |ws| ==> OrdinaryName(ws[k])
    requires |more| >= 1 && forall k :: 0 <= k < |more| ==> OrdinaryName(more[k])
    ensures Join(JoinWith(ws, Sep), more) == JoinWith(ws + more, Sep)
  {
    var p := JoinWith(ws, Sep);
    JoinWithHead(ws);
    JoinHead(p, more);
    JoinWithAppend([p], more);
    JoinWithAppend(ws, more);
    assert forall k :: 0 <= k < |ws + more| ==> OrdinaryName((ws + more)[k]) by {
      forall k | 0 <= k < |ws + more| ensures OrdinaryName((ws + more)[k]) {
        if k < |ws| { assert (ws + more)[k] == ws[k]; } else { assert (ws + more)[k] == more[k - |ws|]; }
      }
    }
    CleanOfNames(ws + more);
  }

  /** Ordinary names joined onto "." lose the ".". */
  lemma DotJoin(ws: seq<string>)
    requires |ws| >= 1 && forall k :: 0 <= k < |ws| ==> OrdinaryName(ws[k])
    ensures Join(".", ws) == JoinWith(ws, Sep)
  {
    var xs := ["."] + ws;
    DotNamesClean(ws);
    DotNamesShape(ws);
    JoinHead(".", ws);
    CleanByParts(xs, ws);
  }

  /** Cleaning "." followed by ordinary names keeps just the names. */
  lemma DotNamesClean(ws: seq<string>)
    requires forall k :: 0 <= k < |ws| ==> OrdinaryName(ws[k])
    ensures CleanParts(false, [], ["."] + ws) == ws
  {
    CleanPartsDot(false, [], ws);
    KeepNames([], ws);
    assert [] + ws == ws;
  }

  /** "." followed by ordinary names: no piece holds a "/", and the join is relative. */
  lemma DotNamesShape(ws: seq<string>)
    requires forall k :: 0 <= k < |ws| ==> OrdinaryName(ws[k])
    ensures forall k :: 0 <= k < |["."] + ws| ==> '/' !in (["."] + ws)[k]
    ensures !Rooted(JoinWith(["."] + ws, Sep))
  {
    var xs := ["."] + ws;
    JoinWithHead(xs);
    assert xs[0][0] == '.';
    forall k | 0 <= k < |xs| ensures '/' !in xs[k] {
      if k > 0 { assert xs[k] == ws[k - 1]; }
    }
  }

  /** A join that starts with ".." after ordinary names climbs one level:
      the last name and the ".." cancel. */
  lemma ClimbJoin(ws: seq<string>, d: seq<string>)
    requires |ws| >= 1 && forall k :: 0 <= k < |ws| ==> OrdinaryName(ws[k])
    requires |d| >= 1 && forall k :: 0 <= k < |d| ==> OrdinaryName(d[k])
    ensures Join(JoinWith(ws, Sep), [".."] + d) == JoinWith(ws[..|ws| - 1] + d, Sep)
  {
    var p := JoinWith(ws, Sep);
    var up := [".."] + d;
    var xs := ws + up;
    calc {
      Join(p, up);
    == { JoinWithHead(ws); JoinHead(p, up); }
      Clean(JoinWith([p] + up, Sep));
    == { JoinWithAppend([p], up); JoinWithAppend(ws, up); }
      Clean(JoinWith(xs, Sep));
    == { ClimbClean(ws, d); }
      JoinWith(ws[..|ws| - 1] + d, Sep);
    }
  }

  /** Two lists of separator-free pieces make one. */
  lemma SlashFreeAppend(a: seq<string>, b: seq<string>)
    requires forall k :: 0 <= k < |a| ==> '/' !in a[k]
    requires forall k :: 0 <= k < |b| ==> '/' !in b[k]
    ensures forall k :: 0 <= k < |a + b| ==> '/' !in (a + b)[k]
  {
    forall k | 0 <= k < |a + b| ensures '/' !in (a + b)[k] {
      if k < |a| { assert (a + b)[k] == a[k]; } else { assert (a + b)[k] == b[k - |a|]; }
    }
  }

  lemma DotDotHasNoSlash()
    ensures '/' !in ".."
  {
    var p := "..";
    assert |p| == 2 && p[0] == '.' && p[1] == '.';
  }

  /** The string-level half of ClimbJoin: Clean of the joined components. */
  lemma ClimbClean(ws: seq<string>, d: seq<string>)
    requires |ws| >= 1 && forall k :: 0 <= k < |ws| ==> OrdinaryName(ws[k])
    requires |d| >= 1 && forall k :: 0 <= k < |d| ==> OrdinaryName(d[k])
    ensures Clean(JoinWith(ws + ([".."] + d), Sep)) == JoinWith(ws[..|ws| - 1] + d, Sep)
  {
    var xs := ws + ([".."] + d);
    var st := ws[..|ws| - 1] + d;
    assert forall k :: 0 <= k < |xs| ==> '/' !in xs[k] by {
      DotDotHasNoSlash();
      SlashFreeAppend([".."], d);
      SlashFreeAppend(ws, [".."] + d);
    }
    assert !Rooted(JoinWith(xs, Sep)) by {
      JoinWithHead(xs);
      assert xs[0][0] == ws[0][0] && ws[0][0] in ws[0];
    }
    assert CleanParts(false, [], xs) == st && st != [] by {
      ClimbParts(ws, d);
    }
    CleanByParts(xs, st);
  }

  /** Path.Parent: filepath.Dir of the path; never empty and always clean. */
  function Parent(p: string): (r: string)
    ensures r != ""
    ensures '/' !in p ==> r == "."
  {
    Dir(p)
  }

  /** A parent is already clean. */
  lemma ParentIsClean(p: string)
    ensures Clean(Parent(p)) == Parent(p)
  {
    DirAndJoinAreClean(p, []);
  }

  /** Path.Name: filepath.Base of the path; never empty, and a single component. */
  function Name(p: string): (r: string)
    ensures r != ""
    ensures r == "/" || '/' !in r
  {
    Base(p)
  }

  /** Path.Name is the last component of a path built from components,
      with or without one trailing separator. */
  lemma NameOfJoin(ps: seq<string>)
    requires |ps| >= 1 && forall k :: 0 <= k < |ps| ==> ps[k] != "" && '/' !in ps[k]
    ensures Name(JoinWith(ps, Sep)) == ps[|ps| - 1]
    ensures Name(JoinWith(ps, Sep) + Sep) == ps[|ps| - 1]
  {
    var y := ps[|ps| - 1];
    var pre := JoinInit(ps);
    NameOfLast(pre, y);
  }

  /** A join of pieces is the join of all but the last, a separator, then the last. */
  lemma JoinInit(ps: seq<string>) returns (pre: string)
    requires |ps| >= 1
    ensures pre == "" || pre[|pre| - 1] == '/'
    ensures JoinWith(ps, Sep) == pre + ps[|ps| - 1]
  {
    if |ps| == 1 {
      pre := "";
    } else {
      var init := ps[..|ps| - 1];
      assert ps == init + [ps[|ps| - 1]];
      JoinWithSnoc(init, ps[|ps| - 1]);
      pre := JoinWith(init, Sep) + Sep;
    }
  }

  lemma NameOfLast(pre: string, y: string)
    requires y != "" && '/' !in y
    requires pre == "" || pre[|pre| - 1] == '/'
    ensures Name(pre + y) == y && Name(pre + y + Sep) == y
  {
    BaseOfLast(pre, y);
  }
}
