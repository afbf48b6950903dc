// The handful of Go standard-library string operations the path logic is
// built from (strings.TrimSpace, TrimPrefix, TrimRight, TrimSuffix, Split,
// Join), on strings of Unicode characters.

module Strings {

  /** The separator the library uses; `Path.Sep` defaults to it on POSIX. */
  const Sep: string := "/"

  /** Go's unicode.IsSpace. */
  predicate IsSpace(c: char) {
    var n := c as int;
    (9 <= n <= 13) || n == 32 || n == 0x85 || n == 0xA0 || n == 0x1680
    || (0x2000 <= n <= 0x200A) || n == 0x2028 || n == 0x2029 || n == 0x202F
    || n == 0x205F || n == 0x3000
  }

  /** The first index at or after `i` that does not hold a space. */
  function SkipSpaces(s: string, i: nat): (k: nat)
    requires i <= |s|
    ensures i <= k <= |s|
    ensures forall j :: i <= j < k ==> IsSpace(s[j])
    ensures k < |s| ==> !IsSpace(s[k])
    decreases |s| - i
  {
    if i < |s| && IsSpace(s[i]) then SkipSpaces(s, i + 1) else i
  }

  /** The end of `s[lo..j]` once its trailing run of spaces is removed. */
  function BackOverSpaces(s: string, lo: nat, j: nat): (k: nat)
    requires lo <= j <= |s|
    ensures lo <= k <= j
    ensures forall m :: k <= m < j ==> IsSpace(s[m])
    ensures k > lo ==> !IsSpace(s[k - 1])
    decreases j
  {
    if j > lo && IsSpace(s[j - 1]) then BackOverSpaces(s, lo, j - 1) else j
  }

  /** The end of `s[lo..j]` once its trailing run of the character `c` is removed. */
  function BackOverChar(s: string, lo: nat, j: nat, c: char): (k: nat)
    requires lo <= j <= |s|
    ensures lo <= k <= j
    ensures forall m :: k <= m < j ==> s[m] == c
    ensures k > lo ==> s[k - 1] != c
    decreases j
  {
    if j > lo && s[j - 1] == c then BackOverChar(s, lo, j - 1, c) else j
  }

  /** strings.TrimSpace: drops leading and trailing white space. */
  function TrimSpace(s: string): (r: string)
    ensures |r| <= |s|
    ensures r == [] || (!IsSpace(r[0]) && !IsSpace(r[|r| - 1]))
    ensures (s == [] || (!IsSpace(s[0]) && !IsSpace(s[|s| - 1]))) ==> r == s
    ensures exists i, j :: 0 <= i <= j <= |s| && r == s[i..j]
              && (forall m :: 0 <= m < i ==> IsSpace(s[m]))
              && (forall m :: j <= m < |s| ==> IsSpace(s[m]))
  {
    var i := SkipSpaces(s, 0);
    s[i..BackOverSpaces(s, i, |s|)]
  }

  /** strings.TrimPrefix(s, "./"). */
  function TrimDotSlash(s: string): (r: string)
    ensures r == s || (|s| >= 2 && s[..2] == "./" && r == s[2..])
  {
    if |s| >= 2 && s[0] == '.' && s[1] == '/' then s[2..] else s
  }

  /** strings.TrimRight(s, " "): drops every trailing blank. */
  function TrimRightBlanks(s: string): (r: string)
    ensures |r| <= |s| && r == s[..|r|]
    ensures r == [] || r[|r| - 1] != ' '
    ensures forall m :: |r| <= m < |s| ==> s[m] == ' '
  {
    s[..BackOverChar(s, 0, |s|, ' ')]
  }

  /** strings.TrimSuffix(s, "/"). */
  function TrimSlashSuffix(s: string): (r: string)
    ensures r == s || (|s| > 0 && s[|s| - 1] == '/' && r == s[..|s| - 1])
  {
    if |s| > 0 && s[|s| - 1] == '/' then s[..|s| - 1] else s
  }

  /** strings.HasPrefix(s, "/"). */
  predicate StartsWithSlash(s: string) {
    |s| > 0 && s[0] == '/'
  }

  /** strings.Join(xs, sep). */
  function JoinWith(xs: seq<string>, sep: string): string {
    if xs == [] then ""
    else if |xs| == 1 then xs[0]
    else xs[0] + sep + JoinWith(xs[1..], sep)
  }

  /** The pieces of `s[start..]` when split at every separator from index `i` on,
      the piece under construction being `s[start..i]`. */
  function SplitFrom(s: string, i: nat, start: nat): (r: seq<string>)
    requires start <= i <= |s|
    requires forall m :: start <= m < i ==> s[m] != '/'
    ensures |r| >= 1
    ensures forall k :: 0 <= k < |r| ==> '/' !in r[k]
    decreases |s| - i
  {
    if i == |s| then [s[start..]]
    else if s[i] == '/' then [s[start..i]] + SplitFrom(s, i + 1, i + 1)
    else SplitFrom(s, i + 1, start)
  }

  /** strings.Split(s, "/"): the pieces between separators; "" splits into [""]. */
  function Split(s: string): (r: seq<string>)
    ensures |r| >= 1
    ensures forall k :: 0 <= k < |r| ==> '/' !in r[k]
  {
    SplitFrom(s, 0, 0)
  }

  lemma {:induction false} JoinSplitFrom(s: string, i: nat, start: nat)
    requires start <= i <= |s|
    requires forall m :: start <= m < i ==> s[m] != '/'
    ensures JoinWith(SplitFrom(s, i, start), Sep) == s[start..]
    decreases |s| - i
  {
    if i == |s| {
    } else if s[i] == '/' {
      JoinSplitFrom(s, i + 1, i + 1);
      assert s[start..] == s[start..i] + Sep + s[i + 1..];
    } else {
      JoinSplitFrom(s, i + 1, start);
    }
  }

  /** Joining the pieces of a split with the separator gives back the string. */
  lemma JoinSplit(s: string)
    ensures JoinWith(Split(s), Sep) == s
  {
    JoinSplitFrom(s, 0, 0);
    assert s[0..] == s;
  }

  lemma {:induction false} SplitFromShift(p: string, y: string, i: nat, start: nat)
    requires start <= i <= |y|
    requires forall m :: start <= m < i ==> y[m] != '/'
    ensures SplitFrom(p + y, |p| + i, |p| + start) == SplitFrom(y, i, start)
    decreases |y| - i
  {
    var s := p + y;
    assert s[|p| + start..|p| + i] == y[start..i];
    if i == |y| {
      assert s[|p| + start..] == y[start..];
    } else {
      assert s[|p| + i] == y[i];
      SplitFromShift(p, y, i + 1, if y[i] == '/' then i + 1 else start);
    }
  }

  lemma {:induction false} SplitFromNoSlash(s: string, i: nat)
    requires i <= |s|
    requires '/' !in s
    ensures SplitFrom(s, i, 0) == [s]
    decreases |s| - i
  {
    if i < |s| {
      SplitFromNoSlash(s, i + 1);
    }
  }

  lemma {:induction false} SplitFromFirstPiece(x: string, y: string, i: nat)
    requires i <= |x|
    requires '/' !in x
    ensures SplitFrom(x + Sep + y, i, 0) == [x] + SplitFrom(x + Sep + y, |x| + 1, |x| + 1)
    decreases |x| - i
  {
    var s := x + Sep + y;
    if i < |x| {
      assert s[i] == x[i];
      SplitFromFirstPiece(x, y, i + 1);
    } else {
      assert s[0..i] == x;
    }
  }

  /** Splitting a separator-free piece, a separator and a rest gives that piece first. */
  lemma SplitCons(x: string, y: string)
    requires '/' !in x
    ensures Split(x + Sep + y) == [x] + Split(y)
  {
    SplitFromFirstPiece(x, y, 0);
    SplitFromShift(x + Sep, y, 0, 0);
    assert x + Sep + y == (x + Sep) + y;
  }

  /** Splitting a join of separator-free pieces gives the pieces back. */
  lemma {:induction false} SplitJoin(xs: seq<string>)
    requires |xs| >= 1
    requires forall k :: 0 <= k < |xs| ==> '/' !in xs[k]
    ensures Split(JoinWith(xs, Sep)) == xs
  {
    if |xs| == 1 {
      SplitFromNoSlash(xs[0], 0);
    } else {
      SplitJoin(xs[1..]);
      SplitCons(xs[0], JoinWith(xs[1..], Sep));
    }
  }

  /** A join whose first piece is non-empty starts with that piece's first character. */
  lemma {:induction false} JoinWithHead(xs: seq<string>)
    requires |xs| >= 1 && xs[0] != ""
    ensures |JoinWith(xs, Sep)| > 0 && JoinWith(xs, Sep)[0] == xs[0][0]
  {
  }

  /** A join whose last piece is non-empty ends with that piece's last character. */
  lemma {:induction false} JoinWithLast(xs: seq<string>)
    requires |xs| >= 1 && xs[|xs| - 1] != ""
    ensures |JoinWith(xs, Sep)| > 0
    ensures JoinWith(xs, Sep)[|JoinWith(xs, Sep)| - 1] == xs[|xs| - 1][|xs[|xs| - 1]| - 1]
  {
    if |xs| > 1 {
      JoinWithLast(xs[1..]);
    }
  }

  /** Joining one more piece appends the separator and that piece. */
  lemma {:induction false} JoinWithSnoc(xs: seq<string>, y: string)
    requires |xs| >= 1
    ensures JoinWith(xs + [y], Sep) == JoinWith(xs, Sep) + Sep + y
    decreases |xs|
  {
    assert (xs + [y])[0] == xs[0];
    if |xs| == 1 {
      assert (xs + [y])[1..] == [y];
    } else {
      assert (xs + [y])[1..] == xs[1..] + [y];
      JoinWithSnoc(xs[1..], y);
    }
  }

  /** Joining two non-empty lists is joining their joins. */
  lemma {:induction false} JoinWithAppend(xs: seq<string>, ys: seq<string>)
    requires |xs| >= 1 && |ys| >= 1
    ensures JoinWith(xs + ys, Sep) == JoinWith(xs, Sep) + Sep + JoinWith(ys, Sep)
    decreases |xs|
  {
    assert (xs + ys)[0] == xs[0];
    assert (xs + ys)[1..] == xs[1..] + ys;
    if |xs| > 1 {
      JoinWithAppend(xs[1..], ys);
    }
  }
}
