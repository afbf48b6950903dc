// The table-driven cases of the library's path tests, stated against the
// model: IsAbsolute, Parts, RelativeTo, Parent and Join. Each case names
// the literal the test uses; the general lemmas of Paths carry the proofs.

module PathCases {
  import opened Strings
  import opened FilePath
  import opened Paths

  /** "/" is absolute; "./" and "." are not. */
  lemma IsAbsoluteCases()
    ensures IsAbsolute("/") && !IsAbsolute("./") && !IsAbsolute(".")
  {
  }

  // ---------------------------------------------------------------------
  // Parts and RelativeTo on the root; the other cases of both tests are
  // instances of Paths.PartsOfAbsoluteJoin, PartsOfRelativeJoin,
  // PartsOfDotSlashJoin, PartsIgnoreTrailingSlash and RelativeToOf*Join.

  lemma PartsRoot()
    ensures Parts("/") == ["/"]
  {
    assert NormalizePathString("/") == "/";
    SplitJoin(["", ""]);
    assert JoinWith(["", ""], Sep) == "/";
  }

  /** The root relative to itself is ".". */
  lemma RelativeToRootOfRoot()
    ensures IsPrefix(Parts("/"), Parts("/")) && JoinOrDot(Remainder(Parts("/"), |Parts("/")|)) == "."
  {
    PartsRoot();
  }

  // ---------------------------------------------------------------------
  // Parent and Join

  lemma ParentAbsolute()
    ensures Parent("/path/to/foo.txt") == "/path/to"
  {
    var p := "/path/to/foo.txt";
    assert forall m :: 9 <= m < |p| ==> p[m] != '/';
    DirAt(p, 8);
    PathToPrefix();
    CleanOfJoin(["", "path", "to", ""]);
    PathToCleaned();
  }

  lemma PathToPrefix()
    ensures "/path/to/foo.txt"[..9] == JoinWith(["", "path", "to", ""], Sep)
    ensures Rooted(JoinWith(["", "path", "to", ""], Sep))
  {
  }

  lemma PathToCleaned()
    ensures Render(true, CleanParts(true, [], ["", "path", "to", ""])) == "/path/to"
  {
  }

  lemma ParentOfFileAndDot()
    ensures Parent("foo.txt") == "." && Parent(".") == "."
  {
  }

  lemma ParentOfDotSlash()
    ensures Parent("./") == "."
  {
    var p := "./";
    assert LastSlash(p, |p|) == 1;
    assert p[..2] == JoinWith([".", ""], Sep);
    SplitJoin([".", ""]);
  }

  lemma ParentOfRoot()
    ensures Parent("/") == "/"
  {
    var p := "/";
    assert LastSlash(p, |p|) == 0;
    SplitJoin(["", ""]);
    assert p[..1] == JoinWith(["", ""], Sep);
  }

  lemma JoinAbsoluteRoot()
    ensures Join("/", ["foo", "bar"]) == "/foo/bar"
  {
    JoinHead("/", ["foo", "bar"]);
    assert JoinWith(["/", "foo", "bar"], Sep) == JoinWith(["", "", "foo", "bar"], Sep);
    CleanOfJoin(["", "", "foo", "bar"]);
    FooBarRooted();
  }

  lemma JoinRelativeRoot()
    ensures Join("./", ["foo", "bar"]) == "foo/bar"
  {
    JoinHead("./", ["foo", "bar"]);
    assert JoinWith(["./", "foo", "bar"], Sep) == JoinWith([".", "", "foo", "bar"], Sep);
    CleanOfJoin([".", "", "foo", "bar"]);
    FooBarRelative();
  }

  lemma JoinExisting()
    ensures Join("./foo", ["bar", "baz"]) == "foo/bar/baz"
  {
    JoinHead("./foo", ["bar", "baz"]);
    assert JoinWith(["./foo", "bar", "baz"], Sep) == JoinWith([".", "foo", "bar", "baz"], Sep);
    CleanOfJoin([".", "foo", "bar", "baz"]);
    FooBarBaz();
  }

  /** The cleaning steps of the three Join cases. */
  lemma FooBarRooted()
    ensures Rooted(JoinWith(["", "", "foo", "bar"], Sep))
    ensures Render(true, CleanParts(true, [], ["", "", "foo", "bar"])) == "/foo/bar"
  {
  }

  lemma FooBarRelative()
    ensures !Rooted(JoinWith([".", "", "foo", "bar"], Sep))
    ensures Render(false, CleanParts(false, [], [".", "", "foo", "bar"])) == "foo/bar"
  {
  }

  lemma FooBarBaz()
    ensures !Rooted(JoinWith([".", "foo", "bar", "baz"], Sep))
    ensures Render(false, CleanParts(false, [], [".", "foo", "bar", "baz"])) == "foo/bar/baz"
  {
  }
}
