# pathlib core in Dafny

A model of the two pieces of logic in the Go library `pathlib` that do more than forward a call to the filesystem backend (afero). Both are stated in Dafny and proved.

- **The directory walk of `walk.go`.**
  - Configuration: `WalkOpts`, its defaults, and the option functions `NewWalk` applies over them.
  - The query filter on size and kind, and the depth limit.
  - Discovery of a directory's children (`iterateImmediateChildren`).
  - The two traversal algorithms: `walkBasic`, and `walkDFS`, which walks subtrees first and then visits its buffer.
  - The `Walk` dispatcher, which absorbs `ErrStopWalk` and rejects unknown algorithms.
- **The path logic of `path.go`.**
  - `IsAbsolute`, `normalizePathString`, `normalizePathParts`, `Parts` and `RelativeTo`.
  - `Join`, `JoinPath`, `Parent` and `Name`, over a lexical model of Go's `filepath.Join`/`Dir`/`Base`/`Clean`.
  - Symbolic-link resolution: `Lstat`, `IsSymlink`, `Resolve`, `resolveIfSymlink`, `resolveAllHelper`/`ResolveAll` and `Equals`.
  - `GetLatest`.

The backend is a value.
- **For the walk:** a finite tree of `Walking.Node`s. Each node carries the answers of `Lstat`, `Stat` and `ReadDir` for it. The visitor is a function of the calls made so far, and every walk returns its error together with the trace of visitor calls. All walk properties are stated against that trace.
- **For resolution:** a `Resolve.Backend`, which says whether the backend implements `afero.Lstater` and `afero.LinkReader` and what it holds at each path string. Link following carries an explicit step budget (`fuel`), since the library has no cycle detection.

Code that works step by step is kept as methods with loops or recursion. Each method is proved equal to a specification function, and the properties are proved about those functions:
- `WalkBasic`, `BasicAlgorithm`, `WalkDfs`, `VisitAll`, `Run`, `Configure` and `NewWalk`;
- `NormalizePathParts`, `MatchPrefix` and `RelativeTo`;
- `ScanPrefixes`, `Pass`, `ResolveAllHelper` and `ResolveAllPath`;
- `GetLatest`.

Quirks of the code that the model keeps:
- `normalizePathParts` drops every empty string, not only the trailing ones its comment mentions.
- `RelativeTo` drops the first part of the receiver even when the other path has no parts at all.
- `passesQuerySpecification` checks the file case first. A directory or symlink is filtered only by its own flag, and any other kind passes.
- `walkDFS` buffers every delivered child, directories included. It visits the buffer only after all of the children's subtrees.

## Model

| member | source | states |
|---|---|---|
| WalkOptions.DefaultWalkOpts | walk.go:55-66 | the defaults: no depth limit, the basic algorithm, symlinks not followed, no size bounds, every kind visited |
| WalkOptions.Configure | walk.go:156-160 | the loop over option functions yields the defaults with every function applied in order |
| WalkOptions.ApplyFrame | walk.go:105-153 | each option function writes its own setting and leaves every other one unchanged |
| WalkOptions.Untouched | walk.go:156-160 | a setting no option function writes keeps its starting value |
| WalkOptions.LastWriterWins | walk.go:156-160 | a setting ends with the value of the last option function that writes it |
| WalkOptions.LastWriter | walk.go:156-160 | finds the last option function that writes a setting, or reports that none does |
| WalkOptions.Settled | walk.go:156-162 | every setting after NewWalk's loop is its last writer's value, or the default when nothing writes it |
| WalkOptions.AllOptionsApplied | walk_test.go:244-296 | passing each of the eight option functions once yields exactly the configuration the test expects |
| WalkOptions.SizeBoundsInclusive | walk.go:69-82 | a size passes iff a negative bound or size >= minimum, and a negative bound or size <= maximum; both bounds are inclusive |
| WalkOptions.QueryByKind | walk.go:276-293 | files pass iff VisitFiles holds and both size bounds hold; directories iff VisitDirs; symlinks iff VisitSymlinks; any other kind passes |
| WalkOptions.DefaultsPassAll | walk_test.go:108-169 | with the defaults every node passes the filter |
| WalkOptions.DepthLimit | walk.go:178-183 | a negative depth never prunes; depth d prunes d+1 but not d; pruning is monotone in the current depth |
| Walking.ChildPath | walk.go:246-249 | a child's path equals its directory's path exactly when its name is "" or "." |
| Walking.FaultOf | walk.go:333-336 | a visitor result is nil, ErrStopWalk or another error, and travels up the walk as such |
| Walking.DiscoveryCases | walk.go:239-271 | the root itself is skipped; with FollowSymlinks a Stat error aborts; no metadata aborts with the probe's error or ErrInfoIsNil; otherwise the child is delivered with Stat's or Lstat's answer |
| Walking.WalkBasic | walk.go:295-322 | the recursive walkBasic, with its loop over the children, computes BasicWalk |
| Walking.BasicAlgorithm | walk.go:300-319 | walkBasic's per-child function: recurse into a directory, then filter, then visit |
| Walking.VisitAll | walk.go:218-232 | walkDFS's loop over its buffer visits the children that pass the filter, in order, stopping at the first non-nil result |
| Walking.WalkDfs | walk.go:191-233 | the recursive walkDFS, buffering every delivered child while recursing into directories, computes DfsWalk |
| Walking.Finish | walk.go:332-346 | ErrStopWalk becomes success, any other error is returned, and the trace is untouched |
| Walking.WalkSpec | walk.go:347-349 | an algorithm other than basic and depth-first fails with ErrInvalidAlgorithm without a visitor call |
| Walking.Run | walk.go:328-350 | Walk.Walk dispatches on the algorithm and computes WalkSpec |
| Walking.NewWalkWithOpts | walk.go:165-176 | a nil root or nil options are refused; otherwise the walk holds exactly the given root and options |
| Walking.NewWalk | walk.go:156-162 | a nil root is refused; otherwise the walk holds the defaults with the option functions applied in order |
| WalkLaws.BasicStops | walk.go:295-322 | walkBasic calls the visitor only until its first non-nil result, which becomes the walk's result |
| WalkLaws.BasicChildrenStop | walk.go:300-319 | the same over walkBasic's children from any index on |
| WalkLaws.BasicStepStops | walk.go:301-316 | the same for one child of walkBasic |
| WalkLaws.VisitBufferedStops | walk.go:219-231 | the same for walkDFS's loop over its buffer |
| WalkLaws.DfsStops | walk.go:191-233 | the same for walkDFS |
| WalkLaws.DfsChildrenStop | walk.go:198-216 | the same over walkDFS's children, with the buffer growing by the delivered children |
| WalkLaws.WalkStopsAtFirstNonNil | walk.go:328-350 | every call but the last returns nil; a last ErrStopWalk makes Walk succeed; a last other error is Walk's result |
| WalkLaws.FirstCallDecides | walk_test.go:87-106 | a visitor that answers non-nil on its first call is called at most once |
| WalkLaws.BasicFollowsOrder | walk.go:295-322 | with a nil visitor over a readable tree, walkBasic succeeds and visits in post-order: each directory's subtree before the directory, children in discovery order, filtered by the query |
| WalkLaws.BasicChildrenFollowOrder | walk.go:300-319 | the same over walkBasic's children from any index on |
| WalkLaws.BasicStepFollowsOrder | walk.go:301-316 | the same for one child of walkBasic |
| WalkLaws.VisitBufferedQuiet | walk.go:218-231 | with a nil visitor the buffer loop visits exactly the buffered children that pass the filter, in order |
| WalkLaws.DfsFollowsOrder | walk.go:191-233 | with a nil visitor, walkDFS succeeds; it walks every directory child's subtree first, then visits its own children that pass the filter, in discovery order |
| WalkLaws.DfsChildrenFollowOrder | walk.go:198-216 | the same over walkDFS's children from any index on, with any buffer already filled |
| WalkLaws.DfsDeliveredFollowsOrder | walk.go:201-211 | the same for a delivered child: its subtree is walked and it joins the buffer |
| WalkLaws.DfsStepFollowsOrder | walk.go:201-205 | walkDFS recurses into a directory child only |
| WalkLaws.WalkFollowsOrder | walk.go:328-350 | Walk with a nil visitor over a readable tree succeeds, with the post-order or the subtrees-first order of the configured algorithm |
| WalkLaws.SameVisits | walk.go:191-233 | walkBasic and walkDFS visit the same nodes, each equally often (the two orders are permutations of each other) |
| WalkLaws.SameVisitsFrom | walk.go:198-216 | the same over the children from any index on |
| WalkLaws.SameVisitsSkipped | walk.go:246-249 | a skipped or aborting child adds to neither order |
| WalkLaws.SameVisitsDelivered | walk.go:300-316 | a delivered child adds the same visits to both orders |
| WalkLaws.SameVisitsOf | walk.go:301-316 | one child's subtree and own visit agree as multisets between the algorithms |
| WalkLaws.VisitsEveryNodeOnce | walk.go:239-270 | under unrestricted options (no depth limit, links not followed, no size bounds, every kind visited), over a tree where every node has Lstat metadata, every directory lists without error and no name is "" or ".", each algorithm's order holds exactly as many visits as there are nodes below the root |
| WalkLaws.PlainReadable | walk.go:239-270 | such a tree under such options is readable: no directory fails to list and no child aborts the walk |
| WalkLaws.VisitsWithinDepth | walk.go:178-183 | with a depth limit d >= 0, every visit in BasicOrder or DfsOrder is at most d + 1 levels below the root |
| WalkLaws.BasicWithinOrder | walk.go:295-322 | for every visitor and every tree, walkBasic appends a prefix of BasicOrder to the trace, and all of it when it ends without error |
| WalkLaws.BasicChildrenWithinOrder | walk.go:300-319 | the same over walkBasic's children from any index on |
| WalkLaws.BasicStepWithinOrder | walk.go:301-316 | the same for one delivered child of walkBasic |
| WalkLaws.DfsWithinOrder | walk.go:191-233 | for every visitor and every tree, walkDFS appends a prefix of DfsOrder to the trace, and all of it when it ends without error |
| WalkLaws.DfsChildrenWithinOrder | walk.go:198-216 | the same over walkDFS's children from any index on; when no error occurs the buffer grows by exactly the delivered children |
| WalkLaws.DfsStepWithinOrder | walk.go:201-205 | the same for one delivered child of walkDFS |
| WalkLaws.VisitBufferedWithinOrder | walk.go:218-231 | walkDFS's buffer loop appends a prefix of the buffered children that pass the filter, and all of them when every call answers nil |
| WalkLaws.WalkWithinOrder | walk.go:328-350 | for every visitor and tree, Walk's visitor calls are a prefix of the configured algorithm's order, and all of it with success when the algorithm ends without error |
| WalkLaws.WalkWithinDepth | walk.go:178-183 | with a depth limit d >= 0, every visitor call of every walk, whatever the visitor answers, is for a node at most d + 1 levels below the root |
| WalkLaws.WalkVisitsEveryNodeOnce | walk.go:239-270 | under unrestricted options over a tree whose every node is reached, Walk calls any visitor at most once per node, and a visitor that always answers nil exactly once per node, with success |
| WalkScenarios.Hello | walk_test.go:43-50 | one file: one visitor call, for that file, and success, under both algorithms |
| WalkScenarios.TwoFilesVisited | walk_test.go:52-60 | two files: two calls, in listing order, under both algorithms |
| WalkScenarios.TwoFilesNestedBasic | walk_test.go:62-70 | two files plus a subdirectory with two files: walkBasic makes five calls; the subdirectory's files come before the subdirectory |
| WalkScenarios.TwoFilesNestedDfs | walk_test.go:62-70 | the same tree under walkDFS: five calls, starting with the subdirectory's files |
| WalkScenarios.ZeroDepth | walk_test.go:72-85 | depth 0 with symlinks followed: exactly the root's three children are visited |
| WalkScenarios.FirstCall | walk_test.go:87-106 | a non-nil visitor result ends either algorithm after its first call |
| WalkScenarios.StopWalkAfterOne | walk_test.go:87-95 | a visitor answering ErrStopWalk: one call, and Walk succeeds |
| WalkScenarios.VisitorErrorAfterOne | walk_test.go:97-106 | a visitor answering an error: one call, and Walk returns that error |
| WalkScenarios.BadAlgorithm | walk_test.go:209-242 | algorithm 0xBADC0DE: ErrInvalidAlgorithm, and no call |
| Strings.TrimSpace | path.go:352 | the result is the input with exactly its leading and trailing white space removed: a slice s[i..j] where all before i and all from j on is white space, and neither end of the result is |
| Strings.TrimRightBlanks | path.go:354 | drops exactly the trailing blanks |
| Strings.JoinSplit | path.go:326 | strings.Join of strings.Split gives the string back |
| Strings.SplitJoin | path.go:326 | splitting a join of separator-free pieces gives the pieces back |
| Strings.JoinWithAppend | path.go:296-300 | strings.Join of two non-empty lists one after the other is their joins with a separator between |
| FilePath.Clean | path.go:338-345 | never empty; rooted exactly when its input is |
| FilePath.CleanIdempotent | path.go:338-345 | cleaning a cleaned path changes nothing |
| FilePath.CleanOfJoin | path.go:338-345 | cleaning a joined path cleans its pieces |
| FilePath.DirAt | path.go:245-248 | Dir cuts a path at its last separator and cleans |
| FilePath.DirAndJoinAreClean | path.go:245-248 | the results of Dir and of Join are already clean |
| FilePath.CleanPartsAppend | path.go:338-345 | Clean works left to right: cleaning a list of components is cleaning its two halves one after the other |
| FilePath.DirOfSnoc | path.go:245-248 | the parent of a join of ordinary names and one more component is the join of the names |
| FilePath.BaseOfLast | path.go:240-243 | Base of a prefix ending in a separator, then a component, then at most one separator, is that component |
| Paths.NormalizePathString | path.go:351-359 | the result is empty iff the trimmed input is "" or "./"; "/" stays "/"; a string already normal is returned unchanged |
| Paths.NonEmptyMembers | path.go:361-375 | normalizePathParts keeps exactly the non-empty elements |
| Paths.NonEmptyAppend | path.go:361-375 | the filter distributes over concatenation, so the kept elements keep their order |
| Paths.NormalizePathParts | path.go:361-375 | the loop returns the non-empty elements of its input, in order |
| Paths.Parts | path.go:320-330 | begins with "/" iff the path is absolute; every other part is non-empty and free of separators |
| Paths.PartsOfNormal | path.go:320-330 | for a string normalisation leaves alone, Parts is the root marker when absolute, then the non-empty pieces of the string |
| Paths.PartsOfRelativeJoin | path_test.go:485-504 | Parts of a join of components gives the components back |
| Paths.PartsOfAbsoluteJoin | path_test.go:485-504 | Parts of "/" followed by a join of components is "/" followed by the components |
| Paths.PartsOfDotSlashJoin | path_test.go:485-504 | a leading "./" does not count as a part |
| Paths.PartsIgnoreTrailingSlash | path.go:355-357 | one trailing separator does not change the parts of a normalised path |
| Paths.MatchPrefix | path.go:384-394 | the loop succeeds iff the other path's parts are a prefix of this path's, and keeps the parts after them |
| Paths.RelativeTo | path.go:377-407 | succeeds iff Parts(other) is a prefix of Parts(this); the result joins the remaining parts with "/", or is "." when none remain; on a mismatch the receiver comes back with a mismatch error |
| Paths.RemainderRoundTrip | path.go:394-404 | the relative path splits back into exactly the kept parts |
| Paths.RemainderPieces | path.go:394 | the kept parts are non-empty and free of separators |
| Paths.PrefixRemainder | path.go:384-394 | a part list is a prefix of itself extended, and RelativeTo keeps the extension |
| Paths.RelativeToOfAbsoluteJoin | path_test.go:441-483 | an absolute joined path relative to the join of its leading components is the join of the rest |
| Paths.RelativeToOfRelativeJoin | path_test.go:441-483 | the same for relative paths |
| Paths.EtcPasswdParts | path_test.go:467 | the parts of "/etc/passwd" and "/etc/passwd/test" |
| Paths.RelativeToAsWrittenPanics | path.go:386-394 | "/etc/passwd" relative to "/etc/passwd/test" panics as written, although the parts do not match |
| Paths.RelativeToAsWrittenPanicsOnEmpty | path.go:394 | "" has no parts, and "" relative to "" panics as written: the slice after index 0 is taken of an empty list |
| Paths.EmptyRelativeToEmpty | path.go:384-398 | corrected, two paths without parts: the other is a prefix and the result is "." |
| Paths.Join | path.go:338-345 | empty only when the path and every element are empty |
| Paths.JoinHead | path.go:338-345 | Join of a non-empty path cleans the path and the elements joined with separators |
| Paths.JoinIsClean | path.go:338-345 | a joined path is already clean |
| Paths.JoinOfNames | path.go:338-345 | joining ordinary names onto a join of ordinary names gives the join of all of them |
| Paths.DotJoin | path.go:338-345 | ordinary names joined onto "." give just their join |
| Paths.ClimbJoin | path.go:338-345 | joining ".." and ordinary names onto a join of ordinary names drops its last name and appends the rest |
| Paths.Parent | path.go:245-248 | never empty; a path with no separator has parent "." |
| Paths.ParentIsClean | path.go:245-248 | a parent is already clean |
| Paths.Name | path.go:240-243 | never empty; "/" or a single component |
| Paths.NameOfJoin | path.go:240-243 | the name of a path built from components, with or without one trailing separator, is its last component |
| PathCases.PartsRoot | path_test.go:485-504 | Parts("/") is ["/"] |
| PathCases.RelativeToRootOfRoot | path_test.go:441-483 | "/" relative to "/" is "." |
| PathCases.ParentAbsolute | path_test.go:412-439 | the parent of "/path/to/foo.txt" is "/path/to" |
| PathCases.ParentOfFileAndDot | path_test.go:412-439 | the parent of "foo.txt" and of "." is "." |
| PathCases.ParentOfDotSlash | path_test.go:412-439 | the parent of "./" is "." |
| PathCases.ParentOfRoot | path_test.go:412-439 | the parent of "/" is "/" |
| PathCases.JoinAbsoluteRoot | path_test.go:386-410 | "/" joined with foo and bar is "/foo/bar" |
| PathCases.JoinRelativeRoot | path_test.go:386-410 | "./" joined with foo and bar is "foo/bar" |
| PathCases.JoinExisting | path_test.go:386-410 | "./foo" joined with bar and baz is "foo/bar/baz" |
| Resolve.Lstat | path.go:409-421 | fails with ErrDoesNotImplement without afero.Lstater; fails for a missing path; otherwise reports whether the path is a symlink |
| Resolve.IsSymlink | path.go:458-474 | the symlink bit of Lstat's answer, with Lstat's error |
| Resolve.Resolve | path.go:254-265 | fails with ErrDoesNotImplement without afero.LinkReader; succeeds exactly on a readable link, with its target |
| Resolve.ResolveIfSymlink | path.go:267-281 | the path unchanged on an error or a non-link; the target for a link; the link flag is IsSymlink's answer |
| Resolve.FirstLinkNone | path.go:286-306 | the prefix scan meets no link exactly when every prefix is neither a link nor an error |
| Resolve.FirstLinkFound | path.go:286-301 | a link found is the first prefix that is not clear, and its target is reported; a failure is the first unclear prefix's error |
| Resolve.ScanPrefixes | path.go:286-302 | the loop over the prefixes computes FirstLink |
| Resolve.Rewrite | path.go:296-301 | the path after a link at prefix i is absolute when the target is |
| Resolve.RewriteIsClean | path.go:296-301 | every rewritten path is already clean |
| Resolve.StepOf | path.go:283-307 | a pass that stops keeps its own path |
| Resolve.IterateContinues | path.go:297-300 | a pass that continues hands the rest of the budget to the rewritten path |
| Resolve.IterateFuelMonotone | path.go:283-307 | a resolution that ends within a budget ends the same way with any larger one |
| Resolve.IterateEndsAtStop | path.go:283-307 | a resolution that ends, ends on a path whose own pass stops with the same error |
| Resolve.Pass | path.go:284-306 | one pass of resolveAllHelper computes the pass function |
| Resolve.ResolveAllHelper | path.go:283-307 | the recursive helper follows passes until one stops or the budget is spent |
| Resolve.NoLinkUnchanged | path.go:286-306 | a path none of whose prefixes is a link or an error resolves to itself |
| Resolve.ResolvedIsCanonical | path.go:283-307 | a successful resolution ends on a path with no link among its prefixes |
| Resolve.ResolveIdempotent | path.go:309-318 | a resolved path resolves to itself, with any budget |
| Resolve.FirstLinkRewrites | path.go:296-301 | at the first link, resolution continues on the rewritten path with one step less |
| Resolve.FirstErrorStops | path.go:290-294 | an error at the first unclear prefix stops resolution at the current path with that error |
| Resolve.ScanReaches | path.go:286-306 | clear prefixes do not change the scan's outcome |
| Resolve.FuelMonotone | path.go:283-307 | a larger budget changes no resolution that already ends |
| Resolve.ResolveAll | path.go:309-318 | on an error the caller's path comes back unchanged; on success the result ends the resolution and has no link among its prefixes |
| Resolve.PassesIsPass | path.go:284-306 | Passes(fs) is the pass resolveAllHelper makes against fs |
| Resolve.ResolveAllPath | path.go:315-318 | ResolveAll through the helper computes the ResolveAll function |
| Resolve.Equals | path.go:482-496 | succeeds iff both paths resolve, then is true iff the resolved strings are equal; otherwise the first error |
| Resolve.EqualsReflexiveSymmetric | path.go:482-496 | a resolvable path equals itself; Equals is symmetric when it succeeds |
| Resolve.EqualsItsResolution | path.go:482-496 | a path equals its own resolution |
| Resolve.RelativeChainResolves | path_test.go:268-283 | for any names: with home linking to ./m/s/l and m/s/l linking to ../d, home/u resolves through both links to m/d/u when the budget allows two links, and to itself with TooManyLinks otherwise; m/d/u resolves to itself |
| Resolve.AbsoluteChainResolves | path_test.go:285-299 | the same chain whose second link is the absolute /a: home/u resolves to /a/u, whose parts end with a and then u |
| Resolve.TwoLinksResolve | path.go:283-307 | a path that reaches a resolved path in two rewrites resolves to it exactly when the budget allows two links, and to itself with TooManyLinks otherwise |
| Resolve.HelperReturnsRewrittenPathOnError | path.go:290-293 | with "home" linking to a missing "data", the helper returns "data" with the error while ResolveAll returns "home" |
| Latest.LatestFrom | path.go:504-525 | the index found is in range, and some entry is found when there is one left |
| Latest.GetLatest | path.go:498-529 | the loop computes LatestSpec; a ReadDir error is returned; an empty directory gives none |
| Latest.LatestFromKeepsEarliest | path.go:504-525 | the loop keeps the earliest entry with the strictly latest time |
| Latest.PicksEarliestLatest | path.go:498-529 | when every Mtime error is a vanished entry and the first entry has a time, the result is the earliest entry with the latest time, never a vanished one |
| Latest.LatestFromFails | path.go:510-522 | the loop fails with the error of the first fatal entry |
| Latest.FailsAtFirstFatal | path.go:510-522 | GetLatest fails with the first fatal entry's error: a failing first entry, or a later non-vanished failure |
| Latest.SucceedsIffNoFatal | path.go:498-529 | GetLatest succeeds exactly when no entry is fatal |
| Latest.FirstFatal | path.go:510-522 | any fatal entry makes GetLatest fail |
| Latest.IncreasingPicksLast | path_test.go:171-184 | entries written one after another pick the last |

## Left out

- Backend forwarding wrappers are not modelled. `Create`, `Mkdir*`, `Open*`, `Remove*`, `Rename*`, `Stat`, `Chmod`, `Chtimes`, `Exists`, `IsDir`, `IsEmpty`, `ReadFile`, `WriteFile`, `WriteReader`, `Symlink`, `Glob` and `Path.Walk` each make one call into afero and have no logic of their own.
- The filesystem itself and afero are replaced by values. For the walk, each node of a tree carries its probe answers. For resolution, a function gives the entry at each path. I/O, timing and concurrent changes to the tree are not modelled.
- errors.go's sentinel values are constructors of `Errors.Error`. Error wrapping and message text are not modelled. Backend errors are opaque codes.
- Errors.RelativeToMismatch: RelativeTo's mismatch is one constructor. The library returns a fresh formatted error naming both paths, which does not wrap the ErrRelativeTo sentinel of errors.go:16.
- Resolve.RelativeChainResolves, Resolve.AbsoluteChainResolves: the backends of these lemmas answer by the components of the path string asked about. The strings are the ones the library builds: a root prefix is asked about as "/", "//a" and so on, exactly as strings.Join makes them from Parts. The temporary directory the tests work under is not modelled.
- Walking.Node: a followed symbolic link carries its target's Stat answer and listing. A cyclic link structure therefore cannot be expressed: the walk over a tree always ends. The library's walk with FollowSymlinks over a cyclic link does not end.
- Walking.WalkSpec: the visitor is a pure function of the earlier calls and the current visit. Side effects the visitor has on the filesystem during the walk are not modelled.
- Strings and paths are sequences of Unicode characters. Go strings are bytes, and strings.TrimSpace decodes them as UTF-8. Byte strings that are not valid UTF-8 cannot be expressed. On valid UTF-8 nothing changes, because "/", "." and " " are ASCII.
- Walking.ChildPath: a child's path is the directory's path extended by the child's name. Names are not cleaned further: "..", or a name holding a separator, is kept as it is.
- WalkOptions.PassesQuery: the error result of passesQuerySpecification is left out, because the code always returns nil there.
- WalkOptions.WalkOptsFunc: only the eight option functions of the library are modelled, not arbitrary user closures over WalkOpts.
- WalkOptions.WalkOpts: int64 sizes and int depths are unbounded integers. Overflow cannot occur in comparisons against them.
- Resolve.ResolveAll: the `fuel` parameter bounds the number of links followed. When it is spent, ResolveAll reports `TooManyLinks`. The library has no such bound and recurses forever on a link cycle.
- Resolve.Lstat: reduced to whether the backend implements afero.Lstater and to the symlink bit of the mode. The boolean saying whether lstat was really called is dropped.
- Resolve.Backend: the entry at a path is looked up by the exact path string, as afero is called with it. Backend-side normalisation of paths is not modelled.
- Paths.Join, Paths.Parent, Paths.Name: Go's filepath on POSIX only, with "/" as the separator.
- Latest.GetLatest returns the index of the chosen entry, not a Path. The entry's path is the directory joined with that entry's name.
- Latest.Entry: modification times are natural numbers, and 0 is the zero time.Time that Mtime returns alongside an error.
- The `Sep` field of a Path is fixed to "/".
- The RelativeTo test cases whose paths hold runs of separators ("////////////", "/etc/passwd/////") are not stated as literal lemmas. The general Parts lemmas cover joins with single separators and one trailing separator.
- `Readlink`, `Clean`, `DeepEquals` and `Copy`, which the tests call, are not part of this model.

## Findings

| source | as written | input that shows it | evidently intended | confidence | as-written member | corrected member |
|---|---|---|---|---|---|---|
| path.go:386-394 | the loop indexes `thisParts[idx]` for every index of the other path's parts, with no bounds check | "/etc/passwd" relative to "/etc/passwd/test": four parts against three, so index 3 is out of range and Go panics | a mismatch error with the receiver returned, as path_test.go:467 expects | not executed | Paths.RelativeToAsWrittenPanics | Paths.RelativeTo |
| path.go:394 | `thisParts[relativeBase+1:]` is taken even when both part lists are empty, so the slice starts past the end | "" relative to "": both have no parts, relativeBase stays 0, and slicing an empty list from 1 panics | "." with no error, the same as for two equal paths | not executed | Paths.RelativeToAsWrittenPanicsOnEmpty | Paths.RelativeTo |
| path.go:290-293 | on an error, resolveAllHelper returns its own argument, which after a link is the rewritten path, not the caller's | a backend where "home" is a link to "data" and "data" does not exist: ResolveAll("home") returns "data" with the error | the path unchanged on errors, as the comment at path.go:313 promises | not executed | Resolve.HelperReturnsRewrittenPathOnError | Resolve.ResolveAll |
