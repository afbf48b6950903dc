// Path.GetLatest: the entry of a directory with the most recent
// modification time. The directory listing and each entry's stat answer
// come from the backend; modification times are natural numbers, 0 being
// Go's zero time.Time that Mtime hands back with an error.

module Latest {
  import opened Errors

  /** One directory entry as GetLatest sees it: its name and what Mtime
      (a Stat of the entry) answers for it. */
  datatype Entry = Entry(name: string, mtime: Result<nat>)

  /** The time GetLatest compares for an entry whose Mtime may have failed:
      the zero time on error. */
  function Time(e: Entry): nat {
    if e.mtime.Ok? then e.mtime.value else 0
  }

  /** An entry whose Mtime error GetLatest throws away: the entry vanished
      after the listing was read. */
  predicate Vanished(e: Entry) {
    e.mtime == Err(NotExist)
  }

  /** The loop of GetLatest from entry i on, `greatest` being the entry
      seen so far with the latest time (none before the first entry). */
  function LatestFrom(files: seq<Entry>, i: nat, greatest: Option<nat>): (r: Result<Option<nat>>)
    requires i <= |files|
    requires greatest.Some? ==> greatest.value < i
    ensures r.Ok? && r.value.Some? ==> r.value.value < |files|
    ensures r.Ok? && i < |files| ==> r.value.Some?
    decreases |files| - i
  {
    if i == |files| then Ok(greatest)
    else
      var g := if greatest.None? then i else greatest.value;
      var gm := files[g].mtime;
      if gm.Err? then Err(gm.error)
      else
        var tm := files[i].mtime;
        if tm.Err? && tm.error != NotExist then Err(tm.error)
        else LatestFrom(files, i + 1, Some(if Time(files[i]) > gm.value then i else g))
  }

  /** GetLatest over the backend's answer to ReadDir: the index of the
      latest entry, none for an empty directory, or the first error met. */
  function LatestSpec(listing: Result<seq<Entry>>): Result<Option<nat>> {
    if listing.Err? then Err(listing.error) else LatestFrom(listing.value, 0, None)
  }

  /** GetLatest, with the loop that keeps the latest entry seen so far. */
  method GetLatest(listing: Result<seq<Entry>>) returns (r: Result<Option<nat>>)
    ensures r == LatestSpec(listing)
    ensures listing.Err? ==> r == Err(listing.error)
    ensures listing == Ok([]) ==> r == Ok(None)
  {
    if listing.Err? {
      return Err(listing.error);
    }
    var files := listing.value;
    var greatest: Option<nat> := None;
    var i := 0;
    while i < |files|
      invariant 0 <= i <= |files|
      invariant greatest.Some? ==> greatest.value < i
      invariant i == 0 ==> greatest.None?
      invariant LatestFrom(files, i, greatest) == LatestFrom(files, 0, None)
    {
      if greatest.None? {
        greatest := Some(i);
      }
      var greatestMtime := files[greatest.value].mtime;
      if greatestMtime.Err? {
        return Err(greatestMtime.error);
      }
      var thisMtime := files[i].mtime;
      if thisMtime.Err? && thisMtime.error != NotExist {
        return Err(thisMtime.error);
      }
      if Time(files[i]) > greatestMtime.value {
        greatest := Some(i);
      }
      i := i + 1;
    }
    return Ok(greatest);
  }

  /** Entry k has the latest time among the first n entries, and no entry
      before it has that time. */
  ghost predicate EarliestLatest(files: seq<Entry>, n: nat, k: nat)
    requires n <= |files|
  {
    k < n
    && (forall j :: 0 <= j < n ==> Time(files[j]) <= Time(files[k]))
    && (forall j :: 0 <= j < k ==> Time(files[j]) < Time(files[k]))
  }

  /** Every Mtime error among the entries is a vanished entry. */
  ghost predicate OnlyVanished(files: seq<Entry>) {
    forall j :: 0 <= j < |files| ==> files[j].mtime.Ok? || Vanished(files[j])
  }

  lemma {:induction false} LatestFromKeepsEarliest(files: seq<Entry>, i: nat, g: nat)
    requires 0 < i <= |files| && OnlyVanished(files)
    requires EarliestLatest(files, i, g) && files[g].mtime.Ok?
    ensures LatestFrom(files, i, Some(g)).Ok?
    ensures var k := LatestFrom(files, i, Some(g)).value;
            k.Some? && EarliestLatest(files, |files|, k.value) && files[k.value].mtime.Ok?
    decreases |files| - i
  {
    if i < |files| {
      var g' := if Time(files[i]) > Time(files[g]) then i else g;
      if Time(files[i]) > Time(files[g]) {
        assert files[i].mtime.Ok?;
      }
      LatestFromKeepsEarliest(files, i + 1, g');
    }
  }

  /** When the first entry has a time and every other failure is a vanished
      entry, GetLatest picks the entry with the strictly latest time, the
      earliest one winning a tie, and never a vanished entry. */
  lemma PicksEarliestLatest(files: seq<Entry>)
    requires |files| > 0 && files[0].mtime.Ok? && OnlyVanished(files)
    ensures LatestSpec(Ok(files)).Ok?
    ensures var k := LatestSpec(Ok(files)).value;
            k.Some? && EarliestLatest(files, |files|, k.value) && files[k.value].mtime.Ok?
  {
    LatestFromKeepsEarliest(files, 1, 0);
  }

  /** An entry is a failure GetLatest gives up on: the first entry whose
      Mtime fails at all (it is the greatest seen so far), or a later one
      whose error is not a vanished entry. */
  predicate Fatal(files: seq<Entry>, j: nat)
    requires j < |files|
  {
    files[j].mtime.Err? && (j == 0 || !Vanished(files[j]))
  }

  lemma {:induction false} LatestFromFails(files: seq<Entry>, i: nat, g: nat, j: nat)
    requires 0 < i <= j < |files| && g < i && files[g].mtime.Ok?
    requires Fatal(files, j)
    requires forall m :: i <= m < j ==> files[m].mtime.Ok? || Vanished(files[m])
    ensures LatestFrom(files, i, Some(g)) == Err(files[j].mtime.error)
    decreases j - i
  {
    if i < j {
      var g' := if Time(files[i]) > Time(files[g]) then i else g;
      if Time(files[i]) > Time(files[g]) {
        assert files[i].mtime.Ok?;
      }
      LatestFromFails(files, i + 1, g', j);
    }
  }

  /** GetLatest fails with the error of the first fatal entry, every entry
      before it having a time or having vanished. */
  lemma FailsAtFirstFatal(files: seq<Entry>, j: nat)
    requires j < |files| && Fatal(files, j)
    requires forall m :: 0 <= m < j ==> !Fatal(files, m)
    ensures LatestSpec(Ok(files)) == Err(files[j].mtime.error)
  {
    if j > 0 {
      assert !Fatal(files, 0);
      forall m | 1 <= m < j ensures files[m].mtime.Ok? || Vanished(files[m]) {
        assert !Fatal(files, m);
      }
      LatestFromFails(files, 1, 0, j);
    }
  }

  /** GetLatest succeeds exactly when no entry is fatal. */
  lemma SucceedsIffNoFatal(files: seq<Entry>)
    ensures LatestSpec(Ok(files)).Ok? <==> forall j :: 0 <= j < |files| ==> !Fatal(files, j)
  {
    if forall j :: 0 <= j < |files| ==> !Fatal(files, j) {
      if |files| > 0 {
        assert !Fatal(files, 0);
        assert OnlyVanished(files) by {
          forall j | 0 <= j < |files| ensures files[j].mtime.Ok? || Vanished(files[j]) {
            assert !Fatal(files, j);
          }
        }
        PicksEarliestLatest(files);
      }
    } else {
      var j :| 0 <= j < |files| && Fatal(files, j);
      FirstFatal(files, j);
    }
  }

  /** Below any fatal entry there is a first one. */
  lemma {:induction false} FirstFatal(files: seq<Entry>, j: nat)
    requires j < |files| && Fatal(files, j)
    ensures LatestSpec(Ok(files)).Err?
    decreases j
  {
    if exists m :: 0 <= m < j && Fatal(files, m) {
      var m :| 0 <= m < j && Fatal(files, m);
      FirstFatal(files, m);
    } else {
      FailsAtFirstFatal(files, j);
    }
  }

  /** Entries written one after another, each later than the one before,
      as in a directory of files touched an hour apart: the last is the latest. */
  lemma IncreasingPicksLast(files: seq<Entry>)
    requires |files| > 0
    requires forall j :: 0 <= j < |files| ==> files[j].mtime.Ok?
    requires forall j :: 0 < j < |files| ==> Time(files[j - 1]) < Time(files[j])
    ensures LatestSpec(Ok(files)) == Ok(Some(|files| - 1))
  {
    PicksEarliestLatest(files);
    var k := LatestSpec(Ok(files)).value.value;
    if k < |files| - 1 {
      Increasing(files, k, |files| - 1);
    }
  }

  lemma {:induction false} Increasing(files: seq<Entry>, a: nat, b: nat)
    requires a < b < |files|
    requires forall j :: 0 < j < |files| ==> Time(files[j - 1]) < Time(files[j])
    ensures Time(files[a]) < Time(files[b])
    decreases b - a
  {
    if a + 1 < b {
      Increasing(files, a, b - 1);
    }
  }
}
