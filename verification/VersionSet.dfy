/** Searching a version and choosing compaction inputs (db/version_set.cc). */
module VersionSet {
  import opened Common
  import opened InternalKeys
  import opened Lsm

  predicate SpanOk(f: File) {
    AtMost(f.smallest, f.largest) && f.smallest.sn <= kMaxSequenceNumber && f.largest.sn <= kMaxSequenceNumber
  }

  ghost predicate Spans(files: seq<File>) {
    forall i :: 0 <= i < |files| ==> SpanOk(files[i])
  }

  /** A vector of a level >= 1: in key order and without overlap. */
  ghost predicate FilesSorted(files: seq<File>) {
    && Spans(files)
    && forall i, j :: 0 <= i < j < |files| ==> Less(files[i].largest, files[j].smallest)
  }

  ghost function ToSet(files: seq<File>): set<File> {
    set f | f in files
  }

  // ----- FindFile and range overlap -----

  /** Least index whose largest key is at least `key`. */
  method FindFile(files: seq<File>, key: InternalKey) returns (right: nat)
    requires FilesSorted(files)
    ensures right <= |files|
    ensures forall i :: 0 <= i < right ==> Less(files[i].largest, key)
    ensures forall i :: right <= i < |files| ==> !Less(files[i].largest, key)
  {
    var left := 0;
    right := |files|;
    while left < right
      invariant left <= right <= |files|
      invariant forall i :: 0 <= i < left ==> Less(files[i].largest, key)
      invariant forall i :: right <= i < |files| ==> !Less(files[i].largest, key)
    {
      var mid := (left + right) / 2;
      CompareIsLess(files[mid].largest, key);
      assert SpanOk(files[mid]);
      if Compare(files[mid].largest, key) < 0 {
        forall i | 0 <= i < mid ensures Less(files[i].largest, key) {
          assert Less(files[i].largest, files[mid].smallest);
        }
        left := mid + 1;
      } else {
        forall i | mid < i < |files| ensures !Less(files[i].largest, key) {
          assert Less(files[mid].largest, files[i].smallest) && SpanOk(files[i]);
        }
        right := mid;
      }
    }
  }

  predicate AfterFile(user: Option<UserKey>, f: File) {
    user.Some? && user.value > f.largest.user
  }

  predicate BeforeFile(user: Option<UserKey>, f: File) {
    user.Some? && user.value < f.smallest.user
  }

  /** f meets the user-key range; a missing bound is unbounded. */
  predicate Overlaps(f: File, lo: Option<UserKey>, hi: Option<UserKey>) {
    !AfterFile(lo, f) && !BeforeFile(hi, f)
  }

  method SomeFileOverlapsRange(disjointSorted: bool, files: seq<File>, lo: Option<UserKey>, hi: Option<UserKey>)
    returns (overlap: bool)
    requires disjointSorted ==> FilesSorted(files)
    ensures overlap <==> exists f :: f in files && Overlaps(f, lo, hi)
  {
    if !disjointSorted {
      for i := 0 to |files|
        invariant forall j :: 0 <= j < i ==> !Overlaps(files[j], lo, hi)
      {
        if AfterFile(lo, files[i]) || BeforeFile(hi, files[i]) {
        } else {
          assert files[i] in files;
          return true;
        }
      }
      return false;
    }
    var index := 0;
    if lo.Some? {
      index := FindFile(files, InternalKey(lo.value, kMaxSequenceNumber, Value));
    }
    if index >= |files| {
      return false;
    }
    overlap := !BeforeFile(hi, files[index]);
    assert SpanOk(files[index]);
    if !overlap {
      forall i | index < i < |files| ensures !Overlaps(files[i], lo, hi) {
        assert Less(files[index].largest, files[i].smallest);
      }
    } else {
      assert files[index] in files && Overlaps(files[index], lo, hi);
    }
  }

  // ----- GetOverlappingInputs -----

  function Filter(files: seq<File>, lo: Option<UserKey>, hi: Option<UserKey>): (r: seq<File>)
    ensures forall f :: f in r <==> f in files && Overlaps(f, lo, hi)
  {
    if |files| == 0 then []
    else Filter(files[..|files| - 1], lo, hi) +
         (if Overlaps(files[|files| - 1], lo, hi) then [files[|files| - 1]] else [])
  }

  /** The files come in the order of the level. */
  lemma {:induction false} FilterKeepsOrder(files: seq<File>, lo: Option<UserKey>, hi: Option<UserKey>)
    requires FilesSorted(files)
    ensures FilesSorted(Filter(files, lo, hi))
  {
    hide Overlaps;
    if |files| > 0 {
      var n := |files| - 1;
      FilterKeepsOrder(files[..n], lo, hi);
      SortedAppend(files, Filter(files[..n], lo, hi));
    }
  }

  lemma SortedAppend(files: seq<File>, part: seq<File>)
    requires FilesSorted(files) && |files| > 0 && FilesSorted(part)
    requires forall f :: f in part ==> f in files[..|files| - 1]
    ensures FilesSorted(part + [files[|files| - 1]])
  {
    var g := files[|files| - 1];
    assert SpanOk(g);
    forall i | 0 <= i < |part| ensures Less(part[i].largest, g.smallest) {
      assert part[i] in part;
    }
  }

  /** No file comes more often than in the level, and a sorted level gives a sorted part. */
  lemma {:induction false} FilterIsPart(files: seq<File>, lo: Option<UserKey>, hi: Option<UserKey>)
    ensures multiset(Filter(files, lo, hi)) <= multiset(files)
    ensures FilesSorted(files) ==> FilesSorted(Filter(files, lo, hi))
  {
    hide Overlaps, FilesSorted;
    if |files| > 0 {
      assert files == files[..|files| - 1] + [files[|files| - 1]];
      FilterIsPart(files[..|files| - 1], lo, hi);
    }
    if FilesSorted(files) {
      FilterKeepsOrder(files, lo, hi);
    }
  }

  predicate UserOverlap(f: File, g: File) {
    f.smallest.user <= g.largest.user && g.smallest.user <= f.largest.user
  }

  /** S holds every file meeting the range, and every file meeting a file of S. */
  ghost predicate Closed(files: seq<File>, lo: Option<UserKey>, hi: Option<UserKey>, S: set<File>) {
    && (forall f :: f in files && Overlaps(f, lo, hi) ==> f in S)
    && (forall f, g :: f in S && g in files && UserOverlap(f, g) ==> g in S)
  }

  ghost predicate SomeCovers(S: set<File>, files: seq<File>, x: UserKey) {
    exists f :: f in S && f in files && Covers(f, x)
  }

  /** Between x and the old bound every key lies in some file of S. */
  ghost predicate Bridged(S: set<File>, files: seq<File>, from: UserKey, to: UserKey) {
    forall x :: from <= x < to ==> SomeCovers(S, files, x)
  }

  /** The mirror image above the upper bound. */
  ghost predicate BridgedUp(S: set<File>, files: seq<File>, from: UserKey, to: UserKey) {
    forall x :: from < x <= to ==> SomeCovers(S, files, x)
  }

  ghost predicate RangeWithin(files: seq<File>, lo: Option<UserKey>, hi: Option<UserKey>,
                              b: Option<UserKey>, e: Option<UserKey>) {
    && b.Some? == lo.Some? && e.Some? == hi.Some?
    && (lo.Some? ==> b.value <= lo.value) && (hi.Some? ==> hi.value <= e.value)
    && (lo.Some? ==> forall S :: Closed(files, lo, hi, S) ==> Bridged(S, files, b.value, lo.value))
    && (hi.Some? ==> forall S :: Closed(files, lo, hi, S) ==> BridgedUp(S, files, hi.value, e.value))
  }

  /** A file meeting the widened range belongs to every closed set. */
  lemma ReachedIsForced(files: seq<File>, lo: Option<UserKey>, hi: Option<UserKey>,
                        b: Option<UserKey>, e: Option<UserKey>, f: File, S: set<File>)
    requires Spans(files) && RangeWithin(files, lo, hi, b, e) && f in files && Overlaps(f, b, e)
    requires Closed(files, lo, hi, S)
    ensures f in S
  {
    if AfterFile(lo, f) {
      assert SpanOk(f) && Bridged(S, files, b.value, lo.value) && SomeCovers(S, files, f.largest.user);
      var h :| h in S && h in files && Covers(h, f.largest.user);
      assert UserOverlap(h, f);
    } else if BeforeFile(hi, f) {
      assert SpanOk(f) && BridgedUp(S, files, hi.value, e.value) && SomeCovers(S, files, f.smallest.user);
      var h :| h in S && h in files && Covers(h, f.smallest.user);
      assert UserOverlap(h, f);
    }
  }

  lemma WidenDown(files: seq<File>, lo: Option<UserKey>, hi: Option<UserKey>,
                  b: Option<UserKey>, e: Option<UserKey>, f: File)
    requires Spans(files) && RangeWithin(files, lo, hi, b, e) && f in files && Overlaps(f, b, e)
    requires b.Some? && f.smallest.user < b.value
    ensures RangeWithin(files, lo, hi, Some(f.smallest.user), e)
  {
    forall S | Closed(files, lo, hi, S)
      ensures Bridged(S, files, f.smallest.user, lo.value)
    {
      ReachedIsForced(files, lo, hi, b, e, f, S);
      assert Bridged(S, files, b.value, lo.value);
      forall x | f.smallest.user <= x < lo.value
        ensures SomeCovers(S, files, x)
      {
        if x < b.value {
          assert SpanOk(f) && Covers(f, x);
        }
      }
    }
  }

  lemma WidenUp(files: seq<File>, lo: Option<UserKey>, hi: Option<UserKey>,
                b: Option<UserKey>, e: Option<UserKey>, f: File)
    requires Spans(files) && RangeWithin(files, lo, hi, b, e) && f in files && Overlaps(f, b, e)
    requires e.Some? && e.value < f.largest.user
    ensures RangeWithin(files, lo, hi, b, Some(f.largest.user))
  {
    forall S | Closed(files, lo, hi, S)
      ensures BridgedUp(S, files, hi.value, f.largest.user)
    {
      ReachedIsForced(files, lo, hi, b, e, f, S);
      assert BridgedUp(S, files, hi.value, e.value);
      forall x | hi.value < x <= f.largest.user
        ensures SomeCovers(S, files, x)
      {
        if e.value < x {
          assert SpanOk(f) && Covers(f, x);
        }
      }
    }
  }

  /** Files that start below the bound: shrinks whenever the bound moves down. */
  function StartsBelow(files: seq<File>, b: Option<UserKey>): nat {
    if |files| == 0 || b.None? then 0
    else StartsBelow(files[..|files| - 1], b) + if files[|files| - 1].smallest.user < b.value then 1 else 0
  }

  function EndsAbove(files: seq<File>, e: Option<UserKey>): nat {
    if |files| == 0 || e.None? then 0
    else EndsAbove(files[..|files| - 1], e) + if files[|files| - 1].largest.user > e.value then 1 else 0
  }

  lemma {:induction false} StartsBelowShrinks(files: seq<File>, b: UserKey, f: File)
    requires f.smallest.user < b
    ensures StartsBelow(files, Some(f.smallest.user)) <= StartsBelow(files, Some(b))
    ensures f in files ==> StartsBelow(files, Some(f.smallest.user)) < StartsBelow(files, Some(b))
  {
    if |files| > 0 {
      StartsBelowShrinks(files[..|files| - 1], b, f);
      assert f in files ==> f in files[..|files| - 1] || f == files[|files| - 1];
    }
  }

  lemma {:induction false} EndsAboveShrinks(files: seq<File>, e: UserKey, f: File)
    requires f.largest.user > e
    ensures EndsAbove(files, Some(f.largest.user)) <= EndsAbove(files, Some(e))
    ensures f in files ==> EndsAbove(files, Some(f.largest.user)) < EndsAbove(files, Some(e))
  {
    if |files| > 0 {
      EndsAboveShrinks(files[..|files| - 1], e, f);
      assert f in files ==> f in files[..|files| - 1] || f == files[|files| - 1];
    }
  }

  /** All files of the level meeting the range; in level 0, the least set that also holds
      every file meeting one of its own. */
  method GetOverlappingInputs(level: nat, files: seq<File>, begin: Option<UserKey>, end: Option<UserKey>)
    returns (inputs: seq<File>)
    requires Spans(files)
    ensures level > 0 ==> inputs == Filter(files, begin, end)
    ensures level > 0 ==> forall f :: f in inputs <==> f in files && Overlaps(f, begin, end)
    ensures (FilesSorted(files) ==> FilesSorted(inputs)) && multiset(inputs) <= multiset(files)
    ensures level == 0 ==> Closed(files, begin, end, ToSet(inputs))
    ensures level == 0 ==> forall S :: Closed(files, begin, end, S) ==> ToSet(inputs) <= S
    ensures forall f :: f in inputs ==> f in files
    ensures exists b, e :: inputs == Filter(files, b, e)
  {
    hide RangeWithin, Closed, StartsBelow, EndsAbove, Spans, FilesSorted;
    RangeStarts(files, begin, end);
    inputs := [];
    var userBegin, userEnd := begin, end;
    var i := 0;
    while i < |files|
      invariant i <= |files|
      invariant inputs == Filter(files[..i], userBegin, userEnd)
      invariant level > 0 ==> userBegin == begin && userEnd == end
      invariant RangeWithin(files, begin, end, userBegin, userEnd)
      invariant level == 0 ==> forall f :: f in inputs ==>
        (userBegin.Some? ==> userBegin.value <= f.smallest.user) && (userEnd.Some? ==> f.largest.user <= userEnd.value)
      decreases StartsBelow(files, userBegin) + EndsAbove(files, userEnd), |files| - i
    {
      var f := files[i];
      i := i + 1;
      assert files[..i][..i - 1] == files[..i - 1];
      if userBegin.Some? && f.largest.user < userBegin.value {
      } else if userEnd.Some? && f.smallest.user > userEnd.value {
      } else {
        inputs := inputs + [f];
        if level == 0 {
          if userBegin.Some? && f.smallest.user < userBegin.value {
            WidenDown(files, begin, end, userBegin, userEnd, f);
            StartsBelowShrinks(files, userBegin.value, f);
            userBegin := Some(f.smallest.user);
            inputs, i := [], 0;
          } else if userEnd.Some? && f.largest.user > userEnd.value {
            WidenUp(files, begin, end, userBegin, userEnd, f);
            EndsAboveShrinks(files, userEnd.value, f);
            userEnd := Some(f.largest.user);
            inputs, i := [], 0;
          }
        }
      }
    }
    assert files[..i] == files;
    FilterIsPart(files, userBegin, userEnd);
    if level == 0 {
      ReachedIsClosed(files, begin, end, userBegin, userEnd);
      ReachedIsLeast(files, begin, end, userBegin, userEnd);
    }
  }

  lemma RangeStarts(files: seq<File>, begin: Option<UserKey>, end: Option<UserKey>)
    ensures RangeWithin(files, begin, end, begin, end)
  {}

  lemma ReachedIsClosed(files: seq<File>, begin: Option<UserKey>, end: Option<UserKey>, b: Option<UserKey>, e: Option<UserKey>)
    requires Spans(files) && RangeWithin(files, begin, end, b, e)
    requires forall f :: f in Filter(files, b, e) ==> (b.Some? ==> b.value <= f.smallest.user) && (e.Some? ==> f.largest.user <= e.value)
    ensures Closed(files, begin, end, ToSet(Filter(files, b, e)))
  {}

  lemma ReachedIsLeast(files: seq<File>, begin: Option<UserKey>, end: Option<UserKey>, b: Option<UserKey>,
          e: Option<UserKey>)
    requires Spans(files) && RangeWithin(files, begin, end, b, e)
    ensures forall S :: Closed(files, begin, end, S) ==> ToSet(Filter(files, b, e)) <= S
  {
    hide RangeWithin, Closed, Spans, Overlaps;
    forall S, f | Closed(files, begin, end, S) && f in Filter(files, b, e) ensures f in S {
      ReachedIsForced(files, begin, end, b, e, f, S);
    }
  }

  // ----- boundary files -----

  /** g continues the user key that f ends with. */
  predicate Boundary(f: InternalKey, g: File) {
    Less(f, g.smallest) && f.user == g.smallest.user
  }

  ghost predicate IsLargest(files: seq<File>, key: InternalKey) {
    && (exists f :: f in files && f.largest == key)
    && (forall f :: f in files ==> AtMost(f.largest, key))
  }

  ghost predicate IsSmallest(files: seq<File>, key: InternalKey) {
    && (exists f :: f in files && f.smallest == key)
    && (forall f :: f in files ==> AtMost(key, f.smallest))
  }

  /** The chosen files are consecutive in the vector. */
  ghost predicate Convex(files: seq<File>, S: set<File>) {
    forall i, j, k :: 0 <= i <= j <= k < |files| && files[i] in S && files[k] in S ==> files[j] in S
  }

  method FindLargestKey(files: seq<File>) returns (largest: Option<InternalKey>)
    ensures largest.None? <==> |files| == 0
    ensures largest.Some? ==> IsLargest(files, largest.value)
  {
    if |files| == 0 {
      return None;
    }
    var key := files[0].largest;
    assert files[0] in files;
    for i := 1 to |files|
      invariant exists f :: f in files && f.largest == key
      invariant forall j :: 0 <= j < i ==> AtMost(files[j].largest, key)
    {
      CompareIsLess(files[i].largest, key);
      if Compare(files[i].largest, key) > 0 {
        key := files[i].largest;
        assert files[i] in files;
      }
    }
    return Some(key);
  }

  method FindSmallestBoundaryFile(levelFiles: seq<File>, largest: InternalKey) returns (found: Option<File>)
    ensures found.None? ==> forall g :: g in levelFiles ==> !Boundary(largest, g)
    ensures found.Some? ==> found.value in levelFiles && Boundary(largest, found.value)
    ensures found.Some? ==> forall g :: g in levelFiles && Boundary(largest, g) ==> AtMost(found.value.smallest, g.smallest)
  {
    found := None;
    for i := 0 to |levelFiles|
      invariant found.None? ==> forall j :: 0 <= j < i ==> !Boundary(largest, levelFiles[j])
      invariant found.Some? ==> found.value in levelFiles && Boundary(largest, found.value)
      invariant found.Some? ==>
        forall j :: 0 <= j < i && Boundary(largest, levelFiles[j]) ==> AtMost(found.value.smallest, levelFiles[j].smallest)
    {
      var f := levelFiles[i];
      CompareIsLess(f.smallest, largest);
      if Compare(f.smallest, largest) > 0 && f.smallest.user == largest.user {
        if found.None? {
          found := Some(f);
        } else {
          CompareIsLess(f.smallest, found.value.smallest);
          if Compare(f.smallest, found.value.smallest) < 0 {
            found := Some(f);
          }
        }
      }
    }
  }

  /** Files that start after the key: shrinks as the key grows. */
  function StartsAfter(files: seq<File>, key: InternalKey): nat {
    if |files| == 0 then 0
    else StartsAfter(files[..|files| - 1], key) + if Less(key, files[|files| - 1].smallest) then 1 else 0
  }

  lemma {:induction false} StartsAfterShrinks(files: seq<File>, key: InternalKey, f: File)
    requires SpanOk(f) && Less(key, f.smallest)
    ensures StartsAfter(files, f.largest) <= StartsAfter(files, key)
    ensures f in files ==> StartsAfter(files, f.largest) < StartsAfter(files, key)
  {
    if |files| > 0 {
      StartsAfterShrinks(files[..|files| - 1], key, f);
      assert f in files ==> f in files[..|files| - 1] || f == files[|files| - 1];
    }
  }

  lemma SortedOrder(files: seq<File>, i: nat, j: nat)
    requires FilesSorted(files) && i <= j < |files|
    ensures AtMost(files[i].largest, files[j].largest) && AtMost(files[i].smallest, files[j].largest)
    ensures AtMost(files[i].smallest, files[j].smallest) && (i < j ==> Less(files[i].smallest, files[j].smallest))
  {
    assert SpanOk(files[i]) && SpanOk(files[j]);
    assert i < j ==> Less(files[i].largest, files[j].smallest);
  }

  lemma LargestIndex(files: seq<File>, chosen: seq<File>, key: InternalKey) returns (m: nat)
    requires FilesSorted(files) && IsLargest(chosen, key) && forall f :: f in chosen ==> f in files
    ensures m < |files| && files[m] in chosen && files[m].largest == key
    ensures forall i :: m < i < |files| ==> files[i] !in chosen
  {
    var f :| f in chosen && f.largest == key;
    m :| 0 <= m < |files| && files[m] == f;
    forall i | m < i < |files| ensures files[i] !in chosen {
      SortedOrder(files, m, i);
      assert SpanOk(files[i]) && Less(files[m].largest, files[i].smallest);
    }
  }

  /** In a sorted level, the boundary file found after a slice is the file next to it. */
  lemma BoundaryIsNext(files: seq<File>, hi: nat, g: File)
    requires FilesSorted(files) && 0 < hi <= |files|
    requires g in files && Boundary(files[hi - 1].largest, g)
    requires forall h :: h in files && Boundary(files[hi - 1].largest, h) ==> AtMost(g.smallest, h.smallest)
    ensures hi < |files| && g == files[hi]
  {
    var j :| 0 <= j < |files| && files[j] == g;
    forall i | 0 <= i < hi ensures !Boundary(files[hi - 1].largest, files[i]) {
      SortedOrder(files, i, hi - 1);
    }
    assert files[hi] in files;
    SortedOrder(files, hi - 1, hi);
    SortedOrder(files, hi, j);
    assert Less(files[hi - 1].largest, files[hi].smallest);
  }

  ghost predicate ClosedUnder(files: seq<File>, S: set<File>) {
    forall f, g :: f in S && g in files && UserOverlap(f, g) ==> g in S
  }

  /** g is the first file that continues the user key f ends with. */
  ghost predicate Continues(files: seq<File>, f: File, g: File) {
    && g in files && Boundary(f.largest, g)
    && forall h :: h in files && Boundary(f.largest, h) ==> AtMost(g.smallest, h.smallest)
  }

  /** S holds with a file the one that continues it. */
  ghost predicate HoldsNext(files: seq<File>, S: set<File>) {
    forall f, g :: f in S && Continues(files, f, g) ==> g in S
  }

  /** Adds the files that continue the largest chosen user key, until none is left, and no others. */
  method AddBoundaryInputs(levelFiles: seq<File>, compactionFiles: seq<File>) returns (result: seq<File>)
    requires Spans(levelFiles) && forall f :: f in compactionFiles ==> f in levelFiles
    ensures compactionFiles <= result && forall f :: f in result ==> f in levelFiles
    ensures forall key, g :: IsLargest(result, key) && g in levelFiles ==> !Boundary(key, g)
    ensures FilesSorted(levelFiles) && Convex(levelFiles, ToSet(compactionFiles)) ==> Convex(levelFiles, ToSet(result))
    ensures ClosedUnder(levelFiles, ToSet(compactionFiles)) ==> result == compactionFiles
    ensures forall S :: ToSet(compactionFiles) <= S && HoldsNext(levelFiles, S) ==> ToSet(result) <= S
  {
    result := compactionFiles;
    var largest := FindLargestKey(compactionFiles);
    if largest.None? {
      return;
    }
    var largestKey := largest.value;
    var continueSearching := true;
    while continueSearching
      invariant compactionFiles <= result && forall f :: f in result ==> f in levelFiles
      invariant IsLargest(result, largestKey)
      invariant !continueSearching ==> forall g :: g in levelFiles ==> !Boundary(largestKey, g)
      invariant FilesSorted(levelFiles) && Convex(levelFiles, ToSet(compactionFiles)) ==> Convex(levelFiles, ToSet(result))
      invariant ClosedUnder(levelFiles, ToSet(compactionFiles)) ==> result == compactionFiles
      invariant forall S :: ToSet(compactionFiles) <= S && HoldsNext(levelFiles, S) ==> ToSet(result) <= S
      decreases continueSearching, StartsAfter(levelFiles, largestKey)
    {
      hide IsLargest, Convex, ClosedUnder, FilesSorted;
      var found := FindSmallestBoundaryFile(levelFiles, largestKey);
      if found.Some? {
        var g := found.value;
        assert SpanOk(g);
        if FilesSorted(levelFiles) && Convex(levelFiles, ToSet(compactionFiles)) {
          ConvexExtends(levelFiles, result, largestKey, g);
        }
        if ClosedUnder(levelFiles, ToSet(compactionFiles)) {
          ClosedHasNoBoundary(levelFiles, compactionFiles, largestKey, g);
        }
        StartsAfterShrinks(levelFiles, largestKey, g);
        LargestAppended(result, largestKey, g);
        NextIsForced(levelFiles, compactionFiles, result, largestKey, g);
        result := result + [g];
        largestKey := g.largest;
      } else {
        continueSearching := false;
      }
    }
    forall key, g | IsLargest(result, key) && g in levelFiles ensures !Boundary(key, g) {
      LargestIsUnique(result, key, largestKey);
    }
  }

  lemma NextIsForced(files: seq<File>, start: seq<File>, chosen: seq<File>, key: InternalKey, g: File)
    requires IsLargest(chosen, key) && g in files && Boundary(key, g)
    requires forall h :: h in files && Boundary(key, h) ==> AtMost(g.smallest, h.smallest)
    requires forall S :: ToSet(start) <= S && HoldsNext(files, S) ==> ToSet(chosen) <= S
    ensures forall S :: ToSet(start) <= S && HoldsNext(files, S) ==> ToSet(chosen + [g]) <= S
  {
    var f :| f in chosen && f.largest == key;
    forall S | ToSet(start) <= S && HoldsNext(files, S) ensures ToSet(chosen + [g]) <= S {
      assert f in ToSet(chosen) && f in S && Continues(files, f, g);
    }
  }

  lemma LargestIsUnique(files: seq<File>, a: InternalKey, b: InternalKey)
    requires IsLargest(files, a) && IsLargest(files, b)
    ensures a == b
  {}

  lemma ConvexExtends(files: seq<File>, chosen: seq<File>, key: InternalKey, g: File)
    requires FilesSorted(files) && Convex(files, ToSet(chosen)) && IsLargest(chosen, key)
    requires forall f :: f in chosen ==> f in files
    requires g in files && Boundary(key, g)
    requires forall h :: h in files && Boundary(key, h) ==> AtMost(g.smallest, h.smallest)
    ensures Convex(files, ToSet(chosen + [g]))
  {
    var m := LargestIndex(files, chosen, key);
    BoundaryIsNext(files, m + 1, g);
    hide FilesSorted, Boundary, IsLargest;
    var S := ToSet(chosen);
    assert ToSet(chosen + [g]) == S + {g};
    forall i, j, k | 0 <= i <= j <= k < |files| && files[i] in S + {g} && files[k] in S + {g}
      ensures files[j] in S + {g}
    {
      OnlyPlace(files, m + 1, i);
      OnlyPlace(files, m + 1, k);
    }
  }

  lemma OnlyPlace(files: seq<File>, m: nat, i: nat)
    requires FilesSorted(files) && m < |files| && i < |files|
    ensures files[i] == files[m] ==> i == m
  {
    if i < m {
      SortedOrder(files, i, m);
    } else {
      SortedOrder(files, m, i);
    }
  }

  lemma LargestAppended(files: seq<File>, key: InternalKey, g: File)
    requires IsLargest(files, key) && SpanOk(g) && Less(key, g.smallest)
    ensures IsLargest(files + [g], g.largest)
  {
    assert g in files + [g];
  }

  lemma ClosedHasNoBoundary(levelFiles: seq<File>, chosen: seq<File>, key: InternalKey, g: File)
    requires Spans(levelFiles) && ClosedUnder(levelFiles, ToSet(chosen)) && IsLargest(chosen, key)
    requires forall f :: f in chosen ==> f in levelFiles
    requires g in levelFiles
    ensures !Boundary(key, g)
  {
    var f :| f in chosen && f.largest == key;
    assert SpanOk(f) && SpanOk(g);
    assert UserOverlap(f, g) ==> g in ToSet(chosen) && g in chosen;
  }

  /** Least range covering the files. */
  method GetRange(inputs: seq<File>) returns (smallest: InternalKey, largest: InternalKey)
    requires |inputs| > 0
    ensures IsSmallest(inputs, smallest) && IsLargest(inputs, largest)
  {
    smallest, largest := inputs[0].smallest, inputs[0].largest;
    assert inputs[0] in inputs;
    for i := 1 to |inputs|
      invariant exists f :: f in inputs && f.smallest == smallest
      invariant exists f :: f in inputs && f.largest == largest
      invariant forall j :: 0 <= j < i ==> AtMost(smallest, inputs[j].smallest) && AtMost(inputs[j].largest, largest)
    {
      assert inputs[i] in inputs;
      CompareIsLess(inputs[i].smallest, smallest);
      CompareIsLess(inputs[i].largest, largest);
      if Compare(inputs[i].smallest, smallest) < 0 {
        smallest := inputs[i].smallest;
      }
      if Compare(inputs[i].largest, largest) > 0 {
        largest := inputs[i].largest;
      }
    }
  }

  // ----- SetupOtherInputs -----

  lemma {:induction false} FilterGrows(files: seq<File>, lo: UserKey, hi: UserKey, lo': UserKey, hi': UserKey)
    requires lo' <= lo && hi <= hi'
    ensures |Filter(files, Some(lo), Some(hi))| <= |Filter(files, Some(lo'), Some(hi'))|
    ensures |Filter(files, Some(lo), Some(hi))| == |Filter(files, Some(lo'), Some(hi'))|
      ==> Filter(files, Some(lo), Some(hi)) == Filter(files, Some(lo'), Some(hi'))
  {
    if |files| > 0 {
      FilterGrows(files[..|files| - 1], lo, hi, lo', hi');
    }
  }

  lemma MiddleOverlaps(files: seq<File>, a: nat, i: nat, n: nat, lo: Option<UserKey>, hi: Option<UserKey>)
    requires FilesSorted(files) && a <= i <= n < |files|
    requires Overlaps(files[a], lo, hi) && Overlaps(files[n], lo, hi)
    ensures Overlaps(files[i], lo, hi)
  {
    SortedOrder(files, a, i);
    SortedOrder(files, i, n);
  }

  lemma FilterIsConvex(files: seq<File>, lo: Option<UserKey>, hi: Option<UserKey>)
    requires FilesSorted(files)
    ensures Convex(files, ToSet(Filter(files, lo, hi)))
  {
    forall i, j, k | 0 <= i <= j <= k < |files| && files[i] in Filter(files, lo, hi) && files[k] in Filter(files, lo, hi)
      ensures files[j] in Filter(files, lo, hi)
    {
      MiddleOverlaps(files, i, j, k, lo, hi);
    }
  }

  ghost function LevelsOf(files: seq<seq<File>>): Levels {
    seq(|files|, i requires 0 <= i < |files| => ToSet(files[i]))
  }

  ghost predicate VersionOk(files: seq<seq<File>>) {
    && |files| == kNumLevels
    && (forall l :: 0 <= l < |files| ==> Spans(files[l]))
    && (forall l :: 1 <= l < |files| ==> FilesSorted(files[l]))
  }

  /** What a compaction may start from: in level 0 a set closed under overlap, deeper
      a run of consecutive files. */
  ghost predicate Startable(level: nat, files: seq<File>, chosen: seq<File>) {
    && |chosen| > 0 && (forall f :: f in chosen ==> f in files)
    && (level == 0 ==> ClosedUnder(files, ToSet(chosen)))
    && (level > 0 ==> Convex(files, ToSet(chosen)))
  }

  /** No file of the level continues the largest chosen user key. */
  ghost predicate BoundaryClosed(files: seq<File>, chosen: seq<File>) {
    forall key, g :: IsLargest(chosen, key) && g in files ==> !Boundary(key, g)
  }

  lemma BoundaryClosedEverywhere(files: seq<File>, chosen: seq<File>, key: InternalKey, f: File, g: File)
    requires FilesSorted(files) && Convex(files, ToSet(chosen)) && BoundaryClosed(files, chosen)
    requires IsLargest(chosen, key) && forall h :: h in chosen ==> h in files
    requires f in chosen && g in files && g !in chosen && Less(f.largest, g.smallest)
    ensures f.largest.user != g.smallest.user
  {
    var m := LargestIndex(files, chosen, key);
    var i :| 0 <= i < |files| && files[i] == f;
    var j :| 0 <= j < |files| && files[j] == g;
    assert i <= m;
    if j < i {
      SortedOrder(files, j, i);
    } else if j < m {
      assert files[m] in ToSet(chosen) && files[i] in ToSet(chosen);
    } else {
      SortedOrder(files, i, m);
      assert !Boundary(key, g);
      assert j > m ==> Less(files[m].largest, files[j].smallest);
    }
  }

  lemma HullOverlap(chosen: seq<File>, lo: InternalKey, hi: InternalKey, g: File)
    requires IsSmallest(chosen, lo) && IsLargest(chosen, hi)
    ensures Overlaps(g, Some(lo.user), Some(hi.user)) <==> OverlapsHull(ToSet(chosen), g)
  {
    var a :| a in chosen && a.smallest == lo;
    var b :| b in chosen && b.largest == hi;
    assert a in ToSet(chosen) && b in ToSet(chosen);
  }

  /** The selection conditions in the vectors are those the merge tree relies on. */
  lemma SelectionIsValid(files: seq<seq<File>>, level: nat, in0: seq<File>, in1: seq<File>, lo: InternalKey, hi: InternalKey)
    requires VersionOk(files) && level + 1 < kNumLevels
    requires Startable(level, files[level], in0) && BoundaryClosed(files[level], in0)
    requires IsSmallest(in0, lo) && IsLargest(in0, hi)
    requires in1 == Filter(files[level + 1], Some(lo.user), Some(hi.user))
    ensures ValidInputs(LevelsOf(files), level, ToSet(in0), ToSet(in1))
  {
    hide IsSmallest, Convex, FilesSorted, Spans;
    var levels := LevelsOf(files);
    assert levels[level] == ToSet(files[level]) && levels[level + 1] == ToSet(files[level + 1]);
    if level > 0 {
      forall f, g | f in ToSet(in0) && g in levels[level] - ToSet(in0) && Less(f.largest, g.smallest)
        ensures f.largest.user != g.smallest.user
      {
        BoundaryClosedEverywhere(files[level], in0, hi, f, g);
      }
    } else {
      forall f, g | f in ToSet(in0) && g in levels[0] - ToSet(in0) ensures UserApart(f, g) {
        assert !UserOverlap(f, g);
      }
    }
    forall g | g in levels[level + 1] ensures g in ToSet(in1) <==> OverlapsHull(ToSet(in0), g) {
      HullOverlap(in0, lo, hi, g);
    }
    assert in0[0] in ToSet(in0);
  }

  function TotalFileSize(files: seq<File>): nat {
    if |files| == 0 then 0 else files[0].size + TotalFileSize(files[1..])
  }

  /** Every chosen file meets the range from the least to the greatest chosen key. */
  lemma ChosenOverlap(files: seq<File>, chosen: seq<File>, lo: InternalKey, hi: InternalKey, f: File)
    requires Spans(files) && f in files && f in chosen
    requires forall g :: g in chosen ==> AtMost(lo, g.smallest) && AtMost(g.largest, hi)
    ensures Overlaps(f, Some(lo.user), Some(hi.user))
  {
    assert SpanOk(f);
  }

  lemma OverlapsAreStartable(level: nat, files: seq<File>, inputs: seq<File>, b: Option<UserKey>, e: Option<UserKey>)
    requires Spans(files) && (level > 0 ==> FilesSorted(files)) && |inputs| > 0
    requires forall f :: f in inputs ==> f in files
    requires level > 0 ==> inputs == Filter(files, b, e)
    requires level == 0 ==> Closed(files, b, e, ToSet(inputs))
    ensures Startable(level, files, inputs)
  {
    if level > 0 {
      FilterIsConvex(files, b, e);
    }
  }

  /** S holds every file of the level that meets the range, what continues these, and in level 0 what meets them. */
  ghost predicate HoldsRange(level: nat, files: seq<File>, begin: UserKey, end: UserKey, S: set<File>) {
    && (forall f :: f in files && Overlaps(f, Some(begin), Some(end)) ==> f in S)
    && (level == 0 ==> ClosedUnder(files, S)) && HoldsNext(files, S)
  }

  /** Overlapping files of a level, closed under boundary files. */
  method OverlappingClosed(level: nat, files: seq<File>, begin: UserKey, end: UserKey) returns (inputs: seq<File>)
    requires Spans(files) && (level > 0 ==> FilesSorted(files))
    ensures forall f :: f in files && Overlaps(f, Some(begin), Some(end)) ==> f in inputs
    ensures |inputs| > 0 ==> Startable(level, files, inputs) && BoundaryClosed(files, inputs)
    ensures forall S :: HoldsRange(level, files, begin, end, S) ==> ToSet(inputs) <= S
  {
    var found := GetOverlappingInputs(level, files, Some(begin), Some(end));
    inputs := AddBoundaryInputs(files, found);
    if |inputs| > 0 {
      if |found| > 0 {
        OverlapsAreStartable(level, files, found, Some(begin), Some(end));
      }
    }
    forall S | HoldsRange(level, files, begin, end, S) ensures ToSet(found) <= S {
      assert level == 0 ==> Closed(files, Some(begin), Some(end), S);
    }
  }

  /** The same of the range from the least to the greatest user key of some files. */
  ghost predicate HoldsHull(level: nat, files: seq<File>, hull: set<File>, S: set<File>) {
    && (forall f :: f in files && OverlapsHull(hull, f) ==> f in S)
    && (level == 0 ==> ClosedUnder(files, S)) && HoldsNext(files, S)
  }

  /** More files of the level may be taken: there are more in the range of all inputs, they keep within the limit, and
      they meet no further file one level down. */
  ghost predicate MayGrow(next: seq<File>, picked: seq<File>, in1: seq<File>, expanded: seq<File>, limit: nat) {
    && |in1| > 0 && |expanded| > |picked| && TotalFileSize(in1) + TotalFileSize(expanded) < limit
    && forall g :: g in next && OverlapsHull(ToSet(expanded), g) ==> g in in1
  }

  /** The picked files with those they meet one level down; more of their own level only where MayGrow says so, and
      then all that the range of both brings in, and no others. */
  ghost predicate Completed(files: seq<seq<File>>, level: nat, limit: nat, picked: seq<File>, expanded: seq<File>,
                            in0: seq<File>, in1: seq<File>)
    requires level + 1 < |files|
  {
    && Startable(level, files[level], picked) && BoundaryClosed(files[level], picked)
    && (forall g :: g in in1 <==> g in files[level + 1] && OverlapsHull(ToSet(picked), g))
    && (FilesSorted(files[level + 1]) ==> FilesSorted(in1))
    && (|in1| > 0 ==> Expansion(level, files[level], ToSet(picked + in1), expanded))
    && in0 == if MayGrow(files[level + 1], picked, in1, expanded, limit) then expanded else picked
  }

  /** The files are all that the hull brings in, and no others. */
  ghost predicate Expansion(level: nat, files: seq<File>, hull: set<File>, expanded: seq<File>) {
    && (forall f :: f in files && OverlapsHull(hull, f) ==> f in expanded)
    && (forall S :: HoldsHull(level, files, hull, S) ==> ToSet(expanded) <= S)
  }

  /** SetupOtherInputs: closes the chosen files under boundary files, takes the overlapping
      files one level down, and chooses more files whenever that does not change those. */
  method SetupOtherInputs(files: seq<seq<File>>, level: nat, start: seq<File>, expandedLimit: nat)
    returns (in0: seq<File>, in1: seq<File>, compactPointer: InternalKey, ghost picked: seq<File>, ghost expanded: seq<File>)
    requires VersionOk(files) && level + 1 < kNumLevels && Startable(level, files[level], start)
    ensures ValidInputs(LevelsOf(files), level, ToSet(in0), ToSet(in1))
    ensures start <= picked && ToSet(picked) <= ToSet(in0)
    ensures forall S :: ToSet(start) <= S && HoldsNext(files[level], S) ==> ToSet(picked) <= S
    ensures Completed(files, level, expandedLimit, picked, expanded, in0, in1)
    ensures IsLargest(in0, compactPointer)
  {
    hide HoldsNext, ClosedUnder, IsSmallest, ValidInputs, BoundaryClosed, FilesSorted, Spans, TotalFileSize, Startable,
         IsLargest, Overlaps, OverlapsHull, HoldsHull, HoldsRange, Expansion, Completed, MayGrow, Filter;
    LevelSorted(files, level);
    LevelSorted(files, level + 1);
    StartIn(level, files[level], start);
    in0 := AddBoundaryInputs(files[level], start);
    picked, expanded := in0, in0;
    StillStartable(level, files[level], start, in0);
    var smallest, largest := GetRange(in0);
    in1 := GetOverlappingInputs(level + 1, files[level + 1], Some(smallest.user), Some(largest.user));
    SelectionIsValid(files, level, in0, in1, smallest, largest);
    MetByHull(files[level + 1], picked, smallest, largest, in1);
    compactPointer := largest;
    if |in1| > 0 {
      var allStart, allLimit := GetRange(in0 + in1);
      var expanded0 := OverlappingClosed(level, files[level], allStart.user, allLimit.user);
      expanded := expanded0;
      IsExpansion(level, files[level], in0 + in1, allStart, allLimit, expanded0);
      ExpandedHoldsInputs(files[level], in0, in1, expanded0, allStart, allLimit);
      SmallGrowth(files[level + 1], in0, in1, expanded0, expandedLimit);
      if |expanded0| > |in0| && TotalFileSize(in1) + TotalFileSize(expanded0) < expandedLimit {
        var newStart, newLimit := GetRange(expanded0);
        var expanded1 := GetOverlappingInputs(level + 1, files[level + 1], Some(newStart.user), Some(newLimit.user));
        RangeGrows(in0, expanded0, smallest, largest, newStart, newLimit);
        NoMoreMet(files[level + 1], in1, expanded1, smallest, largest, newStart, newLimit);
        GrowsIff(files[level + 1], in0, in1, expanded0, expanded1, newStart, newLimit, expandedLimit);
        if |expanded1| == |in1| {
          SelectionIsValid(files, level, expanded0, expanded1, newStart, newLimit);
          in0, in1, compactPointer := expanded0, expanded1, newLimit;
        }
      }
    }
    SmallGrowth(files[level + 1], picked, in1, expanded, expandedLimit);
    IsCompleted(files, level, expandedLimit, picked, expanded, in0, in1);
  }

  lemma SmallGrowth(next: seq<File>, picked: seq<File>, in1: seq<File>, expanded: seq<File>, limit: nat)
    ensures MayGrow(next, picked, in1, expanded, limit) ==>
      |in1| > 0 && |expanded| > |picked| && TotalFileSize(in1) + TotalFileSize(expanded) < limit
  {}

  lemma GrowsIff(next: seq<File>, picked: seq<File>, in1: seq<File>, expanded: seq<File>, wider: seq<File>,
                 lo: InternalKey, hi: InternalKey, limit: nat)
    requires |in1| > 0 && |expanded| > |picked| && TotalFileSize(in1) + TotalFileSize(expanded) < limit
    requires IsSmallest(expanded, lo) && IsLargest(expanded, hi) && wider == Filter(next, Some(lo.user), Some(hi.user))
    requires |wider| == |in1| <==> forall g :: g in wider ==> g in in1
    ensures MayGrow(next, picked, in1, expanded, limit) <==> |wider| == |in1|
  {
    hide TotalFileSize, OverlapsHull, IsSmallest, IsLargest;
    MetByHull(next, expanded, lo, hi, wider);
  }

  lemma IsCompleted(files: seq<seq<File>>, level: nat, limit: nat, picked: seq<File>, expanded: seq<File>,
                    in0: seq<File>, in1: seq<File>)
    requires VersionOk(files) && level + 1 < kNumLevels
    requires Startable(level, files[level], picked) && BoundaryClosed(files[level], picked)
    requires forall g :: g in in1 <==> g in files[level + 1] && OverlapsHull(ToSet(picked), g)
    requires FilesSorted(in1) && (|in1| > 0 ==> Expansion(level, files[level], ToSet(picked + in1), expanded))
    requires in0 == if MayGrow(files[level + 1], picked, in1, expanded, limit) then expanded else picked
    ensures Completed(files, level, limit, picked, expanded, in0, in1)
  {}

  lemma LevelSorted(files: seq<seq<File>>, level: nat)
    requires VersionOk(files) && level < kNumLevels
    ensures Spans(files[level]) && (level > 0 ==> FilesSorted(files[level]))
  {}

  lemma StartIn(level: nat, files: seq<File>, start: seq<File>)
    requires Startable(level, files, start)
    ensures |start| > 0 && forall f :: f in start ==> f in files
  {}

  lemma StillStartable(level: nat, files: seq<File>, start: seq<File>, chosen: seq<File>)
    requires Startable(level, files, start) && start <= chosen && forall f :: f in chosen ==> f in files
    requires level > 0 ==> FilesSorted(files)
    requires FilesSorted(files) && Convex(files, ToSet(start)) ==> Convex(files, ToSet(chosen))
    requires ClosedUnder(files, ToSet(start)) ==> chosen == start
    requires forall key, g :: IsLargest(chosen, key) && g in files ==> !Boundary(key, g)
    ensures Startable(level, files, chosen) && BoundaryClosed(files, chosen)
  {
    hide FilesSorted, ClosedUnder, IsLargest, Boundary, Convex;
  }

  lemma MetByHull(next: seq<File>, chosen: seq<File>, lo: InternalKey, hi: InternalKey, met: seq<File>)
    requires IsSmallest(chosen, lo) && IsLargest(chosen, hi) && met == Filter(next, Some(lo.user), Some(hi.user))
    ensures forall g :: g in met <==> g in next && OverlapsHull(ToSet(chosen), g)
  {
    forall g ensures g in met <==> g in next && OverlapsHull(ToSet(chosen), g) {
      HullOverlap(chosen, lo, hi, g);
    }
  }

  lemma RangeIsHull(level: nat, files: seq<File>, chosen: seq<File>, lo: InternalKey, hi: InternalKey)
    requires IsSmallest(chosen, lo) && IsLargest(chosen, hi)
    ensures forall f :: OverlapsHull(ToSet(chosen), f) ==> Overlaps(f, Some(lo.user), Some(hi.user))
    ensures forall S :: HoldsHull(level, files, ToSet(chosen), S) ==> HoldsRange(level, files, lo.user, hi.user, S)
  {
    forall f ensures Overlaps(f, Some(lo.user), Some(hi.user)) <==> OverlapsHull(ToSet(chosen), f) {
      HullOverlap(chosen, lo, hi, f);
    }
  }

  lemma IsExpansion(level: nat, files: seq<File>, chosen: seq<File>, lo: InternalKey, hi: InternalKey,
                    expanded: seq<File>)
    requires IsSmallest(chosen, lo) && IsLargest(chosen, hi)
    requires forall f :: f in files && Overlaps(f, Some(lo.user), Some(hi.user)) ==> f in expanded
    requires forall S :: HoldsRange(level, files, lo.user, hi.user, S) ==> ToSet(expanded) <= S
    ensures Expansion(level, files, ToSet(chosen), expanded)
  {
    hide IsSmallest, IsLargest, Overlaps, HoldsRange, HoldsHull;
    RangeIsHull(level, files, chosen, lo, hi);
  }

  /** The wider range meets as many files just when it meets no other. */
  lemma NoMoreMet(next: seq<File>, in1: seq<File>, wider: seq<File>, lo: InternalKey, hi: InternalKey,
                  lo': InternalKey, hi': InternalKey)
    requires lo'.user <= lo.user && hi.user <= hi'.user
    requires in1 == Filter(next, Some(lo.user), Some(hi.user)) && wider == Filter(next, Some(lo'.user), Some(hi'.user))
    ensures |wider| == |in1| <==> forall g :: g in wider ==> g in in1
    ensures |wider| == |in1| ==> wider == in1
  {
    FilterGrows(next, lo.user, hi.user, lo'.user, hi'.user);
    if forall g :: g in wider ==> g in in1 {
      SameFilter(next, lo.user, hi.user, lo'.user, hi'.user);
    }
  }

  lemma {:induction false} SameFilter(files: seq<File>, lo: UserKey, hi: UserKey, lo': UserKey, hi': UserKey)
    requires lo' <= lo && hi <= hi'
    requires forall f :: f in files && Overlaps(f, Some(lo'), Some(hi')) ==> Overlaps(f, Some(lo), Some(hi))
    ensures Filter(files, Some(lo), Some(hi)) == Filter(files, Some(lo'), Some(hi'))
  {
    if |files| > 0 {
      SameFilter(files[..|files| - 1], lo, hi, lo', hi');
    }
  }

  lemma ExpandedHoldsInputs(files: seq<File>, in0: seq<File>, in1: seq<File>, expanded: seq<File>,
          lo: InternalKey, hi: InternalKey)
    requires Spans(files) && forall f :: f in in0 ==> f in files
    requires IsSmallest(in0 + in1, lo) && IsLargest(in0 + in1, hi)
    requires forall f :: f in files && Overlaps(f, Some(lo.user), Some(hi.user)) ==> f in expanded
    ensures forall f :: f in in0 ==> f in expanded
  {
    forall f | f in in0 ensures f in expanded {
      assert f in in0 + in1;
      ChosenOverlap(files, in0 + in1, lo, hi, f);
    }
  }

  lemma RangeGrows(a: seq<File>, b: seq<File>, lo: InternalKey, hi: InternalKey, lo': InternalKey, hi': InternalKey)
    requires forall f :: f in a ==> f in b
    requires IsSmallest(a, lo) && IsLargest(a, hi) && IsSmallest(b, lo') && IsLargest(b, hi')
    ensures lo'.user <= lo.user && hi.user <= hi'.user
  {}

  // ----- picking a compaction -----

  lemma SingletonIsConvex(files: seq<File>, i: nat)
    requires FilesSorted(files) && i < |files|
    ensures Convex(files, ToSet([files[i]]))
  {
    forall a, b, c | 0 <= a <= b <= c < |files| && files[a] in ToSet([files[i]]) && files[c] in ToSet([files[i]])
      ensures files[b] in ToSet([files[i]])
    {
      OnlyPlace(files, i, a);
      OnlyPlace(files, i, c);
    }
  }

  /** The first file past the compaction pointer, or the first of all. */
  method FirstPast(files: seq<File>, pointer: Option<InternalKey>) returns (k: nat)
    requires |files| > 0
    ensures k < |files|
    ensures pointer.Some? && (exists f :: f in files && Less(pointer.value, f.largest)) ==>
      Less(pointer.value, files[k].largest) && forall j :: 0 <= j < k ==> !Less(pointer.value, files[j].largest)
    ensures pointer.None? || (forall f :: f in files ==> !Less(pointer.value, f.largest)) ==> k == 0
  {
    k := 0;
    if pointer.Some? {
      while k < |files| && Compare(files[k].largest, pointer.value) <= 0
        invariant k <= |files|
        invariant forall j :: 0 <= j < k ==> !Less(pointer.value, files[j].largest)
      {
        CompareIsLess(files[k].largest, pointer.value);
        k := k + 1;
      }
      if k < |files| {
        CompareIsLess(files[k].largest, pointer.value);
        assert files[k] in files;
      } else {
        k := 0;
      }
    }
  }

  lemma MetByClosed(files: seq<File>, f: File, S: set<File>)
    requires f in S && ClosedUnder(files, S)
    ensures Closed(files, Some(f.smallest.user), Some(f.largest.user), S)
  {
    forall g | g in files && Overlaps(g, Some(f.smallest.user), Some(f.largest.user)) ensures g in S {
      assert UserOverlap(f, g);
    }
  }

  /** S holds the file, in level 0 what meets a file of S, and the files that continue its files. */
  ghost predicate HoldsFile(level: nat, files: seq<File>, f: File, S: set<File>) {
    f in S && (level == 0 ==> ClosedUnder(files, S)) && HoldsNext(files, S)
  }

  /** Level-0 files overlap, so the picked file brings along everything it meets. */
  method StartFrom(files: seq<File>, level: nat, k: nat) returns (start: seq<File>)
    requires Spans(files) && (level > 0 ==> FilesSorted(files)) && k < |files|
    ensures Startable(level, files, start) && files[k] in start
    ensures level > 0 ==> start == [files[k]]
    ensures level == 0 ==> forall S :: files[k] in S && ClosedUnder(files, S) ==> ToSet(start) <= S
  {
    start := [files[k]];
    if level == 0 {
      var smallest, largest := GetRange(start);
      start := GetOverlappingInputs(0, files, Some(smallest.user), Some(largest.user));
      assert SpanOk(files[k]) && Overlaps(files[k], Some(smallest.user), Some(largest.user));
      assert files[k] in ToSet(start);
      OverlapsAreStartable(0, files, start, Some(smallest.user), Some(largest.user));
      forall S | files[k] in S && ClosedUnder(files, S) ensures ToSet(start) <= S {
        MetByClosed(files, files[k], S);
      }
    } else {
      SingletonIsConvex(files, k);
    }
  }

  /** PickCompaction: starts from the file marked by seeks or the first one past the
      compaction pointer. */
  method PickCompaction(files: seq<seq<File>>, level: nat, pointer: Option<InternalKey>, seekFile: Option<nat>,
                        expandedLimit: nat)
    returns (in0: seq<File>, in1: seq<File>, compactPointer: InternalKey, ghost first: nat,
             ghost picked: seq<File>, ghost expanded: seq<File>)
    requires VersionOk(files) && level + 1 < kNumLevels && |files[level]| > 0
    requires seekFile.Some? ==> seekFile.value < |files[level]|
    ensures ValidInputs(LevelsOf(files), level, ToSet(in0), ToSet(in1)) && IsLargest(in0, compactPointer)
    ensures first < |files[level]| && files[level][first] in picked && ToSet(picked) <= ToSet(in0)
    ensures forall S :: HoldsFile(level, files[level], files[level][first], S) ==> ToSet(picked) <= S
    ensures Completed(files, level, expandedLimit, picked, expanded, in0, in1)
    ensures seekFile.Some? ==> first == seekFile.value
    ensures seekFile.None? && pointer.Some? && (exists f :: f in files[level] && Less(pointer.value, f.largest)) ==>
      Less(pointer.value, files[level][first].largest) &&
      forall j :: 0 <= j < first ==> !Less(pointer.value, files[level][j].largest)
    ensures seekFile.None? && (pointer.None? || forall f :: f in files[level] ==> !Less(pointer.value, f.largest)) ==>
      first == 0
  {
    var k;
    if seekFile.Some? {
      k := seekFile.value;
    } else {
      k := FirstPast(files[level], pointer);
    }
    first := k;
    var start := StartFrom(files[level], level, k);
    hide ValidInputs, Startable, IsLargest, FilesSorted, Spans, Completed, HoldsNext, ClosedUnder;
    in0, in1, compactPointer, picked, expanded := SetupOtherInputs(files, level, start, expandedLimit);
    forall S | HoldsFile(level, files[level], files[level][first], S) ensures ToSet(picked) <= S {
      assert ToSet(start) <= S;
    }
  }

  /** The files kept when a manual compaction is cut at a size limit. */
  lemma {:induction false} FilterPrefix(files: seq<File>, lo: Option<UserKey>, hi: Option<UserKey>, n: nat)
    returns (m: nat)
    requires n <= |Filter(files, lo, hi)|
    decreases |files|
    ensures m <= |files| && Filter(files[..m], lo, hi) == Filter(files, lo, hi)[..n]
  {
    hide Overlaps;
    if n == |Filter(files, lo, hi)| {
      m := |files|;
      assert files[..m] == files;
    } else {
      var rest := files[..|files| - 1];
      m := FilterPrefix(rest, lo, hi, n);
      assert rest[..m] == files[..m];
      assert Filter(files, lo, hi)[..n] == Filter(rest, lo, hi)[..n];
    }
  }

  lemma PrefixIsConvex(files: seq<File>, lo: Option<UserKey>, hi: Option<UserKey>, n: nat)
    requires FilesSorted(files) && n <= |Filter(files, lo, hi)|
    ensures Convex(files, ToSet(Filter(files, lo, hi)[..n]))
  {
    var m := FilterPrefix(files, lo, hi, n);
    var S := Filter(files[..m], lo, hi);
    forall i, j, k | 0 <= i <= j <= k < |files| && files[i] in S && files[k] in S
      ensures files[j] in S
    {
      var k' :| 0 <= k' < m && files[..m][k'] == files[k];
      OnlyPlace(files, k', k);
      MiddleOverlaps(files, i, j, k, lo, hi);
      assert files[..m][j] == files[j];
    }
  }

  /** The first n of the files: no fewer bring them to the limit, and if more are left, these do. */
  ghost predicate CutAt(files: seq<File>, n: nat, limit: nat) {
    && n <= |files| && (n < |files| ==> TotalFileSize(files[..n]) >= limit)
    && forall m :: 0 < m < n ==> TotalFileSize(files[..m]) < limit
  }

  method CutAtLimit(files: seq<File>, limit: nat) returns (n: nat)
    ensures CutAt(files, n, limit) && (|files| > 0 ==> n > 0)
  {
    var total, i := 0, 0;
    while i < |files|
      invariant i <= |files| && total == TotalFileSize(files[..i])
      invariant forall m :: 0 < m <= i ==> TotalFileSize(files[..m]) < limit
    {
      TotalOneMore(files, i);
      total := total + files[i].size;
      if total >= limit {
        return i + 1;
      }
      i := i + 1;
    }
    n := |files|;
  }

  lemma {:induction false} TotalOneMore(files: seq<File>, i: nat)
    requires i < |files|
    ensures TotalFileSize(files[..i + 1]) == TotalFileSize(files[..i]) + files[i].size
  {
    assert files[..i + 1][1..] == files[1..][..i];
    if i > 0 {
      assert files[..i][1..] == files[1..][..i - 1];
      TotalOneMore(files[1..], i - 1);
    }
  }

  /** The files a manual compaction starts from: the overlapping ones, cut at a size limit except in level 0. */
  method ManualInputs(files: seq<File>, level: nat, begin: Option<UserKey>, end: Option<UserKey>, sizeLimit: nat)
    returns (inputs: seq<File>, ghost n: nat)
    requires Spans(files) && (level > 0 ==> FilesSorted(files))
    ensures |inputs| == 0 <==> forall f :: f in files ==> !Overlaps(f, begin, end)
    ensures |inputs| > 0 ==> Startable(level, files, inputs)
    ensures level == 0 ==> forall f :: f in files && Overlaps(f, begin, end) ==> f in inputs
    ensures level == 0 ==> forall S :: Closed(files, begin, end, S) ==> ToSet(inputs) <= S
    ensures level > 0 ==> CutAt(Filter(files, begin, end), n, sizeLimit) && inputs == Filter(files, begin, end)[..n]
    ensures level > 0 ==> FilesSorted(Filter(files, begin, end))
  {
    hide CutAt, FilesSorted;
    n := 0;
    inputs := GetOverlappingInputs(level, files, begin, end);
    if |inputs| > 0 {
      assert inputs[0] in inputs;
      OverlapsAreStartable(level, files, inputs, begin, end);
    } else {
      assert forall f :: f in files && Overlaps(f, begin, end) ==> f in ToSet(inputs);
    }
    if level == 0 {
      if |inputs| > 0 {
        NoneOverlapsEmpty(files, begin, end, inputs);
      }
    } else {
      var size := CutAtLimit(inputs, sizeLimit);
      PrefixIsConvex(files, begin, end, size);
      inputs := inputs[..size];
      n := size;
    }
  }

  /** CompactRange: what the range gives, completed as any choice is. */
  method CompactRange(files: seq<seq<File>>, level: nat, begin: Option<UserKey>, end: Option<UserKey>,
                      sizeLimit: nat, expandedLimit: nat)
    returns (chosen: Option<(seq<File>, seq<File>)>, ghost n: nat, ghost start: seq<File>,
             ghost picked: seq<File>, ghost expanded: seq<File>)
    requires VersionOk(files) && level + 1 < kNumLevels
    ensures chosen.None? <==> forall f :: f in files[level] ==> !Overlaps(f, begin, end)
    ensures chosen.Some? ==> ValidInputs(LevelsOf(files), level, ToSet(chosen.value.0), ToSet(chosen.value.1))
    ensures chosen.Some? && level == 0 ==> forall f :: f in files[0] && Overlaps(f, begin, end) ==> f in start
    ensures chosen.Some? && level == 0 ==> forall S :: Closed(files[0], begin, end, S) ==> ToSet(start) <= S
    ensures chosen.Some? && level > 0 ==>
      var all := Filter(files[level], begin, end); FilesSorted(all) && CutAt(all, n, sizeLimit) && start == all[..n]
    ensures chosen.Some? ==> start <= picked && ToSet(picked) <= ToSet(chosen.value.0)
    ensures chosen.Some? ==>
      forall S :: ToSet(start) <= S && HoldsNext(files[level], S) ==> ToSet(picked) <= S
    ensures chosen.Some? ==>
      Completed(files, level, expandedLimit, picked, expanded, chosen.value.0, chosen.value.1)
  {
    hide ValidInputs, Startable, IsLargest, FilesSorted, Spans, CutAt, Filter, Overlaps;
    assert Spans(files[level]) && (level > 0 ==> FilesSorted(files[level])) by { LevelSorted(files, level); }
    picked, expanded := [], [];
    var inputs;
    inputs, n := ManualInputs(files[level], level, begin, end, sizeLimit);
    start := inputs;
    if |inputs| == 0 {
      return None, n, start, picked, expanded;
    }
    var in0, in1, p;
    in0, in1, p, picked, expanded := SetupOtherInputs(files, level, inputs, expandedLimit);
    chosen := Some((in0, in1));
  }

  lemma NoneOverlapsEmpty(files: seq<File>, begin: Option<UserKey>, end: Option<UserKey>, inputs: seq<File>)
    requires forall S :: Closed(files, begin, end, S) ==> ToSet(inputs) <= S
    requires |inputs| > 0
    ensures exists f :: f in files && Overlaps(f, begin, end)
  {
    assert inputs[0] in ToSet(inputs);
    assert !Closed(files, begin, end, {});
  }

  // ----- where a flushed memtable goes -----

  ghost predicate OverlapInLevel(files: seq<File>, lo: UserKey, hi: UserKey) {
    exists f :: f in files && Overlaps(f, Some(lo), Some(hi))
  }

  function GrandparentBytes(files: seq<seq<File>>, level: nat, lo: UserKey, hi: UserKey): nat {
    if level < |files| then TotalFileSize(Filter(files[level], Some(lo), Some(hi))) else 0
  }

  /** PickLevelForMemTableOutput: the file goes as deep as it can without passing, or
      landing on, a file it overlaps, and without too many bytes below it. */
  method PickLevelForMemTableOutput(files: seq<seq<File>>, lo: UserKey, hi: UserKey, maxGrandparentBytes: nat)
    returns (level: nat)
    requires VersionOk(files)
    ensures level <= kMaxMemCompactLevel
    ensures level > 0 ==> forall l :: 0 <= l <= level ==> !OverlapInLevel(files[l], lo, hi)
    ensures forall m :: 2 <= m < level + 2 ==> GrandparentBytes(files, m, lo, hi) <= maxGrandparentBytes
    ensures level < kMaxMemCompactLevel ==>
      OverlapInLevel(files[0], lo, hi) || OverlapInLevel(files[level + 1], lo, hi)
      || GrandparentBytes(files, level + 2, lo, hi) > maxGrandparentBytes
  {
    hide TotalFileSize, Filter, Overlaps, FilesSorted, Spans, Closed;
    level := 0;
    var overlap := SomeFileOverlapsRange(false, files[0], Some(lo), Some(hi));
    if !overlap {
      while level < kMaxMemCompactLevel
        invariant level <= kMaxMemCompactLevel
        invariant forall l :: 0 <= l <= level ==> !OverlapInLevel(files[l], lo, hi)
        invariant forall m :: 2 <= m < level + 2 ==> GrandparentBytes(files, m, lo, hi) <= maxGrandparentBytes
      {
        overlap := SomeFileOverlapsRange(true, files[level + 1], Some(lo), Some(hi));
        if overlap {
          break;
        }
        if level + 2 < kNumLevels {
          var overlaps := GetOverlappingInputs(level + 2, files[level + 2], Some(lo), Some(hi));
          if TotalFileSize(overlaps) > maxGrandparentBytes {
            break;
          }
        }
        level := level + 1;
      }
    }
  }

  /** A file put there is apart from every file it passes or joins: the flush step's condition. */
  lemma PickedLevelIsApart(files: seq<seq<File>>, file: File, level: nat)
    requires VersionOk(files) && level <= kMaxMemCompactLevel
    requires forall l :: 0 <= l <= level ==> !OverlapInLevel(files[l], file.smallest.user, file.largest.user)
    ensures forall l, g :: 0 <= l <= level && g in LevelsOf(files)[l] ==> UserApart(file, g)
  {}
}
