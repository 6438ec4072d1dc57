/** DBImpl::Get and Version::Get: memtables first, then the levels from shallow to deep,
    stopping at the first hit (db/db_impl.cc, db/version_set.cc, db/memtable.cc). */
module PointReads {
  import opened Common
  import opened InternalKeys
  import opened Lsm
  import opened SnapshotReads
  import opened VersionSet

  /** Where an iterator over a sorted table lands for Seek(target). */
  function SeekIndex(table: seq<Entry>, target: InternalKey): (i: nat)
    ensures i <= |table|
    ensures forall j :: 0 <= j < i ==> Less(table[j].IKey(), target)
    ensures i < |table| ==> !Less(table[i].IKey(), target)
  {
    if |table| == 0 || !Less(table[0].IKey(), target) then 0 else 1 + SeekIndex(table[1..], target)
  }

  /** MemTable::Get, and InternalGet with SaveValue: the entry sought, if it is of the user key. */
  function TableGet(table: seq<Entry>, k: UserKey, s: nat): Option<Entry> {
    var i := SeekIndex(table, InternalKey(k, s, Value));
    if i < |table| && table[i].user == k then Some(table[i]) else None
  }

  lemma TableGetIsNewest(table: seq<Entry>, k: UserKey, s: nat)
    requires Sorted(table)
    ensures IsNewest(Elements(table), k, s, TableGet(table, k, s))
  {
    var target := InternalKey(k, s, Value);
    var i := SeekIndex(table, target);
    forall e | e in table && Sees(e, k, s)
      ensures i < |table| && table[i].user == k && e.sn <= table[i].sn
    {
      var j :| 0 <= j < |table| && table[j] == e;
      assert !Less(e.IKey(), target);
      assert i < j ==> Less(table[i].IKey(), table[j].IKey());
    }
  }

  ghost predicate NothingSeen(f: File, k: UserKey, s: nat) {
    forall e :: e in f.entries ==> !Sees(e, k, s)
  }

  /** Files of level 0 newest first (std::sort with NewestFirst). */
  method SortNewestFirst(files: seq<File>) returns (sorted: seq<File>)
    ensures ToSet(sorted) == ToSet(files)
    ensures forall i, j :: 0 <= i < j < |sorted| ==> sorted[i].number >= sorted[j].number
  {
    sorted := [];
    for n := 0 to |files|
      invariant ToSet(sorted) == ToSet(files[..n])
      invariant forall i, j :: 0 <= i < j < |sorted| ==> sorted[i].number >= sorted[j].number
    {
      assert files[..n + 1] == files[..n] + [files[n]];
      sorted := InsertNewestFirst(sorted, files[n]);
    }
    assert files[..|files|] == files;
  }

  method InsertNewestFirst(files: seq<File>, f: File) returns (sorted: seq<File>)
    requires forall i, j :: 0 <= i < j < |files| ==> files[i].number >= files[j].number
    ensures ToSet(sorted) == ToSet(files) + {f}
    ensures forall i, j :: 0 <= i < j < |sorted| ==> sorted[i].number >= sorted[j].number
  {
    var p := 0;
    while p < |files| && files[p].number >= f.number
      invariant p <= |files|
      invariant forall i :: 0 <= i < p ==> files[i].number >= f.number
    {
      p := p + 1;
    }
    sorted := files[..p] + [f] + files[p..];
    assert files == files[..p] + files[p..];
  }

  method Level0Get(files: seq<File>, k: UserKey, s: nat) returns (r: Option<Entry>)
    requires forall f :: f in files ==> FileOk(f) && Sorted(f.entries)
    requires Level0Ordered(ToSet(files))
    requires forall f, g :: f in files && g in files && f.number == g.number ==> f == g
    ensures IsNewest(FilesEntries(ToSet(files)), k, s, r)
  {
    hide FileOk, Sorted, Above, Level0Ordered;
    var tmp := Filter(files, Some(k), Some(k));
    OthersHaveNothing(files, k, s);
    var ordered := SortNewestFirst(tmp);
    SameFiles(ordered, tmp);
    assert ordered[0..] == ordered;
    for i := 0 to |ordered|
      invariant forall f :: f in files && f !in ordered[i..] ==> NothingSeen(f, k, s)
    {
      var f := ordered[i];
      assert f in ordered && f in tmp && f in files;
      r := TableGet(f.entries, k, s);
      assert ordered[i..] == [f] + ordered[i + 1..];
      if r.Some? {
        TableGetIsNewest(f.entries, k, s);
        FirstHitIsNewest(files, ordered, i, k, s, r.value);
        return;
      }
      MissSeesNothing(f, k, s);
    }
    r := None;
  }

  lemma OthersHaveNothing(files: seq<File>, k: UserKey, s: nat)
    requires forall f :: f in files ==> FileOk(f)
    ensures forall f :: f in files && f !in Filter(files, Some(k), Some(k)) ==> NothingSeen(f, k, s)
    ensures forall f :: f in Filter(files, Some(k), Some(k)) ==> f in files
  {
    forall f | f in files && f !in Filter(files, Some(k), Some(k)) ensures NothingSeen(f, k, s) {
      UserBounds(f);
    }
  }

  lemma SameFiles(a: seq<File>, b: seq<File>)
    requires ToSet(a) == ToSet(b)
    ensures forall f :: f in a <==> f in b
  {
    forall f ensures f in a <==> f in b {
      assert f in a <==> f in ToSet(a);
      assert f in b <==> f in ToSet(b);
    }
  }

  lemma MissSeesNothing(f: File, k: UserKey, s: nat)
    requires Sorted(f.entries) && TableGet(f.entries, k, s) == None
    ensures NothingSeen(f, k, s)
  {
    hide TableGet, Sorted;
    TableGetIsNewest(f.entries, k, s);
    assert forall e :: e in f.entries <==> e in Elements(f.entries);
  }

  lemma FirstHitIsNewest(files: seq<File>, ordered: seq<File>, i: nat, k: UserKey, s: nat, hit: Entry)
    requires Level0Ordered(ToSet(files)) && i < |ordered| && forall f :: f in ordered ==> f in files
    requires forall f, g :: f in files && g in files && f.number == g.number ==> f == g
    requires forall a, b :: 0 <= a < b < |ordered| ==> ordered[a].number >= ordered[b].number
    requires forall f :: f in files && f !in ordered[i..] ==> NothingSeen(f, k, s)
    requires IsNewest(Elements(ordered[i].entries), k, s, Some(hit))
    ensures IsNewest(FilesEntries(ToSet(files)), k, s, Some(hit))
  {
    var f := ordered[i];
    assert f in files && f in ToSet(files);
    forall e | e in FilesEntries(ToSet(files)) && Sees(e, k, s) ensures e.sn <= hit.sn {
      var g :| g in files && e in g.entries;
      assert g in ordered[i..];
      var j :| i <= j < |ordered| && ordered[j] == g;
      assert e in Elements(g.entries);
      if g != f {
        assert f.number > g.number;
        assert Above(Elements(f.entries), Elements(g.entries));
      }
    }
  }

  /** One binary-searched file decides a whole sorted level. */
  method SortedLevelGet(files: seq<File>, k: UserKey, s: nat) returns (r: Option<Entry>)
    requires FilesSorted(files)
    requires forall f :: f in files ==> FileOk(f) && Sorted(f.entries)
    ensures IsNewest(FilesEntries(ToSet(files)), k, s, r)
  {
    var target := InternalKey(k, s, Value);
    var index := FindFile(files, target);
    r := None;
    if index < |files| {
      var f := files[index];
      assert f in files;
      if !(k < f.smallest.user) {
        r := TableGet(f.entries, k, s);
      }
    }
    OneFileDecides(files, k, s, index, r);
  }

  lemma OneFileDecides(files: seq<File>, k: UserKey, s: nat, index: nat, r: Option<Entry>)
    requires FilesSorted(files) && index <= |files|
    requires forall f :: f in files ==> FileOk(f) && Sorted(f.entries)
    requires forall i :: 0 <= i < index ==> Less(files[i].largest, InternalKey(k, s, Value))
    requires forall i :: index <= i < |files| ==> !Less(files[i].largest, InternalKey(k, s, Value))
    requires r == if index < |files| && files[index].smallest.user <= k then TableGet(files[index].entries, k, s) else None
    ensures IsNewest(FilesEntries(ToSet(files)), k, s, r)
  {
    hide Sorted, FileOk;
    if index < |files| {
      assert files[index] in files;
      TableGetIsNewest(files[index].entries, k, s);
    }
    forall e | e in FilesEntries(ToSet(files)) && Sees(e, k, s)
      ensures r.Some? && e.sn <= r.value.sn
    {
      var g :| g in files && e in g.entries;
      var j :| 0 <= j < |files| && files[j] == g;
      InRightFile(files, k, s, index, j, e);
      var f := files[index];
      if j > index {
        LaterFileHidden(files, k, s, index, j, e);
      } else {
        assert e in Elements(f.entries);
      }
    }
  }

  lemma InRightFile(files: seq<File>, k: UserKey, s: nat, index: nat, j: nat, e: Entry)
    requires FilesSorted(files) && index <= |files| && j < |files| && FileOk(files[j])
    requires e in files[j].entries && Sees(e, k, s)
    requires forall i :: 0 <= i < index ==> Less(files[i].largest, InternalKey(k, s, Value))
    ensures index <= j && files[index].smallest.user <= k
  {
    assert AtMost(files[j].smallest, e.IKey()) && AtMost(e.IKey(), files[j].largest);
    assert index <= j;
    SortedOrder(files, index, j);
  }

  lemma LaterFileHidden(files: seq<File>, k: UserKey, s: nat, index: nat, j: nat, e: Entry)
    requires FilesSorted(files) && index < j < |files| && FileOk(files[index]) && FileOk(files[j])
    requires e in files[j].entries && Sees(e, k, s)
    requires !Less(files[index].largest, InternalKey(k, s, Value))
    ensures var r := TableGet(files[index].entries, k, s); r.Some? && e.sn <= r.value.sn
  {
    var t := files[index].entries;
    var target := InternalKey(k, s, Value);
    var i := SeekIndex(t, target);
    assert t[|t| - 1].IKey() == files[index].largest;
    assert i < |t| && t[i] in t;
    assert AtMost(t[i].IKey(), files[index].largest) && Less(files[index].largest, files[j].smallest);
    assert AtMost(files[j].smallest, e.IKey());
    assert Less(t[i].IKey(), e.IKey()) && !Less(t[i].IKey(), target);
  }

  ghost predicate NothingInLevels(levels: Levels, n: nat, k: UserKey, s: nat)
    requires n <= |levels|
  {
    forall l, f :: 0 <= l < n && f in levels[l] ==> NothingSeen(f, k, s)
  }

  lemma LevelHitIsNewest(levels: Levels, l: nat, k: UserKey, s: nat, hit: Entry)
    requires NewerAbove(levels) && l < |levels| && NothingInLevels(levels, l, k, s)
    requires IsNewest(FilesEntries(levels[l]), k, s, Some(hit))
    ensures IsNewest(LevelEntries(levels), k, s, Some(hit))
  {
    var f :| f in levels[l] && hit in f.entries;
    assert hit in Elements(f.entries);
    forall e | e in LevelEntries(levels) && Sees(e, k, s) ensures e.sn <= hit.sn {
      var m: nat, g: File :| m < |levels| && g in levels[m] && e in g.entries;
      assert e in Elements(g.entries);
      assert m < l ==> NothingSeen(g, k, s);
      if m == l {
        assert e in FilesEntries(levels[l]);
      } else {
        assert Above(Elements(f.entries), Elements(g.entries));
      }
    }
  }

  /** Version::Get over ForEachOverlapping. */
  method VersionGet(files: seq<seq<File>>, k: UserKey, s: nat) returns (r: Option<Entry>)
    requires VersionOk(files) && LevelsInv(LevelsOf(files)) && TablesSorted(LevelsOf(files))
    ensures IsNewest(LevelEntries(LevelsOf(files)), k, s, r)
  {
    hide VersionOk, NumbersDistinct, NewerAbove, LevelUnique, LevelDisjoint, FileOk, Sorted, FilesSorted, Level0Ordered;
    ghost var levels := LevelsOf(files);
    GoodFiles(files, 0);
    r := Level0Get(files[0], k, s);
    if r.Some? {
      LevelHitIsNewest(levels, 0, k, s, r.value);
      return;
    }
    NothingInLevel(levels, 0, k, s);
    for level := 1 to kNumLevels
      invariant NothingInLevels(levels, level, k, s) && r.None?
    {
      GoodFiles(files, level);
      if |files[level]| != 0 {
        r := SortedLevelGet(files[level], k, s);
        if r.Some? {
          LevelHitIsNewest(levels, level, k, s, r.value);
          return;
        }
      } else {
        assert ToSet(files[level]) == {};
      }
      NothingInLevel(levels, level, k, s);
    }
    assert IsNewest(LevelEntries(levels), k, s, None) by { NothingAnywhere(levels, k, s); }
  }

  lemma GoodFiles(files: seq<seq<File>>, level: nat)
    requires VersionOk(files) && LevelsInv(LevelsOf(files)) && TablesSorted(LevelsOf(files)) && level < |files|
    ensures LevelsOf(files)[level] == ToSet(files[level]) && |LevelsOf(files)| == |files| == kNumLevels
    ensures forall f :: f in files[level] ==> FileOk(f) && Sorted(f.entries)
    ensures level > 0 ==> FilesSorted(files[level])
    ensures level == 0 ==> Level0Ordered(ToSet(files[0]))
    ensures forall f, g :: f in files[level] && g in files[level] && f.number == g.number ==> f == g
  {
    hide FileOk, Sorted, FilesSorted, NewerAbove, LevelUnique, LevelDisjoint;
    var levels := LevelsOf(files);
    assert forall f :: f in files[level] ==> f in levels[level];
  }

  lemma NothingInLevel(levels: Levels, l: nat, k: UserKey, s: nat)
    requires l < |levels| && NothingInLevels(levels, l, k, s) && IsNewest(FilesEntries(levels[l]), k, s, None)
    ensures NothingInLevels(levels, l + 1, k, s)
  {
    forall f, e | f in levels[l] && e in f.entries ensures !Sees(e, k, s) {
      assert e in FilesEntries(levels[l]);
    }
  }

  lemma NothingAnywhere(levels: Levels, k: UserKey, s: nat)
    requires NothingInLevels(levels, |levels|, k, s)
    ensures IsNewest(LevelEntries(levels), k, s, None)
  {
    forall e | e in LevelEntries(levels) ensures !Sees(e, k, s) {
      var l: nat, f: File :| l < |levels| && f in levels[l] && e in f.entries;
      assert NothingSeen(f, k, s);
    }
  }

  /** DBImpl::Get returns the value the whole database has for the key at the snapshot. */
  method Get(ghost db: Db, mem: seq<Entry>, imm: Option<seq<Entry>>, files: seq<seq<File>>, k: UserKey, s: nat)
    returns (value: Option<Bytes>)
    requires Inv(db) && VersionOk(files) && LevelsOf(files) == db.levels
    requires Sorted(mem) && Elements(mem) == db.mem
    requires imm.Some? == db.imm.Some? && (imm.Some? ==> Sorted(imm.value) && Elements(imm.value) == db.imm.value)
    ensures value == Read(db, k, s)
  {
    hide Sorted, VersionOk, SequencesInv, LevelsInv, MemsInv;
    var r := TableGet(mem, k, s);
    TableGetIsNewest(mem, k, s);
    ghost var inMem := r;
    ghost var inImm: Option<Entry> := None;
    if r.None? && imm.Some? {
      r := TableGet(imm.value, k, s);
      TableGetIsNewest(imm.value, k, s);
      inImm := r;
    }
    if r.None? {
      r := VersionGet(files, k, s);
      assert inMem.None? && inImm.None? && IsNewest(db.ImmEntries(), k, s, None);
      NewestOfUnion(db.mem, db.ImmEntries(), k, s, None, None);
      NewestOfUnion(db.mem + db.ImmEntries(), LevelEntries(db.levels), k, s, None, r);
    } else {
      MemHitIsNewest(db, k, s, inMem, r.value);
    }
    EntriesUnique(db);
    NewestIsUnique(db.Entries(), k, s, r);
    value := if r.Some? && r.value.kind == Value then Some(r.value.value) else None;
  }

  lemma MemHitIsNewest(db: Db, k: UserKey, s: nat, inMem: Option<Entry>, hit: Entry)
    requires MemsInv(db) && IsNewest(db.mem, k, s, inMem)
    requires inMem == Some(hit) || (inMem.None? && IsNewest(db.ImmEntries(), k, s, Some(hit)))
    ensures IsNewest(db.Entries(), k, s, Some(hit))
  {
    forall e | e in LevelEntries(db.levels) && Sees(e, k, s) ensures e.sn <= hit.sn {
      MemsNewer(db, hit, e);
    }
    assert hit in db.mem + db.ImmEntries();
    assert inMem.Some? ==> forall e :: e in db.ImmEntries() && e.user == hit.user ==> hit.sn > e.sn;
    assert hit in db.Entries() && Sees(hit, k, s);
    forall e | e in db.Entries() && Sees(e, k, s) ensures e.sn <= hit.sn {}
  }
}
