/** DBImpl::NewIterator: the memtables and the files of the current version merged, and the
    user's cursor over them (db/db_impl.cc, db/version_set.cc). */
module Iteration {
  import opened Common
  import opened InternalKeys
  import opened Iterators
  import opened Lsm
  import opened SnapshotReads
  import opened VersionSet
  import M = Merger
  import opened DbIter

  // ----- the sources, one after the other -----

  ghost predicate NoSharedKey(A: set<Entry>, B: set<Entry>) {
    forall a, b :: a in A && b in B ==> a.IKey() != b.IKey()
  }

  /** The lists are sorted, hold S between them, and no key is in two of them. */
  ghost predicate Collects(lists: seq<seq<Entry>>, S: set<Entry>) {
    && (forall j :: 0 <= j < |lists| ==> Sorted(lists[j]) && Elements(lists[j]) <= S)
    && (forall e :: e in S ==> exists j :: 0 <= j < |lists| && e in lists[j])
    && (forall i, j :: 0 <= i < j < |lists| ==> NoSharedKey(Elements(lists[i]), Elements(lists[j])))
  }

  lemma OneMoreSource(lists: seq<seq<Entry>>, S: set<Entry>, list: seq<Entry>)
    requires Collects(lists, S) && Sorted(list) && NoSharedKey(S, Elements(list))
    ensures Collects(lists + [list], S + Elements(list))
  {
    hide Sorted;
    var all := lists + [list];
    forall e | e in S + Elements(list) ensures exists j :: 0 <= j < |all| && e in all[j] {
      if e in S {
        var j :| 0 <= j < |lists| && e in lists[j];
        assert e in all[j];
      } else {
        assert e in all[|lists|];
      }
    }
    forall i, j | 0 <= i < j < |all| ensures NoSharedKey(Elements(all[i]), Elements(all[j])) {
      assert all[i] == lists[i];
      if j < |lists| {
        assert all[j] == lists[j];
      }
    }
  }

  lemma CollectedMerge(lists: seq<seq<Entry>>, S: set<Entry>, merged: seq<Entry>)
    requires Collects(lists, S) && Sorted(merged) && Elements(merged) == S
    ensures M.IsMerge(lists, merged)
  {
    hide Sorted;
    forall j, p | 0 <= j < |lists| && 0 <= p < |lists[j]| ensures lists[j][p] in merged {
      assert lists[j][p] in Elements(lists[j]);
    }
    forall e | e in merged ensures exists j :: 0 <= j < |lists| && e in lists[j] {
      assert e in S;
    }
    forall i, j, p, q |
      0 <= i < |lists| && 0 <= j < |lists| && i != j && 0 <= p < |lists[i]| && 0 <= q < |lists[j]|
      ensures lists[i][p].IKey() != lists[j][q].IKey()
    {
      assert lists[i][p] in Elements(lists[i]) && lists[j][q] in Elements(lists[j]);
      assert if i < j then NoSharedKey(Elements(lists[i]), Elements(lists[j]))
             else NoSharedKey(Elements(lists[j]), Elements(lists[i]));
    }
  }

  // ----- a level as one list -----

  function Tables(files: seq<File>): (ts: seq<seq<Entry>>)
    ensures |ts| == |files|
    ensures forall i :: 0 <= i < |files| ==> ts[i] == files[i].entries
  {
    seq(|files|, i requires 0 <= i < |files| => files[i].entries)
  }

  lemma {:induction false} ConcatHolds(files: seq<File>)
    ensures Elements(Concat(Tables(files))) == FilesEntries(ToSet(files))
  {
    if |files| > 0 {
      var most, last := files[..|files| - 1], files[|files| - 1];
      ConcatHolds(most);
      LastTable(files);
      OneMoreFile(most, last);
      assert most + [last] == files;
    }
  }

  lemma OneMoreFile(files: seq<File>, f: File)
    ensures FilesEntries(ToSet(files + [f])) == FilesEntries(ToSet(files)) + Elements(f.entries)
  {
    assert ToSet(files + [f]) == ToSet(files) + {f};
  }

  /** The concatenated tables of a sorted level are sorted. */
  lemma {:induction false} ConcatSorted(files: seq<File>)
    requires FilesSorted(files) && forall f :: f in files ==> FileOk(f) && Sorted(f.entries)
    ensures Sorted(Concat(Tables(files)))
  {
    hide Sorted, FileOk, FilesSorted, Concat;
    if |files| == 0 {
      NothingSorted(files);
    } else {
      var most, last := files[..|files| - 1], files[|files| - 1];
      FewerSorted(files);
      ConcatSorted(most);
      ConcatHolds(most);
      forall x, y | x in Concat(Tables(most)) && y in last.entries ensures Less(x.IKey(), y.IKey()) {
        assert x in Elements(Concat(Tables(most)));
        var f :| f in most && x in f.entries;
        assert f in files && last in files;
        EarlierFile(files, f, last, x, y);
      }
      SortedJoin(Concat(Tables(most)), last.entries);
      LastTable(files);
    }
  }

  lemma NothingSorted(files: seq<File>)
    requires |files| == 0
    ensures Sorted(Concat(Tables(files)))
  {}

  lemma FewerSorted(files: seq<File>)
    requires |files| > 0 && FilesSorted(files)
    ensures FilesSorted(files[..|files| - 1])
  {
    hide SpanOk;
  }

  lemma LastTable(files: seq<File>)
    requires |files| > 0
    ensures Concat(Tables(files)) == Concat(Tables(files[..|files| - 1])) + files[|files| - 1].entries
  {
    assert Tables(files)[..|files| - 1] == Tables(files[..|files| - 1]);
  }

  lemma EarlierFile(files: seq<File>, f: File, last: File, x: Entry, y: Entry)
    requires |files| > 0 && FilesSorted(files) && f in files[..|files| - 1] && last == files[|files| - 1]
    requires FileOk(f) && FileOk(last) && x in f.entries && y in last.entries
    ensures Less(x.IKey(), y.IKey())
  {
    var i :| 0 <= i < |files| - 1 && files[i] == f;
    assert Less(files[i].largest, files[|files| - 1].smallest);
  }

  lemma SortedJoin(a: seq<Entry>, b: seq<Entry>)
    requires Sorted(a) && Sorted(b) && forall x, y :: x in a && y in b ==> Less(x.IKey(), y.IKey())
    ensures Sorted(a + b)
  {
    var c := a + b;
    forall i, j | 0 <= i < j < |c| ensures Less(c[i].IKey(), c[j].IKey()) {
      if i < |a| <= j {
        assert c[i] == a[i] && c[j] == b[j - |a|];
      }
    }
  }

  // ----- no key is in two sources -----

  ghost function Mems(db: Db): set<Entry> {
    db.mem + db.ImmEntries()
  }

  /** The first n files of level 0. */
  ghost function FirstFiles(files: seq<File>, n: nat): set<Entry>
    requires n <= |files|
  {
    FilesEntries(ToSet(files[..n]))
  }

  lemma FileApart(db: Db, files: seq<File>, n: nat)
    requires Inv(db) && |db.levels| > 0 && db.levels[0] == ToSet(files) && n < |files|
    requires forall i, j :: 0 <= i < j < |files| ==> files[i] != files[j]
    ensures NoSharedKey(Mems(db) + FirstFiles(files, n), Elements(files[n].entries))
    ensures FirstFiles(files, n + 1) == FirstFiles(files, n) + Elements(files[n].entries)
  {
    hide SequencesInv, RunningInv, TablesSorted, NewerAbove, LevelUnique, LevelDisjoint, FilesOk;
    var f := files[n];
    assert f in ToSet(files);
    assert ToSet(files[..n + 1]) == ToSet(files[..n]) + {f};
    forall a, b | a in Mems(db) + FirstFiles(files, n) && b in Elements(f.entries) ensures a.IKey() != b.IKey() {
      if a in Mems(db) {
        assert b in LevelEntries(db.levels);
        if a.user == b.user {
          MemsNewer(db, a, b);
        }
      } else {
        var g :| g in ToSet(files[..n]) && a in g.entries;
        assert g in ToSet(files) && g != f && g.number != f.number;
        assert a in Elements(g.entries);
        assert Above(Elements(f.entries), Elements(g.entries)) || Above(Elements(g.entries), Elements(f.entries));
      }
    }
  }

  lemma LevelApart(db: Db, n: nat)
    requires Inv(db) && n < |db.levels|
    ensures NoSharedKey(Mems(db) + LevelEntries(db.levels[..n]), FilesEntries(db.levels[n]))
    ensures LevelEntries(db.levels[..n + 1]) == LevelEntries(db.levels[..n]) + FilesEntries(db.levels[n])
  {
    hide Inv, LevelEntries, FilesEntries, Mems;
    forall a, b | a in Mems(db) + LevelEntries(db.levels[..n]) && b in FilesEntries(db.levels[n])
      ensures a.IKey() != b.IKey()
    {
      if a in Mems(db) {
        MemsAboveLevel(db, n, a, b);
      } else {
        LevelsAbove(db, n, a, b);
      }
    }
    OneMoreLevel(db.levels, n);
  }

  lemma MemsAboveLevel(db: Db, n: nat, a: Entry, b: Entry)
    requires Inv(db) && n < |db.levels| && a in Mems(db) && b in FilesEntries(db.levels[n])
    ensures a.IKey() != b.IKey()
  {
    hide SequencesInv, RunningInv, LevelsInv;
    var g :| g in db.levels[n] && b in g.entries;
    assert b in LevelEntries(db.levels);
    if a.user == b.user {
      MemsNewer(db, a, b);
    }
  }

  lemma LevelsAbove(db: Db, n: nat, a: Entry, b: Entry)
    requires Inv(db) && n < |db.levels| && a in LevelEntries(db.levels[..n]) && b in FilesEntries(db.levels[n])
    ensures a.IKey() != b.IKey()
  {
    hide MemsInv, SequencesInv, RunningInv, TablesSorted, LevelUnique, LevelDisjoint, FilesOk, NumbersDistinct;
    var g :| g in db.levels[n] && b in g.entries;
    var l: nat, f: File :| l < n && f in db.levels[..n][l] && a in f.entries;
    assert a in Elements(f.entries) && b in Elements(g.entries) && f in db.levels[l];
    assert Above(Elements(f.entries), Elements(g.entries));
  }

  lemma OneMoreLevel(levels: Levels, n: nat)
    requires n < |levels|
    ensures LevelEntries(levels[..n + 1]) == LevelEntries(levels[..n]) + FilesEntries(levels[n])
  {
    forall e ensures e in LevelEntries(levels[..n + 1]) <==> e in LevelEntries(levels[..n]) + FilesEntries(levels[n]) {
      if e in LevelEntries(levels[..n + 1]) {
        var l: nat, f: File :| l < n + 1 && f in levels[..n + 1][l] && e in f.entries;
        assert l < n ==> f in levels[..n][l];
      }
      if e in LevelEntries(levels[..n]) {
        var l: nat, f: File :| l < n && f in levels[..n][l] && e in f.entries;
        assert f in levels[..n + 1][l];
      }
      if e in FilesEntries(levels[n]) {
        var f :| f in levels[n] && e in f.entries;
        assert f in levels[..n + 1][n];
      }
    }
  }

  // ----- opening the iterator -----

  /** The tables and memtables in memory are those of the database. */
  ghost predicate Represents(db: Db, mem: seq<Entry>, imm: Option<seq<Entry>>, files: seq<seq<File>>) {
    && VersionOk(files) && LevelsOf(files) == db.levels
    && (forall i, j :: 0 <= i < j < |files[0]| ==> files[0][i] != files[0][j])
    && Sorted(mem) && Elements(mem) == db.mem
    && imm.Some? == db.imm.Some? && (imm.Some? ==> Sorted(imm.value) && Elements(imm.value) == db.imm.value)
  }

  /** Version::AddIterators: level 0 file by file, a deeper level as one list. */
  method AddIterators(ghost db: Db, files: seq<seq<File>>, lists0: seq<seq<Entry>>) returns (lists: seq<seq<Entry>>)
    requires Inv(db) && VersionOk(files) && LevelsOf(files) == db.levels && Collects(lists0, Mems(db))
    requires forall i, j :: 0 <= i < j < |files[0]| ==> files[0][i] != files[0][j]
    ensures Collects(lists, db.Entries())
  {
    hide Inv, VersionOk, Collects, Sorted, FilesSorted, FilesEntries, LevelEntries, FileOk;
    LevelIs(db, files, 0);
    lists := AddFiles(db, files[0], lists0);
    LevelZero(db.levels);
    for level := 1 to kNumLevels
      invariant Collects(lists, Mems(db) + LevelEntries(db.levels[..level]))
    {
      LevelIs(db, files, level);
      LevelApart(db, level);
      UnionJoins(Mems(db), LevelEntries(db.levels[..level]), FilesEntries(db.levels[level]));
      ConcatHolds(files[level]);
      if |files[level]| > 0 {
        ConcatSorted(files[level]);
        OneMoreSource(lists, Mems(db) + LevelEntries(db.levels[..level]), Concat(Tables(files[level])));
        lists := lists + [Concat(Tables(files[level]))];
      } else {
        UnionWithNone(Mems(db) + LevelEntries(db.levels[..level]), FilesEntries(db.levels[level]));
      }
    }
    assert db.levels[..kNumLevels] == db.levels;
  }

  method AddFiles(ghost db: Db, files: seq<File>, lists0: seq<seq<Entry>>) returns (lists: seq<seq<Entry>>)
    requires Inv(db) && |db.levels| > 0 && db.levels[0] == ToSet(files) && Collects(lists0, Mems(db))
    requires forall i, j :: 0 <= i < j < |files| ==> files[i] != files[j]
    requires forall f :: f in files ==> Sorted(f.entries)
    ensures Collects(lists, Mems(db) + FilesEntries(db.levels[0]))
  {
    hide Inv, Collects, Sorted, NoSharedKey;
    lists := lists0;
    assert FirstFiles(files, 0) == {} && Mems(db) + {} == Mems(db);
    for i := 0 to |files|
      invariant Collects(lists, Mems(db) + FirstFiles(files, i))
    {
      FileApart(db, files, i);
      OneMoreSource(lists, Mems(db) + FirstFiles(files, i), files[i].entries);
      UnionJoins(Mems(db), FirstFiles(files, i), Elements(files[i].entries));
      lists := lists + [files[i].entries];
    }
    assert files[..|files|] == files;
  }

  lemma UnionJoins(a: set<Entry>, b: set<Entry>, c: set<Entry>)
    ensures a + (b + c) == (a + b) + c
  {}

  lemma UnionWithNone(a: set<Entry>, b: set<Entry>)
    requires b == {}
    ensures a + b == a
  {}

  lemma LevelZero(levels: Levels)
    requires |levels| > 0
    ensures LevelEntries(levels[..1]) == FilesEntries(levels[0])
  {
    OneMoreLevel(levels, 0);
    assert LevelEntries(levels[..0]) == {};
  }

  lemma LevelIs(db: Db, files: seq<seq<File>>, level: nat)
    requires Inv(db) && VersionOk(files) && LevelsOf(files) == db.levels && level < kNumLevels
    ensures |db.levels| == |files| == kNumLevels && db.levels[level] == ToSet(files[level])
    ensures forall f :: f in files[level] ==> FileOk(f) && Sorted(f.entries)
    ensures level > 0 ==> FilesSorted(files[level])
  {
    hide MemsInv, SequencesInv, RunningInv, Sorted, FileOk;
    assert forall f :: f in files[level] ==> f in db.levels[level];
  }

  /** DBImpl::NewInternalIterator. */
  method NewInternalIterator(ghost db: Db, mem: seq<Entry>, imm: Option<seq<Entry>>, files: seq<seq<File>>)
    returns (iter: M.MergingIterator)
    requires Inv(db) && Represents(db, mem, imm, files)
    ensures fresh(iter) && fresh(iter.children) && iter.Ok() && iter.Inside()
    ensures Sorted(iter.merged) && Elements(iter.merged) == db.Entries() && Unique(Elements(iter.merged))
  {
    hide Inv, VersionOk, Collects, Sorted, M.MergingIterator.Ok, M.IsMerge, Unique;
    FirstSource(mem);
    var lists := [mem];
    if imm.Some? {
      MemsApart(db);
      OneMoreSource(lists, db.mem, imm.value);
      lists := lists + [imm.value];
    }
    assert imm.None? ==> Mems(db) == db.mem;
    lists := AddIterators(db, files, lists);
    EntriesUnique(db);
    ghost var merged := TableExists(db.Entries());
    CollectedMerge(lists, db.Entries(), merged);
    var children := OpenAll(lists);
    assert seq(|children|, j requires 0 <= j < |children| => children[j].entries) == lists;
    iter := new M.MergingIterator(children, merged);
  }

  lemma FirstSource(mem: seq<Entry>)
    requires Sorted(mem)
    ensures Collects([mem], Elements(mem))
  {
    assert forall e :: e in Elements(mem) ==> e in [mem][0];
  }

  lemma MemsApart(db: Db)
    requires Inv(db)
    ensures NoSharedKey(db.mem, db.ImmEntries())
  {
    hide LevelsInv, SequencesInv, RunningInv;
  }

  method OpenAll(lists: seq<seq<Entry>>) returns (children: seq<ListIterator>)
    ensures fresh(children) && |children| == |lists|
    ensures forall j :: 0 <= j < |lists| ==> children[j].entries == lists[j] && children[j].InRange()
    ensures forall i, j :: 0 <= i < j < |lists| ==> children[i] != children[j]
  {
    children := [];
    for n := 0 to |lists|
      invariant fresh(children) && |children| == n
      invariant forall j :: 0 <= j < n ==> children[j].entries == lists[j] && children[j].InRange()
      invariant forall i, j :: 0 <= i < j < n ==> children[i] != children[j]
    {
      var child := new ListIterator(lists[n]);
      children := children + [child];
    }
  }

  // ----- what the user sees -----

  /** The keys in order, with what a read of each gives. */
  ghost predicate IsContents(m: seq<(UserKey, Bytes)>, db: Db, s: nat) {
    && (forall a, b :: 0 <= a < b < |m| ==> m[a].0 < m[b].0)
    && (forall k, v :: (k, v) in m <==> Read(db, k, s) == Some(v))
  }

  lemma {:induction false} SameContents(a: seq<(UserKey, Bytes)>, b: seq<(UserKey, Bytes)>)
    requires forall i, j :: 0 <= i < j < |a| ==> a[i].0 < a[j].0
    requires forall i, j :: 0 <= i < j < |b| ==> b[i].0 < b[j].0
    requires forall k, v :: (k, v) in a <==> (k, v) in b
    ensures a == b
  {
    assert |b| > 0 ==> (b[0].0, b[0].1) in b;
    if |a| > 0 {
      assert (a[0].0, a[0].1) in a;
      var j :| 0 <= j < |b| && b[j] == a[0];
      var i :| 0 <= i < |a| && a[i] == b[0];
      assert a[0] == b[0];
      forall k, v ensures (k, v) in a[1..] <==> (k, v) in b[1..] {
        InTail(a, (k, v));
        InTail(b, (k, v));
      }
      SameContents(a[1..], b[1..]);
    }
  }

  lemma InTail(m: seq<(UserKey, Bytes)>, x: (UserKey, Bytes))
    requires |m| > 0 && forall i, j :: 0 <= i < j < |m| ==> m[i].0 < m[j].0
    ensures x in m[1..] <==> x in m && x != m[0]
  {
    assert m == [m[0]] + m[1..];
    assert forall i :: 0 <= i < |m[1..]| ==> m[1..][i] == m[i + 1];
  }

  /** There is just one such list. */
  lemma ContentsExist(db: Db, s: nat) returns (m: seq<(UserKey, Bytes)>)
    requires Inv(db)
    ensures IsContents(m, db, s) && forall n :: IsContents(n, db, s) ==> n == m
  {
    hide Inv, Map, Read;
    EntriesUnique(db);
    var merged := TableExists(db.Entries());
    m := Map(merged, s);
    assert IsContents(m, db, s) by { MapIsContents(db, merged, s); }
    forall n | IsContents(n, db, s) ensures n == m {
      SameContents(n, m);
    }
  }

  lemma MapIsContents(db: Db, merged: seq<Entry>, s: nat)
    requires Sorted(merged) && Elements(merged) == db.Entries() && Unique(db.Entries())
    ensures IsContents(Map(merged, s), db, s)
  {
    hide Map;
    MapIsTheDatabase(merged, s);
  }

  /** An iterator opened on the database and moved in any way shows what a plain cursor shows
      over the keys and values that point reads give at its sequence. */
  method Iterate(ghost db: Db, mem: seq<Entry>, imm: Option<seq<Entry>>, files: seq<seq<File>>, sequence: nat,
                 moves: seq<Move>, ghost m: seq<(UserKey, Bytes)>)
    returns (shown: seq<Option<(UserKey, Bytes)>>)
    requires Inv(db) && Represents(db, mem, imm, files)
    requires IsContents(m, db, sequence) && Legal(m, None, moves)
    ensures shown == Shown(m, None, moves)
  {
    hide Inv, Represents, M.MergingIterator.Ok, Map, Unique, Sorted;
    var iter := NewInternalIterator(db, mem, imm, files);
    MapIsContents(db, iter.merged, sequence);
    SameContents(Map(iter.merged, sequence), m);
    var cursor := new Cursor(iter, sequence);
    shown := Drive(cursor, moves);
  }
}
