/** What reads see across the steps of the merge tree. */
module SnapshotReads {
  import opened Common
  import opened InternalKeys
  import opened Lsm

  ghost function Read(db: Db, k: UserKey, s: nat): Option<Bytes> {
    Lookup(db.Entries(), k, s)
  }

  ghost predicate SameReads(a: Db, b: Db, s: nat) {
    forall k :: Read(a, k, s) == Read(b, k, s)
  }

  /** Every entry outside the inputs of a compaction. */
  ghost function Others(db: Db, c: Compaction): set<Entry>
    requires c.level + 1 < |db.levels|
  {
    db.mem + db.ImmEntries() + LevelEntries(Install(db.levels, c.level, c.in0, c.in1, {}))
  }

  /** The marker d of key k is dropped although an older value v of k stays behind
      and nothing newer hides v at sequence s. */
  ghost predicate Exposes(c: Compaction, others: set<Entry>, d: Entry, v: Entry, s: nat) {
    && d in c.Inputs() && Obsolete(c, d) && Newest(c.Inputs(), d.user, s) == Some(d)
    && v in others && v.kind == Value && v.sn < d.sn && Newest(others, d.user, s) == Some(v)
  }

  ghost predicate ExposesAt(c: Compaction, others: set<Entry>, s: nat) {
    exists d, v :: Exposes(c, others, d, v, s)
  }

  lemma KeptNewest(c: Compaction, k: UserKey, s: nat, n: Option<Entry>)
    requires s >= c.smallestSnapshot && Unique(c.Inputs())
    requires IsNewest(c.Inputs(), k, s, n)
    ensures n.Some? && Obsolete(c, n.value) ==> IsNewest(Kept(c), k, s, None)
    ensures n.Some? && !Obsolete(c, n.value) ==> IsNewest(Kept(c), k, s, n)
    ensures n.None? ==> IsNewest(Kept(c), k, s, None)
  {
    hide IsBaseLevelForKey;
    if n.Some? {
      assert !Hidden(c.Inputs(), n.value, c.smallestSnapshot);
    }
  }

  lemma NewestOfUnion(A: set<Entry>, B: set<Entry>, k: UserKey, s: nat, a: Option<Entry>, b: Option<Entry>)
    requires IsNewest(A, k, s, a) && IsNewest(B, k, s, b)
    ensures IsNewest(A + B, k, s, if a.None? then b else if b.None? || b.value.sn <= a.value.sn then a else b)
  {}

  lemma EntriesUnique(db: Db)
    requires Inv(db)
    ensures Unique(db.Entries())
  {
    hide Sorted, FileOk, NumbersDistinct, RunningInv, SequencesInv, FileNumbersInv, LevelDisjoint;
    forall a, b | a in db.Entries() && b in db.Entries() && a.user == b.user && a.sn == b.sn
      ensures a == b
    {
      if a in LevelEntries(db.levels) && b in LevelEntries(db.levels) {
        LevelEntriesUnique(db.levels, a, b);
      } else if a in LevelEntries(db.levels) {
        MemsNewer(db, b, a);
      } else if b in LevelEntries(db.levels) {
        MemsNewer(db, a, b);
      }
    }
  }

  lemma MemsNewer(db: Db, m: Entry, e: Entry)
    requires MemsInv(db) && m in db.mem + db.ImmEntries() && e in LevelEntries(db.levels) && m.user == e.user
    ensures m.sn > e.sn
  {
    var l: nat, f: File :| l < |db.levels| && f in db.levels[l] && e in f.entries;
    assert e in Elements(f.entries);
  }

  lemma LevelEntriesUnique(levels: Levels, x: Entry, y: Entry)
    requires LevelsInv(levels) && x in LevelEntries(levels) && y in LevelEntries(levels)
    requires x.user == y.user && x.sn == y.sn
    ensures x == y
  {
    hide FilesOk, NumbersDistinct, LevelDisjoint, Level0Ordered;
    var l: nat, f: File :| l < |levels| && f in levels[l] && x in f.entries;
    var m: nat, g: File :| m < |levels| && g in levels[m] && y in g.entries;
    assert x in Elements(f.entries) && y in Elements(g.entries);
    assert l < m ==> Above(Elements(f.entries), Elements(g.entries));
    assert m < l ==> Above(Elements(g.entries), Elements(f.entries));
    assert l == m ==> LevelUnique(levels[l]);
  }

  lemma EntriesSplit(db: Db, c: Compaction, outputs: set<File>)
    requires c.level + 1 < |db.levels| && c.in0 <= db.levels[c.level] && c.in1 <= db.levels[c.level + 1]
    ensures db.Entries() == c.Inputs() + Others(db, c)
    ensures db.mem + db.ImmEntries() + LevelEntries(Install(db.levels, c.level, c.in0, c.in1, outputs))
            == FilesEntries(outputs) + Others(db, c)
  {
    var rest := Install(db.levels, c.level, c.in0, c.in1, {});
    var levels' := Install(db.levels, c.level, c.in0, c.in1, outputs);
    forall e
      ensures e in LevelEntries(db.levels) <==> e in c.Inputs() || e in LevelEntries(rest)
      ensures e in LevelEntries(levels') <==> e in FilesEntries(outputs) || e in LevelEntries(rest)
    {
      SplitEntry(db.levels, c, outputs, e);
    }
  }

  lemma SplitEntry(levels: Levels, c: Compaction, outputs: set<File>, e: Entry)
    requires c.level + 1 < |levels| && c.in0 <= levels[c.level] && c.in1 <= levels[c.level + 1]
    ensures e in LevelEntries(levels) <==> e in c.Inputs() || e in LevelEntries(Install(levels, c.level, c.in0, c.in1, {}))
    ensures e in LevelEntries(Install(levels, c.level, c.in0, c.in1, outputs))
            <==> e in FilesEntries(outputs) || e in LevelEntries(Install(levels, c.level, c.in0, c.in1, {}))
  {
    var rest := Install(levels, c.level, c.in0, c.in1, {});
    var levels' := Install(levels, c.level, c.in0, c.in1, outputs);
    forall l: nat, f: File | l < |levels| && e in f.entries
      ensures f in levels[l] ==> f in rest[l] || f in c.in0 + c.in1
      ensures f in rest[l] ==> f in levels[l] && f in levels'[l]
      ensures f in levels'[l] ==> f in rest[l] || f in outputs
    {}
    if f :| f in c.in0 + c.in1 && e in f.entries {
      assert f in levels[c.level] || f in levels[c.level + 1];
    }
    if f :| f in outputs && e in f.entries {
      assert f in levels'[c.level + 1];
    }
  }

  /** What a read finds before and after the merge. */
  lemma MergedRead(c: Compaction, others: set<Entry>, k: UserKey, s: nat)
    requires s >= c.smallestSnapshot && Unique(c.Inputs() + others)
    ensures Lookup(c.Inputs() + others, k, s) == Lookup(Kept(c) + others, k, s) || ExposesAt(c, others, s)
  {
    hide IsBaseLevelForKey;
    var n, o := Newest(c.Inputs(), k, s), Newest(others, k, s);
    KeptNewest(c, k, s, n);
    var n' := if n.Some? && Obsolete(c, n.value) then None else n;
    NewestOfUnion(c.Inputs(), others, k, s, n, o);
    NewestOfUnion(Kept(c), others, k, s, n', o);
    NewestIsUnique(c.Inputs() + others, k, s, if n.None? then o else if o.None? || o.value.sn <= n.value.sn then n else o);
    NewestIsUnique(Kept(c) + others, k, s, if n'.None? then o else if o.None? || o.value.sn <= n'.value.sn then n' else o);
    if n.Some? && n'.None? && o.Some? && o.value.kind == Value && o.value.sn <= n.value.sn {
      assert n.value in c.Inputs() + others && o.value in c.Inputs() + others;
      assert Exposes(c, others, n.value, o.value, s);
    }
  }

  lemma ExposedRead(c: Compaction, others: set<Entry>, d: Entry, v: Entry, s: nat)
    requires s >= c.smallestSnapshot && Unique(c.Inputs() + others) && Exposes(c, others, d, v, s)
    ensures Lookup(c.Inputs() + others, d.user, s) == None
    ensures Lookup(Kept(c) + others, d.user, s) == Some(v.value)
  {
    hide IsBaseLevelForKey;
    var k := d.user;
    KeptNewest(c, k, s, Some(d));
    NewestOfUnion(c.Inputs(), others, k, s, Some(d), Some(v));
    NewestOfUnion(Kept(c), others, k, s, None, Some(v));
    NewestIsUnique(c.Inputs() + others, k, s, Some(d));
    NewestIsUnique(Kept(c) + others, k, s, Some(v));
  }

  /** What is exposed to a later reader is exposed at the smallest snapshot too. */
  lemma ExposedEarlier(c: Compaction, others: set<Entry>, s: nat)
    requires s >= c.smallestSnapshot && Unique(c.Inputs() + others) && ExposesAt(c, others, s)
    ensures ExposesAt(c, others, c.smallestSnapshot)
  {
    hide IsBaseLevelForKey;
    var d, v :| Exposes(c, others, d, v, s);
    NewestIsUnique(c.Inputs(), d.user, c.smallestSnapshot, Some(d));
    NewestIsUnique(others, d.user, c.smallestSnapshot, Some(v));
    assert Exposes(c, others, d, v, c.smallestSnapshot);
  }

  /** A compaction changes no read at a sequence from its smallest snapshot on, exactly when it
      drops no marker that still hides there an older value left outside its inputs. */
  lemma CompactionKeepsReadsAtIff(db: Db, outputs: set<File>, nextFile: nat, s: nat)
    requires Inv(db) && Enabled(db, Finish(outputs, nextFile)) && s >= db.running.value.smallestSnapshot
    ensures var db' := Apply(db, Finish(outputs, nextFile));
            SameReads(db, db', s) <==> !ExposesAt(db.running.value, Others(db, db.running.value), s)
  {
    hide Inv, Newest, Obsolete, Exposes, Kept, Others, OutputsOk, RunningInv;
    var c := db.running.value;
    var db' := Apply(db, Finish(outputs, nextFile));
    FinishEntries(db, outputs, nextFile);
    var others := Others(db, c);
    forall k ensures Read(db, k, s) == Read(db', k, s) || ExposesAt(c, others, s) {
      MergedRead(c, others, k, s);
    }
    if d, v :| Exposes(c, others, d, v, s) {
      ExposedRead(c, others, d, v, s);
      assert Read(db, d.user, s) != Read(db', d.user, s);
    }
  }

  /** So it changes none of them at all exactly when it exposes nothing at the smallest. */
  lemma CompactionKeepsReadsIff(db: Db, outputs: set<File>, nextFile: nat)
    requires Inv(db) && Enabled(db, Finish(outputs, nextFile))
    ensures var c := db.running.value;
            var db' := Apply(db, Finish(outputs, nextFile));
            (forall s | s >= c.smallestSnapshot :: SameReads(db, db', s))
            <==> !ExposesAt(c, Others(db, c), c.smallestSnapshot)
  {
    hide Inv, ExposesAt, Others, OutputsOk, SameReads, Apply;
    var c := db.running.value;
    FinishEntries(db, outputs, nextFile);
    forall s: nat | s >= c.smallestSnapshot
      ensures SameReads(db, Apply(db, Finish(outputs, nextFile)), s) <==> !ExposesAt(c, Others(db, c), s)
      ensures ExposesAt(c, Others(db, c), s) ==> ExposesAt(c, Others(db, c), c.smallestSnapshot)
    {
      CompactionKeepsReadsAtIff(db, outputs, nextFile, s);
      if ExposesAt(c, Others(db, c), s) {
        ExposedEarlier(c, Others(db, c), s);
      }
    }
  }

  lemma FinishEntries(db: Db, outputs: set<File>, nextFile: nat)
    requires Inv(db) && Enabled(db, Finish(outputs, nextFile))
    ensures var c := db.running.value;
            && c.level + 1 < |db.levels|
            && Unique(db.Entries())
            && db.Entries() == c.Inputs() + Others(db, c)
            && Apply(db, Finish(outputs, nextFile)).Entries() == Kept(c) + Others(db, c)
  {
    EntriesUnique(db);
    EntriesSplit(db, db.running.value, outputs);
    hide LevelsInv, MemsInv, SequencesInv, FileNumbersInv, TablesSorted, Kept, FileOk, Sorted;
  }

  // ----- when nothing is exposed -----

  /** No file of the output level left outside starts with the user key that an
      input of that level ends with: AddBoundaryInputs would add nothing to inputs_[1]. */
  ghost predicate OutputLevelClosed(levels: Levels, c: Compaction)
    requires c.level + 1 < |levels|
  {
    forall f, g :: f in c.in1 && g in levels[c.level + 1] - c.in1 && Less(f.largest, g.smallest)
      ==> f.largest.user != g.smallest.user
  }

  lemma ClosedExposesNothing(db: Db, c: Compaction, s: nat)
    requires Inv(db) && db.running == Some(c) && c.level + 1 < |db.levels| && OutputLevelClosed(db.levels, c)
    ensures !ExposesAt(c, Others(db, c), s)
  {
    hide Inv, Exposes, Others, Newest;
    if d, v :| Exposes(c, Others(db, c), d, v, s) {
      assert RunningInv(db.levels, c) by { ShowRunning(db, c); }
      ExposedParts(c, Others(db, c), d, v, s);
      var f :| f in c.in0 + c.in1 && d in f.entries;
      if v in LevelEntries(Install(db.levels, c.level, c.in0, c.in1, {})) {
        var l: nat, g: File :| l < |db.levels| && g in Install(db.levels, c.level, c.in0, c.in1, {})[l] && v in g.entries;
        OutsideIsNewer(db, c, f, d, l, g, v);
      } else {
        assert v in db.mem + db.ImmEntries() by { ShowOthers(db, c, v); }
        InputInLevels(db, c, d);
        assert MemsInv(db) by { ShowRunning(db, c); }
        MemsNewer(db, v, d);
      }
    }
  }

  lemma ShowRunning(db: Db, c: Compaction)
    requires Inv(db) && db.running == Some(c)
    ensures RunningInv(db.levels, c) && MemsInv(db)
  {
    hide LevelsInv, SequencesInv;
  }

  lemma ShowOthers(db: Db, c: Compaction, v: Entry)
    requires c.level + 1 < |db.levels| && v in Others(db, c)
    ensures v in db.mem + db.ImmEntries() || v in LevelEntries(Install(db.levels, c.level, c.in0, c.in1, {}))
  {}

  lemma InputInLevels(db: Db, c: Compaction, d: Entry)
    requires RunningInv(db.levels, c) && d in c.Inputs()
    ensures d in LevelEntries(db.levels)
  {
    var f :| f in c.in0 + c.in1 && d in f.entries;
    assert f in db.levels[c.level] || f in db.levels[c.level + 1];
  }

  lemma ExposedParts(c: Compaction, others: set<Entry>, d: Entry, v: Entry, s: nat)
    requires Exposes(c, others, d, v, s)
    ensures d in c.Inputs() && IsBaseLevelForKey(c.base, c.level, d.user)
    ensures v in others && v.user == d.user && v.sn < d.sn
  {}

  /** What stays outside the inputs is newer than any input entry of its key that is base level. */
  lemma OutsideIsNewer(db: Db, c: Compaction, f: File, d: Entry, l: nat, g: File, v: Entry)
    requires Inv(db) && db.running == Some(c) && OutputLevelClosed(db.levels, c)
    requires f in c.in0 + c.in1 && d in f.entries && IsBaseLevelForKey(c.base, c.level, d.user)
    requires l < |db.levels| && g in Install(db.levels, c.level, c.in0, c.in1, {})[l] && v in g.entries
    requires v.user == d.user
    ensures v.sn >= d.sn
  {
    hide MemsInv, SequencesInv, TablesSorted, NumbersDistinct, Level0Ordered, LevelUnique, Separated;
    var levels := db.levels;
    assert g in levels[l] && FileOk(g);
    assert f in levels[c.level] || f in levels[c.level + 1];
    assert FileOk(f) by { InputFileOk(levels, c, f); }
    assert d in Elements(f.entries) && v in Elements(g.entries) && d in c.Inputs();
    UserBounds(f);
    UserBounds(g);
    assert l < c.level ==> Above(Elements(g.entries), Elements(f.entries));
    assert l == c.level ==> Above(Elements(g.entries), Elements(f.entries));
    assert l == c.level + 1 && f in c.in0 ==> UserApart(f, g);
    assert l == c.level + 1 && f in c.in1 ==> LevelDisjoint(levels[l]) && Disjoint(f, g);
    assert l >= c.level + 2 ==> !Covers(g, d.user);
  }

  /** With the output level closed under boundary files, a compaction changes no read
      at or above its smallest snapshot. */
  lemma ClosedCompactionKeepsReads(db: Db, outputs: set<File>, nextFile: nat, k: UserKey, s: nat)
    requires Inv(db) && Enabled(db, Finish(outputs, nextFile))
    requires db.running.value.level + 1 < |db.levels| && OutputLevelClosed(db.levels, db.running.value)
    requires s >= db.running.value.smallestSnapshot
    ensures Read(Apply(db, Finish(outputs, nextFile)), k, s) == Read(db, k, s)
  {
    hide Inv, ExposesAt, Others, Read, OutputsOk, OutputLevelClosed, Apply;
    CompactionKeepsReadsAtIff(db, outputs, nextFile, s);
    ClosedExposesNothing(db, db.running.value, s);
  }

  // ----- reads across one step and across runs -----

  lemma SameEntriesSteps(db: Db, a: Action)
    requires Inv(db) && Enabled(db, a) && !a.Write? && !a.Finish?
    ensures Apply(db, a).Entries() == db.Entries()
  {
    hide MemsInv, SequencesInv, TablesSorted, RunningInv, NewerAbove, LevelUnique, LevelDisjoint, FileOk, Sorted, FilesOk;
    match a
    case Flush(file, level) =>
      FlushedEntries(db.levels, file, level);
    case TrivialMove(level, file) =>
      var c := Compaction(level, {file}, {}, 0, db.levels);
      EntriesSplit(db, c, {file});
      assert c.in0 + c.in1 == {file};
    case _ =>
  }

  lemma FlushedEntries(levels: Levels, file: File, level: nat)
    requires level < |levels|
    ensures LevelEntries(levels[level := levels[level] + {file}]) == LevelEntries(levels) + Elements(file.entries)
  {
    var levels' := levels[level := levels[level] + {file}];
    forall e ensures e in LevelEntries(levels') <==> e in LevelEntries(levels) + Elements(file.entries) {
      if e in LevelEntries(levels) {
        var l: nat, f: File :| l < |levels| && f in levels[l] && e in f.entries;
        assert f in levels'[l];
      }
      if e in file.entries {
        assert file in levels'[level];
      }
      if e in LevelEntries(levels') {
        var l: nat, f: File :| l < |levels'| && f in levels'[l] && e in f.entries;
        assert f == file || f in levels[l];
      }
    }
  }

  lemma WriteKeepsOldReads(db: Db, ops: seq<Op>, k: UserKey, s: nat)
    requires Inv(db) && Enabled(db, Write(ops)) && s <= db.lastSequence
    ensures Read(Apply(db, Write(ops)), k, s) == Read(db, k, s)
  {
    hide LevelsInv, MemsInv, RunningInv;
    var db' := Apply(db, Write(ops));
    var added := Elements(Stamp(ops, db.lastSequence + 1));
    assert db'.Entries() == db.Entries() + added;
    StepKeepsInv(db, Write(ops));
    EntriesUnique(db');
    NewestOfUnion(db.Entries(), added, k, s, Newest(db.Entries(), k, s), None);
    NewestIsUnique(db'.Entries(), k, s, Newest(db.Entries(), k, s));
  }

  /** The step finishes a compaction that exposes an old value at sequence s. */
  ghost predicate Exposing(db: Db, a: Action, s: nat) {
    && a.Finish? && db.running.Some? && db.running.value.level + 1 < |db.levels|
    && ExposesAt(db.running.value, Others(db, db.running.value), s)
  }

  /** A step changes something of what is read at a sequence already written, that no live
      snapshot nor the newest state lies below, exactly when it finishes an exposing compaction. */
  lemma StepKeepsReadsIff(db: Db, a: Action, s: nat)
    requires Inv(db) && Enabled(db, a) && SmallestSnapshot(db) <= s <= db.lastSequence
    ensures SameReads(db, Apply(db, a), s) <==> !Exposing(db, a, s)
  {
    hide LevelsInv, MemsInv, SequencesInv, RunningInv, Newest, ExposesAt, Others, OutputsOk, ValidInputs;
    match a
    case Write(ops) =>
      forall k ensures Read(Apply(db, a), k, s) == Read(db, k, s) {
        WriteKeepsOldReads(db, ops, k, s);
      }
    case Finish(outputs, nextFile) => CompactionKeepsReadsAtIff(db, outputs, nextFile, s);
    case _ => SameEntriesSteps(db, a);
  }

  /** Background work is invisible: reads of the newest state stay the same too, with that one exception. */
  lemma BackgroundInvisibleIff(db: Db, a: Action)
    requires Inv(db) && Enabled(db, a) && !a.Write?
    ensures Apply(db, a).lastSequence == db.lastSequence
    ensures SameReads(db, Apply(db, a), db.lastSequence) <==> !Exposing(db, a, db.lastSequence)
  {
    SmallestIsWritten(db);
    StepKeepsReadsIff(db, a, db.lastSequence);
    hide Inv, Enabled, SameReads, Exposing;
  }

  lemma SmallestIsWritten(db: Db)
    requires Inv(db)
    ensures SmallestSnapshot(db) <= db.lastSequence
    ensures forall s :: s in db.snapshots ==> SmallestSnapshot(db) <= s <= db.lastSequence
  {
    hide LevelsInv, MemsInv, RunningInv;
    forall s | s in db.snapshots ensures SmallestSnapshot(db) <= s <= db.lastSequence {
      var i :| 0 <= i < |db.snapshots| && db.snapshots[i] == s;
      assert i > 0 ==> db.snapshots[0] <= db.snapshots[i];
    }
  }

  /** The last operation of a batch on key k, if the batch has one. */
  function LastOp(ops: seq<Op>, k: UserKey): Option<nat> {
    if |ops| == 0 then None
    else if ops[|ops| - 1].user == k then Some(|ops| - 1)
    else LastOp(ops[..|ops| - 1], k)
  }

  lemma {:induction false} LastOpIsLast(ops: seq<Op>, k: UserKey)
    ensures match LastOp(ops, k)
            case None => forall i :: 0 <= i < |ops| ==> ops[i].user != k
            case Some(j) => j < |ops| && ops[j].user == k && forall i :: j < i < |ops| ==> ops[i].user != k
  {
    if |ops| > 0 && ops[|ops| - 1].user != k {
      var rest := ops[..|ops| - 1];
      LastOpIsLast(rest, k);
      assert forall i :: 0 <= i < |rest| ==> ops[i] == rest[i];
    }
  }

  /** A batch takes effect as a whole: afterwards a key reads as its last operation in
      the batch says, and every other key as before. */
  lemma WriteIsRead(db: Db, ops: seq<Op>, k: UserKey)
    requires Inv(db) && Enabled(db, Write(ops))
    ensures var db' := Apply(db, Write(ops));
            Read(db', k, db'.lastSequence) ==
            match LastOp(ops, k)
            case None => Read(db, k, db.lastSequence)
            case Some(j) => if j < |ops| && ops[j].kind == Value then Some(ops[j].value) else None
  {
    hide Inv, Newest;
    var db' := Apply(db, Write(ops));
    var stamped := Stamp(ops, db.lastSequence + 1);
    LastOpIsLast(ops, k);
    StepKeepsInv(db, Write(ops));
    EntriesUnique(db');
    assert db'.Entries() == db.Entries() + Elements(stamped);
    NewestBelow(db, k, db'.lastSequence);
    var before := Newest(db.Entries(), k, db.lastSequence);
    match LastOp(ops, k)
    case None =>
      assert IsNewest(Elements(stamped), k, db'.lastSequence, None);
      NewestOfUnion(db.Entries(), Elements(stamped), k, db'.lastSequence, before, None);
      NewestIsUnique(db'.Entries(), k, db'.lastSequence, before);
    case Some(j) =>
      var e := stamped[j];
      assert e in stamped;
      assert IsNewest(Elements(stamped), k, db'.lastSequence, Some(e));
      NewestOfUnion(db.Entries(), Elements(stamped), k, db'.lastSequence, before, Some(e));
      NewestIsUnique(db'.Entries(), k, db'.lastSequence, Some(e));
  }

  lemma NewestBelow(db: Db, k: UserKey, s: nat)
    requires Inv(db) && s >= db.lastSequence
    ensures IsNewest(db.Entries(), k, s, Newest(db.Entries(), k, db.lastSequence))
  {
    hide LevelsInv, MemsInv, RunningInv;
    forall e | e in db.Entries() ensures e.sn <= db.lastSequence {}
  }

  // ----- runs -----

  function Init(): Db {
    Db({}, None, seq(kNumLevels, _ => {}), 0, [], 2, None)
  }

  /** dbs are the states passed through by performing the actions from an empty database. */
  ghost predicate IsRun(dbs: seq<Db>, actions: seq<Action>) {
    && |dbs| == |actions| + 1 && dbs[0] == Init()
    && forall i :: 0 <= i < |actions| ==> Enabled(dbs[i], actions[i]) && dbs[i + 1] == Apply(dbs[i], actions[i])
  }

  lemma EmptyLevels(levels: Levels)
    requires |levels| == kNumLevels && forall l :: 0 <= l < |levels| ==> levels[l] == {}
    ensures LevelsInv(levels) && TablesSorted(levels)
  {
    hide Above, FileOk, Sorted, Disjoint;
    assert forall l :: 0 <= l < |levels| ==> LevelUnique(levels[l]) && LevelDisjoint(levels[l]);
  }

  lemma EmptyMems(db: Db)
    requires db.mem == {} && db.imm == None && db.lastSequence == 0 && db.snapshots == []
    requires forall l :: 0 <= l < |db.levels| ==> db.levels[l] == {}
    ensures MemsInv(db) && SequencesInv(db) && FileNumbersInv(db)
  {
    hide Elements;
  }

  lemma InitInv()
    ensures Inv(Init())
  {
    var init := Init();
    assert |init.levels| == kNumLevels && forall l :: 0 <= l < |init.levels| ==> init.levels[l] == {};
    EmptyLevels(init.levels);
    EmptyMems(init);
    hide LevelsInv, TablesSorted, MemsInv, SequencesInv, FileNumbersInv, RunningInv;
  }

  lemma {:induction false} RunInv(dbs: seq<Db>, actions: seq<Action>, i: nat)
    requires IsRun(dbs, actions) && i < |dbs|
    ensures Inv(dbs[i])
  {
    hide Inv, Enabled, Apply;
    if i == 0 {
      InitInv();
    } else {
      RunInv(dbs, actions, i - 1);
      assert Enabled(dbs[i - 1], actions[i - 1]);
      StepKeepsInv(dbs[i - 1], actions[i - 1]);
    }
  }

  // ----- snapshots held -----

  /** How many snapshots are out after these actions. */
  function Out(actions: seq<Action>): int
    decreases |actions|
  {
    if |actions| == 0 then 0
    else
      var rest := Out(actions[..|actions| - 1]);
      match actions[|actions| - 1]
      case TakeSnapshot => rest + 1
      case ReleaseSnapshot(_) => rest - 1
      case _ => rest
  }

  /** Where the snapshot that action i takes stands among those out before action t, unless it has been released. */
  function Standing(actions: seq<Action>, i: nat, t: nat): Option<int>
    requires i < t <= |actions|
    decreases t
  {
    if t == i + 1 then Some(Out(actions[..i]))
    else
      match Standing(actions, i, t - 1)
      case None => None
      case Some(p) =>
        match actions[t - 1]
        case ReleaseSnapshot(r) => if r == p then None else if r < p then Some(p - 1) else Some(p)
        case _ => Some(p)
  }

  /** Action i takes a snapshot and no action before t releases that one. */
  predicate Held(actions: seq<Action>, i: nat, t: nat) {
    i < t <= |actions| && actions[i].TakeSnapshot? && Standing(actions, i, t).Some?
  }

  lemma {:induction false} OutIsLength(dbs: seq<Db>, actions: seq<Action>, t: nat)
    requires IsRun(dbs, actions) && t <= |actions|
    ensures Out(actions[..t]) == |dbs[t].snapshots|
  {
    hide Enabled, Apply;
    if t > 0 {
      OutIsLength(dbs, actions, t - 1);
      assert actions[..t][..t - 1] == actions[..t - 1];
      assert Enabled(dbs[t - 1], actions[t - 1]);
      SnapshotsAfter(dbs[t - 1], actions[t - 1]);
    }
  }

  /** A snapshot that is held is in the database's list, with the sequence it was taken at. */
  lemma {:induction false} HeldIsListed(dbs: seq<Db>, actions: seq<Action>, i: nat, t: nat)
    requires IsRun(dbs, actions) && Held(actions, i, t)
    ensures var p := Standing(actions, i, t).value;
      0 <= p < |dbs[t].snapshots| && dbs[t].snapshots[p] == dbs[i].lastSequence
    decreases t
  {
    hide Enabled, Apply;
    assert Enabled(dbs[t - 1], actions[t - 1]) && dbs[t] == Apply(dbs[t - 1], actions[t - 1]);
    SnapshotsAfter(dbs[t - 1], actions[t - 1]);
    if t == i + 1 {
      OutIsLength(dbs, actions, i);
    } else {
      HeldIsListed(dbs, actions, i, t - 1);
      StandingMoves(actions[t - 1], dbs[t - 1].snapshots, dbs[t].snapshots, Standing(actions, i, t - 1), Standing(actions, i, t));
    }
  }

  lemma StandingMoves(a: Action, was: seq<nat>, now: seq<nat>, q: Option<int>, p: Option<int>)
    requires q.Some? && p.Some? && 0 <= q.value < |was|
    requires a.TakeSnapshot? ==> |now| == |was| + 1 && forall x :: 0 <= x < |was| ==> now[x] == was[x]
    requires a.ReleaseSnapshot? ==> |now| == |was| - 1 && a.i < |was| && a.i != q.value
    requires a.ReleaseSnapshot? ==> forall x :: 0 <= x < |now| ==> now[x] == was[if x < a.i then x else x + 1]
    requires !a.TakeSnapshot? && !a.ReleaseSnapshot? ==> now == was
    requires p == if a.ReleaseSnapshot? && a.i < q.value then Some(q.value - 1) else q
    ensures 0 <= p.value < |now| && now[p.value] == was[q.value]
  {}

  lemma {:induction false} HeldBefore(actions: seq<Action>, i: nat, t: nat, u: nat)
    requires Held(actions, i, u) && i < t <= u
    ensures Held(actions, i, t)
    decreases u
  {
    if t < u {
      HeldBefore(actions, i, t, u - 1);
    }
  }

  lemma HeldIsLive(dbs: seq<Db>, actions: seq<Action>, i: nat, j: nat)
    requires IsRun(dbs, actions) && Held(actions, i, j)
    ensures forall t :: i < t <= j ==> dbs[i].lastSequence in dbs[t].snapshots
  {
    forall t: nat | i < t <= j ensures dbs[i].lastSequence in dbs[t].snapshots {
      HeldBefore(actions, i, t, j);
      HeldIsListed(dbs, actions, i, t);
    }
  }

  /** While a sequence is in the list, it reads the same exactly when no compaction that finishes exposes there. */
  lemma ListedIsolationIff(dbs: seq<Db>, actions: seq<Action>, i: nat, j: nat, s: nat)
    requires IsRun(dbs, actions) && i <= j < |dbs|
    requires forall t :: i <= t < j ==> s in dbs[t].snapshots
    ensures (forall t :: i <= t <= j ==> SameReads(dbs[i], dbs[t], s))
       <==> forall t :: i <= t < j ==> !Exposing(dbs[t], actions[t], s)
  {
    hide Inv, Enabled, Apply, SameReads, Exposing;
    if forall t :: i <= t < j ==> !Exposing(dbs[t], actions[t], s) {
      forall t: nat | i <= t <= j ensures SameReads(dbs[i], dbs[t], s) {
        SnapshotIsolation(dbs, actions, i, t, s);
      }
    }
    if forall t :: i <= t <= j ==> SameReads(dbs[i], dbs[t], s) {
      forall t: nat | i <= t < j ensures !Exposing(dbs[t], actions[t], s) {
        var next := t + 1;
        assert SameReads(dbs[i], dbs[t], s) && SameReads(dbs[i], dbs[next], s);
        LiveStep(dbs, actions, t, s);
        ReadsChain(dbs[i], dbs[t], dbs[next], s);
      }
    }
  }

  lemma LiveStep(dbs: seq<Db>, actions: seq<Action>, t: nat, s: nat)
    requires IsRun(dbs, actions) && t < |actions| && s in dbs[t].snapshots
    ensures SameReads(dbs[t], dbs[t + 1], s) <==> !Exposing(dbs[t], actions[t], s)
  {
    hide Inv, Enabled, Apply, Read, Exposing;
    RunInv(dbs, actions, t);
    assert Enabled(dbs[t], actions[t]);
    SmallestIsWritten(dbs[t]);
    StepKeepsReadsIff(dbs[t], actions[t], s);
  }

  lemma ReadsChain(a: Db, b: Db, c: Db, s: nat)
    requires SameReads(a, b, s)
    ensures SameReads(a, c, s) <==> SameReads(b, c, s)
  {
    hide Read;
    if SameReads(a, c, s) {
      forall k ensures Read(b, k, s) == Read(c, k, s) {
        assert Read(a, k, s) == Read(b, k, s) && Read(a, k, s) == Read(c, k, s);
      }
    }
  }

  lemma {:induction false} SnapshotIsolation(dbs: seq<Db>, actions: seq<Action>, i: nat, j: nat, s: nat)
    requires IsRun(dbs, actions) && i <= j < |dbs|
    requires forall t :: i <= t < j ==> s in dbs[t].snapshots && !Exposing(dbs[t], actions[t], s)
    ensures SameReads(dbs[i], dbs[j], s)
  {
    hide Inv, Enabled, Apply, Read, Exposing;
    if i < j {
      SnapshotIsolation(dbs, actions, i, j - 1, s);
      LiveStep(dbs, actions, j - 1, s);
      ReadsChain(dbs[i], dbs[j - 1], dbs[j], s);
    }
  }

  /** Snapshot isolation: from the moment a snapshot is taken and for as long as it is held, every key reads the
      same at it, whatever is written, flushed, moved, compacted or released meanwhile, exactly when no compaction
      that finishes meanwhile exposes an old value at it. */
  lemma SnapshotIsolationIff(dbs: seq<Db>, actions: seq<Action>, i: nat, j: nat)
    requires IsRun(dbs, actions) && Held(actions, i, j)
    ensures var s := dbs[i].lastSequence;
      (forall t :: i <= t <= j ==> SameReads(dbs[i], dbs[t], s))
      <==> forall t :: i <= t < j ==> !Exposing(dbs[t], actions[t], s)
  {
    hide Inv, Read, Exposing, Enabled, Apply;
    var s := dbs[i].lastSequence;
    HeldIsLive(dbs, actions, i, j);
    RunInv(dbs, actions, i);
    SmallestIsWritten(dbs[i]);
    assert Enabled(dbs[i], actions[i]);
    StepKeepsReadsIff(dbs[i], actions[i], s);
    NotExposing(dbs[i], actions[i], s);
    assert SameReads(dbs[i], dbs[i + 1], s);
    ListedIsolationIff(dbs, actions, i + 1, j, s);
    hide SameReads;
    forall t: nat | i < t <= j ensures SameReads(dbs[i], dbs[t], s) <==> SameReads(dbs[i + 1], dbs[t], s) {
      ReadsChain(dbs[i], dbs[i + 1], dbs[t], s);
    }
    assert SameReads(dbs[i], dbs[i], s) by { SameAsItself(dbs[i], s); }
  }

  lemma SameAsItself(db: Db, s: nat)
    ensures SameReads(db, db, s)
  {}

  lemma NotExposing(db: Db, a: Action, s: nat)
    requires !a.Finish?
    ensures !Exposing(db, a, s)
  {}

  // ----- runs whose compactions are begun closed -----

  /** The assumption on a step: a compaction is begun with its output level closed. */
  ghost predicate ClosedStep(db: Db, a: Action) {
    a.Begin? && a.level + 1 < |db.levels| ==> OutputLevelClosed(db.levels, Begun(db, a.level, a.in0, a.in1))
  }

  ghost predicate ClosedRunning(db: Db) {
    db.running.Some? ==> db.running.value.level + 1 < |db.levels| && OutputLevelClosed(db.levels, db.running.value)
  }

  /** It stays closed to the end, whatever is flushed meanwhile: what lands at the output level shares no user
      key with what is there. */
  lemma StepKeepsClosed(db: Db, a: Action)
    requires Inv(db) && Enabled(db, a) && ClosedStep(db, a) && ClosedRunning(db)
    ensures ClosedRunning(Apply(db, a))
  {
    hide LevelsInv, MemsInv, SequencesInv, TablesSorted, Separated, Kept, FileOk, Sorted, OutputsOk;
    match a
    case Flush(file, level) =>
      if db.running.Some? && level == db.running.value.level + 1 {
        assert RunningInv(db.levels, db.running.value) && FilesOk(db.levels) by { ShowFiles(db); }
        FlushKeepsClosed(db.levels, db.running.value, file);
      }
    case _ =>
  }

  lemma ShowFiles(db: Db)
    requires Inv(db)
    ensures FilesOk(db.levels) && |db.levels| == kNumLevels
    ensures db.running.Some? ==> RunningInv(db.levels, db.running.value)
  {}

  lemma FlushKeepsClosed(levels: Levels, c: Compaction, file: File)
    requires c.level + 1 < |levels| && c.in1 <= levels[c.level + 1] && OutputLevelClosed(levels, c)
    requires FileOk(file) && FilesOk(levels) && forall f :: f in levels[c.level + 1] ==> UserApart(file, f)
    ensures OutputLevelClosed(levels[c.level + 1 := levels[c.level + 1] + {file}], c)
  {
    UserBounds(file);
    forall f | f in c.in1 ensures UserApart(file, f) && f.smallest.user <= f.largest.user {
      assert f in levels[c.level + 1];
      UserBounds(f);
    }
  }

  lemma {:induction false} RunClosed(dbs: seq<Db>, actions: seq<Action>, i: nat)
    requires IsRun(dbs, actions) && i < |dbs|
    requires forall t :: 0 <= t < i ==> ClosedStep(dbs[t], actions[t])
    ensures ClosedRunning(dbs[i])
  {
    hide Inv, Enabled, Apply, ClosedStep, OutputLevelClosed;
    if i > 0 {
      RunClosed(dbs, actions, i - 1);
      RunInv(dbs, actions, i - 1);
      assert Enabled(dbs[i - 1], actions[i - 1]) && ClosedStep(dbs[i - 1], actions[i - 1]);
      StepKeepsClosed(dbs[i - 1], actions[i - 1]);
    }
  }

  /** Such a run never exposes anything, so its snapshots are isolated for as long as they are held. */
  lemma ClosedRunIsolates(dbs: seq<Db>, actions: seq<Action>, i: nat, j: nat)
    requires IsRun(dbs, actions) && Held(actions, i, j)
    requires forall t :: 0 <= t < j ==> ClosedStep(dbs[t], actions[t])
    ensures forall t :: i <= t <= j ==> SameReads(dbs[i], dbs[t], dbs[i].lastSequence)
  {
    hide Inv, Enabled, Apply, SameReads, ExposesAt, Others, ClosedStep, OutputLevelClosed;
    forall t: nat | i <= t < j ensures !Exposing(dbs[t], actions[t], dbs[i].lastSequence) {
      RunClosed(dbs, actions, t);
      RunInv(dbs, actions, t);
      if dbs[t].running.Some? {
        ClosedExposesNothing(dbs[t], dbs[t].running.value, dbs[i].lastSequence);
      }
    }
    SnapshotIsolationIff(dbs, actions, i, j);
  }
}
