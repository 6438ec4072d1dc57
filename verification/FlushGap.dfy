/** A memtable flush in the middle of a compaction: PickLevelForMemTableOutput checks the
    files that exist, not the files the compaction is about to write. */
module FlushGap {
  import opened Common
  import opened InternalKeys
  import opened Lsm
  import opened SnapshotReads

  lemma OneOutput(kept: set<Entry>, number: nat) returns (f: File)
    requires Unique(kept) && kept != {}
    ensures OutputsOk({f}, kept) && FileOk(f) && Elements(f.entries) == kept && f.number == number
  {
    var t := TableExists(kept);
    f := File(number, 0, t[0].IKey(), t[|t| - 1].IKey(), t);
    SortedFileOk(f);
    assert FilesEntries({f}) == Elements(t);
  }

  lemma BothSides(kept: set<Entry>, f: File, file: File)
    requires FileOk(f) && Elements(f.entries) == kept && AtMost(file.smallest, file.largest)
    requires forall e :: e in kept ==> Less(e.IKey(), file.smallest) || Less(file.largest, e.IKey())
    requires !Separated(kept, file)
    ensures !Disjoint(f, file)
  {
    var a :| a in kept && !Less(file.largest, a.IKey());
    var b :| b in kept && !Less(b.IKey(), file.smallest);
    assert a in f.entries && b in f.entries;
  }

  /** If the running compaction can finish with these outputs, its output level is disjoint then. */
  ghost predicate FinishesDisjoint(db: Db, outputs: set<File>, nextFile: nat) {
    Enabled(db, Finish(outputs, nextFile)) ==>
      var level, levels := db.running.value.level + 1, Apply(db, Finish(outputs, nextFile)).levels;
      level < |levels| && LevelDisjoint(levels[level])
  }

  ghost predicate StaysDisjoint(db: Db) {
    forall outputs, nextFile :: FinishesDisjoint(db, outputs, nextFile)
  }

  /** After any flush to the output level that the code's own checks allow, the running compaction keeps that level
      disjoint, whatever its outputs, exactly when the kept entries lie on one side of the flushed file. */
  lemma MidCompactionFlushIff(db: Db, file: File)
    requires Inv(db) && db.running.Some? && MayFlush(db, file, db.running.value.level + 1)
    ensures StaysDisjoint(Flushed(db, file, db.running.value.level + 1)) <==> Separated(Kept(db.running.value), file)
  {
    var level := db.running.value.level + 1;
    if Separated(Kept(db.running.value), file) {
      forall outputs, nextFile ensures FinishesDisjoint(Flushed(db, file, level), outputs, nextFile) {
        SeparatedIsHarmless(db, file, outputs, nextFile);
      }
    } else {
      var outputs, nextFile := StraddlingOutput(db, file);
      assert !FinishesDisjoint(Flushed(db, file, level), outputs, nextFile);
    }
  }

  lemma SeparatedIsHarmless(db: Db, file: File, outputs: set<File>, nextFile: nat)
    requires Inv(db) && db.running.Some? && MayFlush(db, file, db.running.value.level + 1)
    requires Separated(Kept(db.running.value), file)
    ensures FinishesDisjoint(Flushed(db, file, db.running.value.level + 1), outputs, nextFile)
  {
    hide Inv, LevelDisjoint, OutputsOk, Kept, Separated, Install;
    var level := db.running.value.level + 1;
    FlushKeepsInv(db, file, level);
    var flushed := Flushed(db, file, level);
    assert Apply(db, Flush(file, level)) == flushed;
    if Enabled(flushed, Finish(outputs, nextFile)) {
      FinishKeepsInv(flushed, outputs, nextFile);
      LevelIsDisjoint(Apply(flushed, Finish(outputs, nextFile)), level);
    }
  }

  lemma LevelIsDisjoint(db: Db, level: nat)
    requires Inv(db) && 0 < level < kNumLevels
    ensures level < |db.levels| && LevelDisjoint(db.levels[level])
  {}

  /** Every input file lies to one side of the flushed one, so every kept entry does. */
  lemma KeptBesideFile(db: Db, file: File)
    requires Inv(db) && db.running.Some? && MayFlush(db, file, db.running.value.level + 1)
    ensures forall e :: e in Kept(db.running.value) ==> Less(e.IKey(), file.smallest) || Less(file.largest, e.IKey())
  {
    hide MemsInv, SequencesInv, NewerAbove, LevelUnique, LevelDisjoint, NumbersDistinct, Level0Ordered, TablesSorted;
    var c := db.running.value;
    forall e | e in Kept(c) ensures Less(e.IKey(), file.smallest) || Less(file.largest, e.IKey()) {
      var h :| h in c.in0 + c.in1 && e in h.entries;
      assert h in db.levels[c.level] || h in db.levels[c.level + 1];
      assert UserApart(file, h) && FileOk(h);
      UserBounds(h);
    }
  }

  lemma KeptUnique(db: Db, c: Compaction)
    requires Inv(db) && db.running == Some(c)
    ensures Unique(Kept(c))
  {
    EntriesUnique(db);
    ShowRunning(db, c);
    hide Inv;
    forall e | e in Kept(c) ensures e in db.Entries() {
      InputInLevels(db, c, e);
    }
  }

  /** Everything that is kept, written out as one table. */
  lemma StraddlingOutput(db: Db, file: File) returns (outputs: set<File>, nextFile: nat)
    requires Inv(db) && db.running.Some? && MayFlush(db, file, db.running.value.level + 1)
    requires !Separated(Kept(db.running.value), file)
    ensures !FinishesDisjoint(Flushed(db, file, db.running.value.level + 1), outputs, nextFile)
  {
    hide Inv, OutputsOk, Kept, Separated, MayFlush, Disjoint, FileOk;
    var c := db.running.value;
    KeptUnique(db, c);
    FileSpan(db, file);
    var f := OneOutput(Kept(c), file.number + 1) by { assert Kept(c) != {} by { NothingSeparated(file); } }
    outputs, nextFile := {f}, file.number + 2;
    assert !Disjoint(f, file) by {
      KeptBesideFile(db, file);
      BothSides(Kept(c), f, file);
    }
    FreshNumber(db, file, f);
    OneMayFinish(Flushed(db, file, c.level + 1), f);
    FileStays(db, file, f);
  }

  lemma NothingSeparated(file: File)
    ensures Separated({}, file)
  {}

  lemma FileSpan(db: Db, file: File)
    requires db.running.Some? && MayFlush(db, file, db.running.value.level + 1)
    ensures db.running.value.level + 1 < |db.levels| && AtMost(file.smallest, file.largest)
  {
    assert file.entries[0] in file.entries;
  }

  lemma OneMayFinish(db: Db, f: File)
    requires db.running.Some? && db.running.value.level + 1 < |db.levels| && OutputsOk({f}, Kept(db.running.value))
    requires db.nextFile == f.number
    requires forall l, g :: 0 <= l < |db.levels| && g in db.levels[l] ==> g.number < f.number
    ensures Enabled(db, Finish({f}, f.number + 1))
  {
    hide OutputsOk, Kept;
  }

  lemma FreshNumber(db: Db, file: File, f: File)
    requires Inv(db) && db.running.Some? && MayFlush(db, file, db.running.value.level + 1)
    requires f.number == file.number + 1
    ensures var levels := Flushed(db, file, db.running.value.level + 1).levels;
      forall l, g :: 0 <= l < |levels| && g in levels[l] ==> g.number < f.number
  {
    hide LevelsInv, MemsInv, SequencesInv, RunningInv, TablesSorted;
  }

  lemma FileStays(db: Db, file: File, f: File)
    requires Inv(db) && db.running.Some? && MayFlush(db, file, db.running.value.level + 1)
    requires f.number == file.number + 1
    ensures var c := db.running.value; var levels := Flushed(db, file, c.level + 1).levels;
      && c.level + 1 < |levels| && f != file
      && f in Install(levels, c.level, c.in0, c.in1, {f})[c.level + 1]
      && file in Install(levels, c.level, c.in0, c.in1, {f})[c.level + 1]
  {
    hide LevelsInv, MemsInv, SequencesInv, TablesSorted;
    var c := db.running.value;
    assert c.in1 <= db.levels[c.level + 1];
  }

  // ----- a run on which it goes wrong -----

  ghost predicate Reachable(db: Db) {
    exists dbs, actions :: IsRun(dbs, actions) && dbs[|dbs| - 1] == db
  }

  lemma StartReachable()
    ensures Reachable(Init())
  {
    assert IsRun([Init()], []);
  }

  lemma StepReachable(db: Db, a: Action)
    requires Reachable(db) && Enabled(db, a)
    ensures Reachable(Apply(db, a))
  {
    hide Enabled, Apply;
    var dbs, actions :| IsRun(dbs, actions) && dbs[|dbs| - 1] == db;
    assert IsRun(dbs + [Apply(db, a)], actions + [a]);
  }

  function One(k: UserKey, sn: nat): Entry {
    Entry(k, sn, Value, [])
  }

  function Single(number: nat, e: Entry): File {
    File(number, 100, e.IKey(), e.IKey(), [e])
  }

  /** One key is written and its memtable made immutable. */
  lemma Fill(levels: Levels, sn: nat, nextFile: nat, running: Option<Compaction>, k: UserKey)
    requires Reachable(Db({}, None, levels, sn, [], nextFile, running)) && sn + 1 < kMaxSequenceNumber
    ensures Reachable(Db({}, Some({One(k, sn + 1)}), levels, sn + 1, [], nextFile, running))
  {
    hide Reachable;
    var db, write := Db({}, None, levels, sn, [], nextFile, running), Write([Op(k, Value, [])]);
    assert Stamp([Op(k, Value, [])], sn + 1) == [One(k, sn + 1)];
    assert {} + Elements([One(k, sn + 1)]) == {One(k, sn + 1)};
    StepReachable(db, write);
    StepReachable(Apply(db, write), Rotate);
  }

  /** And flushed. */
  lemma Land(levels: Levels, sn: nat, nextFile: nat, k: UserKey, file: File, level: nat, levels': Levels)
    requires Reachable(Db({}, None, levels, sn, [], nextFile, None)) && sn + 1 < kMaxSequenceNumber
    requires 0 < level <= kMaxMemCompactLevel && level < |levels|
    requires file == Single(nextFile + 1, One(k, sn + 1))
    requires forall l, g :: 0 <= l <= level && g in levels[l] ==> UserApart(file, g)
    requires levels' == levels[level := levels[level] + {file}]
    ensures Reachable(Db({}, None, levels', sn + 1, [], nextFile + 2, None))
  {
    hide Reachable;
    Fill(levels, sn, nextFile, None, k);
    var db := Db({}, Some({One(k, sn + 1)}), levels, sn + 1, [], nextFile, None);
    assert Elements([One(k, sn + 1)]) == {One(k, sn + 1)};
    assert MayFlush(db, file, level);
    StepReachable(db, Flush(file, level));
  }

  // each flush's file takes the number after the one its rotation gave to a new log
  function P1(): File { Single(3, One(1.0, 1)) }
  function P9(): File { Single(5, One(9.0, 2)) }
  function Q1(): File { Single(7, One(1.0, 3)) }
  function Q9(): File { Single(9, One(9.0, 4)) }
  function M5(): File { Single(11, One(5.0, 5)) }
  function R(): File { File(12, 200, One(1.0, 3).IKey(), One(9.0, 4).IKey(), [One(1.0, 3), One(9.0, 4)]) }

  function At(one: set<File>, two: set<File>): Levels {
    [{}, one, two, {}, {}, {}, {}]
  }

  function Both(): Compaction { Compaction(1, {Q1(), Q9()}, {P1(), P9()}, 4, At({Q1(), Q9()}, {P1(), P9()})) }

  /** The state in which the memtable holding 5.0 is flushed: level 1 is being merged into level 2. */
  function Merging(): Db {
    Db({}, Some({One(5.0, 5)}), At({Q1(), Q9()}, {P1(), P9()}), 5, [], 10, Some(Both()))
  }

  lemma MergingReachable()
    ensures Reachable(Merging())
  {
    hide Reachable;
    StartReachable();
    assert Init().levels == At({}, {});
    assert {} + {P1()} == {P1()} && {} + {Q1()} == {Q1()};
    Land(At({}, {}), 0, 2, 1.0, P1(), 2, At({}, {P1()}));
    assert {P1()} + {P9()} == {P1(), P9()} && {Q1()} + {Q9()} == {Q1(), Q9()};
    Land(At({}, {P1()}), 1, 4, 9.0, P9(), 2, At({}, {P1(), P9()}));
    Land(At({}, {P1(), P9()}), 2, 6, 1.0, Q1(), 1, At({Q1()}, {P1(), P9()}));
    Land(At({Q1()}, {P1(), P9()}), 3, 8, 9.0, Q9(), 1, At({Q1(), Q9()}, {P1(), P9()}));
    BeginBoth();
    Fill(At({Q1(), Q9()}, {P1(), P9()}), 4, 10, Some(Both()), 5.0);
  }

  lemma BeginBoth()
    requires Reachable(Db({}, None, At({Q1(), Q9()}, {P1(), P9()}), 4, [], 10, None))
    ensures Reachable(Db({}, None, At({Q1(), Q9()}, {P1(), P9()}), 4, [], 10, Some(Both())))
  {
    hide Reachable;
    var db := Db({}, None, At({Q1(), Q9()}, {P1(), P9()}), 4, [], 10, None);
    assert Q1() in {Q1(), Q9()} && Q9() in {Q1(), Q9()};
    assert OverlapsHull({Q1(), Q9()}, P1()) && OverlapsHull({Q1(), Q9()}, P9());
    StepReachable(db, Begin(1, {Q1(), Q9()}, {P1(), P9()}));
  }

  lemma BothKept()
    ensures Kept(Both()) == {One(1.0, 3), One(9.0, 4)}
  {
    var c := Both();
    assert c.in0 + c.in1 == {Q1(), Q9(), P1(), P9()};
    assert One(1.0, 3) in Q1().entries && One(9.0, 4) in Q9().entries;
    assert One(1.0, 1) in P1().entries && One(9.0, 2) in P9().entries;
    assert c.Inputs() == {One(1.0, 1), One(9.0, 2), One(1.0, 3), One(9.0, 4)};
    assert Hidden(c.Inputs(), One(1.0, 1), 4) by { assert One(1.0, 3) in c.Inputs(); }
    assert Hidden(c.Inputs(), One(9.0, 2), 4) by { assert One(9.0, 4) in c.Inputs(); }
    assert !Hidden(c.Inputs(), One(1.0, 3), 4) && !Hidden(c.Inputs(), One(9.0, 4), 4);
  }

  /** On this run the flush goes to level 2, which no file there prevents, and the compaction then installs one
      table around it. */
  lemma FlushIntoTheGap()
    ensures Reachable(Merging()) && MayFlush(Merging(), M5(), 2)
    ensures var flushed := Flushed(Merging(), M5(), 2);
      && Enabled(flushed, Finish({R()}, 13))
      && M5() in Apply(flushed, Finish({R()}, 13)).levels[2] && R() in Apply(flushed, Finish({R()}, 13)).levels[2]
      && !LevelDisjoint(Apply(flushed, Finish({R()}, 13)).levels[2])
  {
    MergingReachable();
    GapFlush();
    GapFinish();
    hide Reachable, Enabled, MayFlush;
    assert !Disjoint(M5(), R());
  }

  lemma GapFlush()
    ensures MayFlush(Merging(), M5(), 2)
  {
    assert Elements([One(5.0, 5)]) == {One(5.0, 5)};
  }

  lemma RIsOutput()
    ensures OutputsOk({R()}, {One(1.0, 3), One(9.0, 4)})
  {
    assert R().entries[0] in R().entries && R().entries[1] in R().entries;
    assert FilesEntries({R()}) == {One(1.0, 3), One(9.0, 4)};
    SortedFileOk(R());
  }

  lemma GapFinish()
    ensures Enabled(Flushed(Merging(), M5(), 2), Finish({R()}, 13))
  {
    hide Kept, OutputsOk, FileOk, Sorted;
    BothKept();
    RIsOutput();
  }
}
