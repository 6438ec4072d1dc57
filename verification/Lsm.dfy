/** The log-structured merge tree as a state machine: writes, memtable rotation,
    memtable flush, trivial moves, compactions that start and finish in separate
    steps, and snapshots (db/db_impl.cc, db/version_set.cc, db/snapshot.h). */
module Lsm {
  import opened Common
  import opened InternalKeys

  // ----- files and levels -----

  /** FileMetaData together with the table's contents. */
  datatype File = File(number: nat, size: nat, smallest: InternalKey, largest: InternalKey, entries: seq<Entry>)

  ghost predicate FileOk(f: File) {
    && |f.entries| > 0
    && f.smallest == f.entries[0].IKey()
    && f.largest == f.entries[|f.entries| - 1].IKey()
    && forall e :: e in f.entries ==> AtMost(f.smallest, e.IKey()) && AtMost(e.IKey(), f.largest)
  }

  /** A non-empty sorted table with its end keys recorded is a good file. */
  lemma SortedFileOk(f: File)
    requires |f.entries| > 0 && Sorted(f.entries)
    requires f.smallest == f.entries[0].IKey() && f.largest == f.entries[|f.entries| - 1].IKey()
    ensures FileOk(f)
  {
    forall e | e in f.entries
      ensures AtMost(f.smallest, e.IKey()) && AtMost(e.IKey(), f.largest)
    {
      var i :| 0 <= i < |f.entries| && f.entries[i] == e;
      assert i > 0 ==> Less(f.entries[0].IKey(), f.entries[i].IKey());
      assert i < |f.entries| - 1 ==> Less(f.entries[i].IKey(), f.entries[|f.entries| - 1].IKey());
    }
  }

  type Levels = seq<set<File>>

  ghost function FilesEntries(files: set<File>): set<Entry> {
    set f, e | f in files && e in f.entries :: e
  }

  ghost function LevelEntries(levels: Levels): set<Entry> {
    set l, f, e | 0 <= l < |levels| && f in levels[l] && e in f.entries :: e
  }

  /** Wherever the two share a user key, every entry of A is newer than every one of B. */
  ghost predicate Above(A: set<Entry>, B: set<Entry>) {
    forall a, b :: a in A && b in B && a.user == b.user ==> a.sn > b.sn
  }

  ghost predicate Disjoint(f: File, g: File) {
    Less(f.largest, g.smallest) || Less(g.largest, f.smallest)
  }

  predicate UserApart(f: File, g: File) {
    f.largest.user < g.smallest.user || g.largest.user < f.smallest.user
  }

  predicate Covers(f: File, k: UserKey) {
    f.smallest.user <= k <= f.largest.user
  }

  ghost predicate FilesOk(levels: Levels) {
    forall l, f :: 0 <= l < |levels| && f in levels[l] ==> FileOk(f)
  }

  ghost predicate TablesSorted(levels: Levels) {
    forall l, f :: 0 <= l < |levels| && f in levels[l] ==> Sorted(f.entries)
  }

  ghost predicate LevelDisjoint(level: set<File>) {
    forall f, g :: f in level && g in level && f != g ==> Disjoint(f, g)
  }

  ghost predicate Level0Ordered(level: set<File>) {
    forall f, g :: f in level && g in level && f.number > g.number ==> Above(Elements(f.entries), Elements(g.entries))
  }

  ghost predicate NumbersDistinct(levels: Levels) {
    forall a, b, f, g ::
      0 <= a < |levels| && 0 <= b < |levels| && f in levels[a] && g in levels[b] && f.number == g.number ==> f == g
  }

  /** Data in shallower levels is newer. */
  ghost predicate NewerAbove(levels: Levels) {
    forall a, b, f, g :: 0 <= a < b < |levels| && f in levels[a] && g in levels[b]
      ==> Above(Elements(f.entries), Elements(g.entries))
  }

  ghost predicate LevelUnique(level: set<File>) {
    forall f, g, x, y ::
      f in level && g in level && x in f.entries && y in g.entries && x.user == y.user && x.sn == y.sn ==> x == y
  }

  ghost predicate LevelsInv(levels: Levels) {
    && |levels| == kNumLevels
    && FilesOk(levels)
    && (forall l :: 1 <= l < |levels| ==> LevelDisjoint(levels[l]))
    && Level0Ordered(levels[0])
    && NumbersDistinct(levels)
    && NewerAbove(levels)
    && (forall l :: 0 <= l < |levels| ==> LevelUnique(levels[l]))
  }

  // ----- compactions -----

  /** A running compaction; `base` is the version it was planned on (input_version_). */
  datatype Compaction = Compaction(level: nat, in0: set<File>, in1: set<File>, smallestSnapshot: nat, base: Levels) {
    ghost function Inputs(): set<Entry> {
      FilesEntries(in0 + in1)
    }
  }

  /** Compaction::IsBaseLevelForKey as a statement about the planned-on version. */
  ghost predicate IsBaseLevelForKey(base: Levels, level: nat, k: UserKey) {
    forall l, f :: level + 2 <= l < |base| && f in base[l] ==> !Covers(f, k)
  }

  /** Rule (A): some newer entry of the key is already visible at the smallest snapshot. */
  ghost predicate Hidden(M: set<Entry>, e: Entry, smallest: nat) {
    exists n :: n in M && n.user == e.user && n.sn > e.sn && n.sn <= smallest
  }

  /** The second drop rule: an obsolete deletion marker. */
  ghost predicate Obsolete(c: Compaction, e: Entry) {
    e.kind == Deletion && e.sn <= c.smallestSnapshot && IsBaseLevelForKey(c.base, c.level, e.user)
  }

  ghost function Kept(c: Compaction): set<Entry> {
    set e | e in c.Inputs() && !Hidden(c.Inputs(), e, c.smallestSnapshot) && !Obsolete(c, e)
  }

  /** What input selection guarantees (version_set.cc, SetupOtherInputs). */
  ghost predicate ValidInputs(levels: Levels, level: nat, in0: set<File>, in1: set<File>) {
    && level + 1 < |levels|
    && in0 != {} && in0 <= levels[level] && in1 <= levels[level + 1]
    && (level == 0 ==> forall f, g :: f in in0 && g in levels[0] - in0 ==> UserApart(f, g))
    && (level > 0 ==> forall f, g :: f in in0 && g in levels[level] - in0 && Less(f.largest, g.smallest)
                                     ==> f.largest.user != g.smallest.user)
    && (forall g :: g in levels[level + 1] ==> (g in in1 <==> OverlapsHull(in0, g)))
  }

  /** g's user-key range meets the range from the least to the greatest user key of the files. */
  ghost predicate OverlapsHull(files: set<File>, g: File) {
    (exists f :: f in files && f.smallest.user <= g.largest.user) &&
    (exists f :: f in files && g.smallest.user <= f.largest.user)
  }

  /** All of M lies before g, or all of it lies after. */
  ghost predicate Separated(M: set<Entry>, g: File) {
    (forall e :: e in M ==> Less(e.IKey(), g.smallest)) || (forall e :: e in M ==> Less(g.largest, e.IKey()))
  }

  // ----- the database -----

  datatype Db = Db(mem: set<Entry>, imm: Option<set<Entry>>, levels: Levels, lastSequence: nat,
                   snapshots: seq<nat>, nextFile: nat, running: Option<Compaction>) {
    ghost function ImmEntries(): set<Entry> {
      if imm.Some? then imm.value else {}
    }

    ghost function Entries(): set<Entry> {
      mem + ImmEntries() + LevelEntries(levels)
    }
  }

  ghost predicate MemsInv(db: Db) {
    && Unique(db.mem) && Unique(db.ImmEntries())
    && Above(db.mem, db.ImmEntries())
    && (forall l, f :: 0 <= l < |db.levels| && f in db.levels[l] ==>
          Above(db.mem, Elements(f.entries)) && Above(db.ImmEntries(), Elements(f.entries)))
  }

  ghost predicate SequencesInv(db: Db) {
    && db.lastSequence < kMaxSequenceNumber
    && (forall e :: e in db.mem ==> e.sn <= db.lastSequence)
    && (forall e :: e in db.ImmEntries() ==> e.sn <= db.lastSequence)
    && (forall l, f, e :: 0 <= l < |db.levels| && f in db.levels[l] && e in f.entries ==> e.sn <= db.lastSequence)
    && (forall i :: 0 <= i < |db.snapshots| ==> db.snapshots[i] <= db.lastSequence)
    && (forall i, j :: 0 <= i < j < |db.snapshots| ==> db.snapshots[i] <= db.snapshots[j])
  }

  ghost predicate FileNumbersInv(db: Db) {
    forall l, f :: 0 <= l < |db.levels| && f in db.levels[l] ==> f.number < db.nextFile
  }

  ghost predicate RunningInv(levels: Levels, c: Compaction) {
    && c.level + 1 < |levels|
    && c.in0 <= levels[c.level] && c.in1 <= levels[c.level + 1]
    && (forall f, g :: f in c.in0 && g in levels[c.level] - c.in0 ==> Above(Elements(g.entries), Elements(f.entries)))
    && (forall g :: g in levels[c.level + 1] - c.in1 ==> Separated(Kept(c), g))
    && (forall f, g :: f in c.in0 && g in levels[c.level + 1] - c.in1 ==> UserApart(f, g))
    && (forall e, l, g :: e in c.Inputs() && c.level + 2 <= l < |levels| && g in levels[l] && Covers(g, e.user)
          ==> !IsBaseLevelForKey(c.base, c.level, e.user))
  }

  ghost predicate Inv(db: Db) {
    && LevelsInv(db.levels)
    && TablesSorted(db.levels)
    && MemsInv(db)
    && SequencesInv(db)
    && FileNumbersInv(db)
    && (db.running.Some? ==>
          && RunningInv(db.levels, db.running.value)
          && db.running.value.smallestSnapshot <= SmallestSnapshot(db))
  }

  /** DoCompactionWork: the oldest live snapshot, or the last sequence when there is none. */
  function SmallestSnapshot(db: Db): nat {
    if |db.snapshots| == 0 then db.lastSequence else db.snapshots[0]
  }

  function Begun(db: Db, level: nat, in0: set<File>, in1: set<File>): Compaction {
    Compaction(level, in0, in1, SmallestSnapshot(db), db.levels)
  }

  // ----- steps -----

  datatype Op = Op(user: UserKey, kind: ValueType, value: Bytes)

  datatype Action =
    | Write(ops: seq<Op>)
    | Rotate
    | FlushEmpty
    | Flush(file: File, level: nat)
    | TrivialMove(level: nat, file: File)
    | Begin(level: nat, in0: set<File>, in1: set<File>)
    | Finish(outputs: set<File>, nextFile: nat)
    | TakeSnapshot
    | ReleaseSnapshot(i: nat)

  /** MemTableInserter: operation i of a batch at base sequence b gets sequence b + i. */
  function Stamp(ops: seq<Op>, first: nat): seq<Entry> {
    seq(|ops|, i requires 0 <= i < |ops| => Entry(ops[i].user, first + i, ops[i].kind, ops[i].value))
  }

  /** The outputs hold exactly the kept entries, cut into files at arbitrary places. */
  ghost predicate OutputsOk(outputs: set<File>, kept: set<Entry>) {
    && (forall f :: f in outputs ==> FileOk(f) && Sorted(f.entries))
    && LevelDisjoint(outputs)
    && FilesEntries(outputs) == kept
  }

  ghost predicate OutputsWithin(outputs: set<File>, M: set<Entry>) {
    && (forall f :: f in outputs ==> FileOk(f))
    && LevelDisjoint(outputs)
    && FilesEntries(outputs) <= M
  }

  /** None of the other files lies within the span of the outputs. */
  ghost predicate Clear(outputs: set<File>, others: set<File>) {
    forall g :: g in others ==> Separated(FilesEntries(outputs), g)
  }

  /** What the code sees to when the immutable memtable becomes a table: a number not yet given out, and a level
      above which, and at which, no table meets it. */
  ghost predicate MayFlush(db: Db, file: File, level: nat) {
    && db.imm.Some? && FileOk(file) && Sorted(file.entries) && Elements(file.entries) == db.imm.value
    && file.number >= db.nextFile && level <= kMaxMemCompactLevel && level < |db.levels|
    && (level > 0 ==> forall l, g :: 0 <= l <= level && g in db.levels[l] ==> UserApart(file, g))
  }

  function Flushed(db: Db, file: File, level: nat): Db
    requires level < |db.levels|
  {
    db.(imm := None, levels := db.levels[level := db.levels[level] + {file}], nextFile := file.number + 1)
  }

  ghost predicate Enabled(db: Db, a: Action) {
    match a
    case Write(ops) => db.lastSequence + |ops| < kMaxSequenceNumber
    case Rotate => db.imm.None?
    case FlushEmpty => db.imm == Some({})
    case Flush(file, level) =>
      && MayFlush(db, file, level)
      && (db.running.Some? && level == db.running.value.level + 1 ==> Separated(Kept(db.running.value), file))
    case TrivialMove(level, file) => db.running.None? && ValidInputs(db.levels, level, {file}, {})
    case Begin(level, in0, in1) => db.running.None? && ValidInputs(db.levels, level, in0, in1)
    case Finish(outputs, nextFile) =>
      && db.running.Some? && db.running.value.level + 1 < |db.levels| && OutputsOk(outputs, Kept(db.running.value))
      && nextFile >= db.nextFile
      && (forall f :: f in outputs ==> f.number < nextFile)
      && (forall f, g :: f in outputs && g in outputs && f.number == g.number ==> f == g)
      && (forall f, l, g :: f in outputs && 0 <= l < |db.levels| && g in db.levels[l] ==> f.number != g.number)
    case TakeSnapshot => true
    case ReleaseSnapshot(i) => i < |db.snapshots|
  }

  function Install(levels: Levels, level: nat, in0: set<File>, in1: set<File>, outputs: set<File>): Levels
    requires level + 1 < |levels|
  {
    levels[level := levels[level] - in0][level + 1 := (levels[level + 1] - in1) + outputs]
  }

  ghost function Apply(db: Db, a: Action): Db
    requires Enabled(db, a)
  {
    match a
    case Write(ops) =>
      db.(mem := db.mem + Elements(Stamp(ops, db.lastSequence + 1)), lastSequence := db.lastSequence + |ops|)
    case Rotate => db.(imm := Some(db.mem), mem := {})
    case FlushEmpty => db.(imm := None)
    case Flush(file, level) => Flushed(db, file, level)
    case TrivialMove(level, file) => db.(levels := Install(db.levels, level, {file}, {}, {file}))
    case Begin(level, in0, in1) => db.(running := Some(Begun(db, level, in0, in1)))
    case Finish(outputs, nextFile) =>
      var c := db.running.value;
      db.(running := None, levels := Install(db.levels, c.level, c.in0, c.in1, outputs), nextFile := nextFile)
    case TakeSnapshot => db.(snapshots := db.snapshots + [db.lastSequence])
    case ReleaseSnapshot(i) => db.(snapshots := db.snapshots[..i] + db.snapshots[i + 1..])
  }

  // ----- what the steps do -----

  /** A release takes the named occurrence out of the list, and the others keep their order; taking a snapshot
      adds the last sequence at the end; no other step touches the list. */
  lemma SnapshotsAfter(db: Db, a: Action)
    requires Enabled(db, a)
    ensures var was, now := db.snapshots, Apply(db, a).snapshots;
      match a
      case TakeSnapshot =>
        |now| == |was| + 1 && now[|was|] == db.lastSequence && forall p :: 0 <= p < |was| ==> now[p] == was[p]
      case ReleaseSnapshot(i) =>
        && i < |was| == |now| + 1 && multiset(now) == multiset(was) - multiset{was[i]}
        && forall p :: 0 <= p < |now| ==> now[p] == was[if p < i then p else p + 1]
      case _ => now == was
  {
    hide MayFlush, OutputsOk, ValidInputs, Kept, Separated, Install, Stamp, Begun;
    if a.ReleaseSnapshot? {
      OneOut(db.snapshots, a.i);
    }
  }

  lemma OneOut(s: seq<nat>, i: nat)
    requires i < |s|
    ensures multiset(s[..i] + s[i + 1..]) == multiset(s) - multiset{s[i]}
  {
    assert s == s[..i] + ([s[i]] + s[i + 1..]);
    assert multiset(s) == multiset(s[..i]) + multiset{s[i]} + multiset(s[i + 1..]);
  }

  /** A compaction is begun with the oldest sequence still to be read: that of a live snapshot,
      none being older, or the last sequence if there is none. */
  lemma BegunAtOldest(db: Db, level: nat, in0: set<File>, in1: set<File>)
    requires Inv(db) && Enabled(db, Begin(level, in0, in1))
    ensures Apply(db, Begin(level, in0, in1)).running.Some?
    ensures var c := Apply(db, Begin(level, in0, in1)).running.value;
      && c.level == level && c.in0 == in0 && c.in1 == in1 && c.base == db.levels
      && (db.snapshots == [] ==> c.smallestSnapshot == db.lastSequence)
      && (db.snapshots != [] ==>
            c.smallestSnapshot in db.snapshots && forall s :: s in db.snapshots ==> c.smallestSnapshot <= s)
  {
    hide LevelsInv, MemsInv, TablesSorted, RunningInv, ValidInputs;
    forall s | s in db.snapshots ensures SmallestSnapshot(db) <= s {
      var i :| 0 <= i < |db.snapshots| && db.snapshots[i] == s;
      assert i > 0 ==> db.snapshots[0] <= db.snapshots[i];
    }
  }

  /** e is operation i of a batch written when the last sequence was `last`. */
  predicate IsWritten(e: Entry, ops: seq<Op>, i: nat, last: nat)
    requires i < |ops|
  {
    e.user == ops[i].user && e.sn == last + 1 + i && e.kind == ops[i].kind && e.value == ops[i].value
  }

  ghost predicate HoldsWritten(mem: set<Entry>, ops: seq<Op>, i: nat, last: nat)
    requires i < |ops|
  {
    exists e :: e in mem && IsWritten(e, ops, i, last)
  }

  /** A write puts each operation of the batch in the memtable at a number of its own, in order, and nothing else. */
  lemma WrittenEntries(db: Db, ops: seq<Op>)
    requires Enabled(db, Write(ops))
    ensures Apply(db, Write(ops)).lastSequence == db.lastSequence + |ops|
    ensures var mem := Apply(db, Write(ops)).mem;
      && (forall e :: e in db.mem ==> e in mem)
      && (forall i :: 0 <= i < |ops| ==> HoldsWritten(mem, ops, i, db.lastSequence))
      && (forall e :: e in mem && e !in db.mem ==>
            exists i :: 0 <= i < |ops| && IsWritten(e, ops, i, db.lastSequence))
  {
    var stamped := Stamp(ops, db.lastSequence + 1);
    var mem := Apply(db, Write(ops)).mem;
    forall i | 0 <= i < |ops|
      ensures HoldsWritten(mem, ops, i, db.lastSequence)
    {
      assert IsWritten(stamped[i], ops, i, db.lastSequence);
      assert stamped[i] in Elements(stamped);
    }
    forall e | e in mem && e !in db.mem
      ensures exists i :: 0 <= i < |ops| && IsWritten(e, ops, i, db.lastSequence)
    {
      var i :| 0 <= i < |stamped| && stamped[i] == e;
      assert IsWritten(e, ops, i, db.lastSequence);
    }
  }

  // ----- every step keeps the invariant -----

  /** Planned inputs stay good enough to finish on. */
  lemma BeginEstablishes(levels: Levels, c: Compaction)
    requires LevelsInv(levels) && c.base == levels && ValidInputs(levels, c.level, c.in0, c.in1)
    ensures RunningInv(levels, c)
  {
    hide Above, NewerAbove, NumbersDistinct, LevelUnique, FileOk, OverlapsHull, UserApart, Separated;
    forall f, g | f in c.in0 && g in levels[c.level] - c.in0
      ensures Above(Elements(g.entries), Elements(f.entries))
    {
      UnpickedIsNewer(levels, c, f, g);
    }
    forall g | g in levels[c.level + 1] - c.in1
      ensures Separated(Kept(c), g)
    {
      UnpickedIsSeparated(levels, c, g);
      FewerSeparated(c.Inputs(), Kept(c), g);
    }
    forall f, g | f in c.in0 && g in levels[c.level + 1] - c.in1
      ensures UserApart(f, g)
    {
      UnpickedIsSeparated(levels, c, g);
    }
    forall e, l, g | e in c.Inputs() && c.level + 2 <= l < |levels| && g in levels[l] && Covers(g, e.user)
      ensures !IsBaseLevelForKey(c.base, c.level, e.user)
    {
    }
    assert c.level + 1 < |levels| && c.in0 <= levels[c.level] && c.in1 <= levels[c.level + 1];
  }

  lemma UserBounds(f: File)
    requires FileOk(f)
    ensures forall e :: e in f.entries ==> f.smallest.user <= e.user <= f.largest.user
    ensures f.entries[0] in f.entries && f.entries[|f.entries| - 1] in f.entries
    ensures f.smallest.user <= f.largest.user
  {
    assert f.entries[0] in f.entries && f.entries[|f.entries| - 1] in f.entries;
  }

  /** Boundary files are picked too, so what stays behind in the level is newer. */
  lemma UnpickedIsNewer(levels: Levels, c: Compaction, f: File, g: File)
    requires |levels| == kNumLevels && FilesOk(levels) && ValidInputs(levels, c.level, c.in0, c.in1)
    requires LevelUnique(levels[c.level]) && (c.level > 0 ==> LevelDisjoint(levels[c.level]))
    requires f in c.in0 && g in levels[c.level] - c.in0
    ensures Above(Elements(g.entries), Elements(f.entries))
  {
    assert f in levels[c.level] && g in levels[c.level];
    UserBounds(f);
    UserBounds(g);
    if c.level == 0 {
      assert UserApart(f, g);
    } else {
      assert LevelDisjoint(levels[c.level]) && LevelUnique(levels[c.level]);
      assert Disjoint(f, g);
      forall x, y | x in g.entries && y in f.entries && x.user == y.user
        ensures x.sn > y.sn
      {
        assert Less(x.IKey(), y.IKey());
      }
    }
  }

  lemma UnpickedIsSeparated(levels: Levels, c: Compaction, g: File)
    requires LevelsInv(levels) && ValidInputs(levels, c.level, c.in0, c.in1)
    requires g in levels[c.level + 1] - c.in1
    ensures Separated(c.Inputs(), g) && forall f :: f in c.in0 ==> UserApart(f, g)
  {
    hide NewerAbove, NumbersDistinct, Level0Ordered, LevelUnique, Separated;
    assert !OverlapsHull(c.in0, g);
    assert LevelDisjoint(levels[c.level + 1]);
    UserBounds(g);
    forall f | f in c.in0 ensures UserApart(f, g) {
      UserBounds(f);
    }
    forall f | f in c.in0 + c.in1
      ensures FileOk(f) && (f in c.in1 ==> OverlapsHull(c.in0, f) && Disjoint(f, g))
    {
      assert f in levels[c.level] || f in levels[c.level + 1];
    }
    SeparatedFromHull(c, g);
  }

  lemma FewerSeparated(M: set<Entry>, fewer: set<Entry>, g: File)
    requires Separated(M, g) && fewer <= M
    ensures Separated(fewer, g)
  {}

  lemma SeparatedFromHull(c: Compaction, g: File)
    requires FileOk(g) && !OverlapsHull(c.in0, g) && g.smallest.user <= g.largest.user
    requires forall f :: f in c.in0 + c.in1 ==> FileOk(f)
    requires forall f :: f in c.in1 ==> OverlapsHull(c.in0, f) && Disjoint(f, g)
    ensures Separated(c.Inputs(), g)
  {
    var before := forall f :: f in c.in0 ==> g.largest.user < f.smallest.user;
    assert !before ==> forall f :: f in c.in0 ==> f.largest.user < g.smallest.user;
    forall f | f in c.in0 + c.in1
      ensures if before then Less(g.largest, f.smallest) else Less(f.largest, g.smallest)
    {
      if f in c.in1 {
        UserBounds(f);
        assert OverlapsHull(c.in0, f);
      }
    }
    forall f, e | f in c.in0 + c.in1 && e in f.entries
      ensures if before then Less(g.largest, e.IKey()) else Less(e.IKey(), g.smallest)
    {
    }
  }

  lemma FinishKeepsLevels(levels: Levels, c: Compaction, outputs: set<File>)
    requires LevelsInv(levels) && RunningInv(levels, c) && OutputsWithin(outputs, c.Inputs())
    requires Clear(outputs, levels[c.level + 1] - c.in1)
    requires forall f, g :: f in outputs && g in outputs && f.number == g.number ==> f == g
    requires forall f, l, g :: f in outputs && 0 <= l < |levels| && g in levels[l] && f.number == g.number ==> f == g
    ensures LevelsInv(Install(levels, c.level, c.in0, c.in1, outputs))
  {
    hide NumbersDistinct, NewerAbove, LevelUnique, LevelDisjoint, FilesOk, Separated, Clear, Kept;
    var levels' := Install(levels, c.level, c.in0, c.in1, outputs);
    OutputLevelDisjoint(levels, c, outputs);
    OutputLevelUnique(levels, c, outputs);
    RemovalShrinks(levels[c.level], c.in0);
    FinishKeepsNewerAbove(levels, c, outputs);
    InstallKeepsFiles(levels, c.level, c.in0, c.in1, outputs);
    assert Level0Ordered(levels'[0]) by {
      assert levels'[0] <= levels[0];
    }
    forall l | 0 <= l < |levels'|
      ensures LevelUnique(levels'[l]) && (l > 0 ==> LevelDisjoint(levels'[l]))
    {
      assert LevelUnique(levels[l]) && (l > 0 ==> LevelDisjoint(levels[l]));
    }
  }

  lemma RemovalShrinks(level: set<File>, removed: set<File>)
    ensures LevelUnique(level) ==> LevelUnique(level - removed)
    ensures LevelDisjoint(level) ==> LevelDisjoint(level - removed)
    ensures Level0Ordered(level) ==> Level0Ordered(level - removed)
  {}

  lemma InstallKeepsFiles(levels: Levels, level: nat, in0: set<File>, in1: set<File>, outputs: set<File>)
    requires FilesOk(levels) && NumbersDistinct(levels) && level + 1 < |levels|
    requires forall f :: f in outputs ==> FileOk(f)
    requires forall f, g :: f in outputs && g in outputs && f.number == g.number ==> f == g
    requires forall f, l, g :: f in outputs && 0 <= l < |levels| && g in levels[l] && f.number == g.number ==> f == g
    ensures FilesOk(Install(levels, level, in0, in1, outputs))
    ensures NumbersDistinct(Install(levels, level, in0, in1, outputs))
  {}

  lemma OutputLevelDisjoint(levels: Levels, c: Compaction, outputs: set<File>)
    requires c.level + 1 < |levels| && LevelDisjoint(levels[c.level + 1]) && LevelDisjoint(outputs)
    requires forall f :: f in outputs ==> FileOk(f)
    requires Clear(outputs, levels[c.level + 1] - c.in1)
    ensures LevelDisjoint((levels[c.level + 1] - c.in1) + outputs)
  {
    forall f, g | f in outputs && g in levels[c.level + 1] - c.in1
      ensures Disjoint(f, g)
    {
      assert Separated(FilesEntries(outputs), g);
      var first, last := f.entries[0], f.entries[|f.entries| - 1];
      assert first in f.entries && last in f.entries;
      assert first in FilesEntries(outputs) && last in FilesEntries(outputs);
    }
    var level := (levels[c.level + 1] - c.in1) + outputs;
    forall f, g | f in level && g in level && f != g
      ensures Disjoint(f, g)
    {
      if f !in outputs && g in outputs {
        assert Disjoint(g, f);
      } else if f in outputs && g !in outputs {
        assert Disjoint(f, g);
      }
    }
  }

  lemma FinishKeepsNewerAbove(levels: Levels, c: Compaction, outputs: set<File>)
    requires |levels| == kNumLevels && NewerAbove(levels) && RunningInv(levels, c) && OutputsWithin(outputs, c.Inputs())
    ensures NewerAbove(Install(levels, c.level, c.in0, c.in1, outputs))
  {
    var levels' := Install(levels, c.level, c.in0, c.in1, outputs);
    forall a: nat, b: nat, f: File, g: File | 0 <= a < b < |levels'| && f in levels'[a] && g in levels'[b]
      ensures Above(Elements(f.entries), Elements(g.entries))
    {
      if b == c.level + 1 && g in outputs {
        AboveOutput(levels, c, outputs, a, f, g);
      } else if a == c.level + 1 && f in outputs {
        OutputAbove(levels, c, outputs, b, f, g);
      }
    }
  }

  /** Every output entry comes from one of the two input levels. */
  lemma OutputSource(c: Compaction, outputs: set<File>, f: File, e: Entry) returns (h: File)
    requires OutputsWithin(outputs, c.Inputs()) && f in outputs && e in f.entries
    ensures h in c.in0 + c.in1 && e in h.entries
  {
    assert e in FilesEntries(outputs);
    h :| h in c.in0 + c.in1 && e in h.entries;
  }

  lemma OutputLevelUnique(levels: Levels, c: Compaction, outputs: set<File>)
    requires NewerAbove(levels) && RunningInv(levels, c) && OutputsWithin(outputs, c.Inputs())
    requires LevelUnique(levels[c.level]) && LevelUnique(levels[c.level + 1])
    ensures LevelUnique((levels[c.level + 1] - c.in1) + outputs)
  {
    var level := (levels[c.level + 1] - c.in1) + outputs;
    forall f, g, x, y |
      f in level && g in level && x in f.entries && y in g.entries && x.user == y.user && x.sn == y.sn
      ensures x == y
    {
      var f', g' := f, g;
      if f in outputs {
        f' := OutputSource(c, outputs, f, x);
      }
      if g in outputs {
        g' := OutputSource(c, outputs, g, y);
      }
      assert f' in levels[c.level] || f' in levels[c.level + 1];
      assert g' in levels[c.level] || g' in levels[c.level + 1];
      assert x in Elements(f'.entries) && y in Elements(g'.entries);
    }
  }

  lemma AboveOutput(levels: Levels, c: Compaction, outputs: set<File>, a: nat, f: File, g: File)
    requires NewerAbove(levels) && RunningInv(levels, c) && OutputsWithin(outputs, c.Inputs())
    requires a <= c.level && f in levels[a] && (a == c.level ==> f !in c.in0) && g in outputs
    ensures Above(Elements(f.entries), Elements(g.entries))
  {
    forall x, y | x in f.entries && y in g.entries && x.user == y.user
      ensures x.sn > y.sn
    {
      var h := OutputSource(c, outputs, g, y);
      assert h in levels[c.level] || h in levels[c.level + 1];
      assert Above(Elements(f.entries), Elements(h.entries));
    }
  }

  lemma OutputAbove(levels: Levels, c: Compaction, outputs: set<File>, b: nat, f: File, g: File)
    requires NewerAbove(levels) && RunningInv(levels, c) && OutputsWithin(outputs, c.Inputs())
    requires c.level + 1 < b < |levels| && g in levels[b] && f in outputs
    ensures Above(Elements(f.entries), Elements(g.entries))
  {
    forall x, y | x in f.entries && y in g.entries && x.user == y.user
      ensures x.sn > y.sn
    {
      var h := OutputSource(c, outputs, f, x);
      assert h in levels[c.level] || h in levels[c.level + 1];
      assert Above(Elements(h.entries), Elements(g.entries));
    }
  }

  lemma AddNewestFile(level: set<File>, file: File)
    requires LevelUnique(level) && Unique(Elements(file.entries))
    requires forall g :: g in level ==> Above(Elements(file.entries), Elements(g.entries))
    ensures LevelUnique(level + {file})
  {
    var level' := level + {file};
    forall f, g, x, y |
      f in level' && g in level' && x in f.entries && y in g.entries && x.user == y.user && x.sn == y.sn
      ensures x == y
    {
      assert x in Elements(f.entries) && y in Elements(g.entries);
      assert f == file || f in level;
      assert g == file || g in level;
    }
  }

  lemma FlushKeepsNewerAbove(levels: Levels, file: File, level: nat)
    requires NewerAbove(levels) && FilesOk(levels) && FileOk(file) && level < |levels|
    requires forall l, g :: 0 <= l < |levels| && g in levels[l] ==> Above(Elements(file.entries), Elements(g.entries))
    requires forall l, g :: 0 <= l < level && g in levels[l] ==> UserApart(file, g)
    ensures NewerAbove(levels[level := levels[level] + {file}])
  {
    var levels' := levels[level := levels[level] + {file}];
    forall a: nat, b: nat, f: File, g: File | 0 <= a < b < |levels'| && f in levels'[a] && g in levels'[b]
      ensures Above(Elements(f.entries), Elements(g.entries))
    {
      if g == file && b == level {
        assert UserApart(file, f) && FileOk(f);
        UserBounds(f);
        UserBounds(file);
      } else if f == file && a == level {
        assert g in levels[b];
      }
    }
  }

  lemma FlushKeepsLevels(db: Db, file: File, level: nat)
    requires Inv(db) && MayFlush(db, file, level)
    ensures LevelsInv(db.levels[level := db.levels[level] + {file}])
  {
    hide SequencesInv, RunningInv, NewerAbove, FilesOk, LevelUnique, FileOk, Above, UserApart, Separated, NumbersDistinct, LevelDisjoint;
    var levels := db.levels;
    var levels' := levels[level := levels[level] + {file}];
    assert db.ImmEntries() == Elements(file.entries);
    FlushKeepsNewerAbove(levels, file, level);
    AddNewestFile(levels[level], file);
    assert FilesOk(levels') && NumbersDistinct(levels') by {
      AddFile(db.levels, file, level);
    }
    if level > 0 {
      AddApartFile(levels[level], file);
    }
    forall l | 0 <= l < |levels'|
      ensures LevelUnique(levels'[l]) && (l > 0 ==> LevelDisjoint(levels'[l]))
    {
      assert LevelUnique(levels[l]) && (l > 0 ==> LevelDisjoint(levels[l]));
    }
  }

  lemma AddApartFile(level: set<File>, file: File)
    requires LevelDisjoint(level) && forall g :: g in level ==> UserApart(file, g)
    ensures LevelDisjoint(level + {file})
  {}

  lemma AddFile(levels: Levels, file: File, level: nat)
    requires FilesOk(levels) && NumbersDistinct(levels) && FileOk(file) && level < |levels|
    requires forall l, f :: 0 <= l < |levels| && f in levels[l] ==> f.number < file.number
    ensures FilesOk(levels[level := levels[level] + {file}]) && NumbersDistinct(levels[level := levels[level] + {file}])
  {}

  lemma InputFileOk(levels: Levels, c: Compaction, h: File)
    requires FilesOk(levels) && RunningInv(levels, c) && h in c.in0 + c.in1
    ensures FileOk(h)
  {
    assert h in levels[c.level] || h in levels[c.level + 1];
  }

  /** A file flushed meanwhile is newer than everything, has the outputs on one side,
      and shares no key with the inputs when it lands below them. */
  lemma FlushKeepsRunning(levels: Levels, c: Compaction, file: File, level: nat)
    requires |levels| == kNumLevels && FilesOk(levels) && RunningInv(levels, c) && FileOk(file) && level < |levels|
    requires forall l, g :: 0 <= l < |levels| && g in levels[l] ==> Above(Elements(file.entries), Elements(g.entries))
    requires level > 0 ==> forall l, g :: 0 <= l <= level && g in levels[l] ==> UserApart(file, g)
    requires level == c.level + 1 ==> Separated(Kept(c), file)
    ensures RunningInv(levels[level := levels[level] + {file}], c)
  {
    hide FilesOk, Above, FileOk, LevelDisjoint, Separated, Kept;
    var levels' := levels[level := levels[level] + {file}];
    if level == c.level + 1 {
      forall f | f in c.in0 ensures UserApart(f, file) {
        assert f in levels[c.level] && UserApart(file, f);
      }
    }
    forall e, l, g | e in c.Inputs() && c.level + 2 <= l < |levels'| && g in levels'[l] && Covers(g, e.user)
      ensures !IsBaseLevelForKey(c.base, c.level, e.user)
    {
      if g == file && l == level {
        var h :| h in c.in0 + c.in1 && e in h.entries;
        assert (h in levels[c.level] || h in levels[c.level + 1]) && UserApart(file, h);
        InputFileOk(levels, c, h);
        UserBounds(h);
      }
    }
  }

  lemma WriteKeepsInv(db: Db, ops: seq<Op>)
    requires Inv(db) && Enabled(db, Write(ops))
    ensures Inv(Apply(db, Write(ops)))
  {
    hide LevelsInv, TablesSorted, RunningInv;
    var added := Stamp(ops, db.lastSequence + 1);
    forall e | e in Elements(added)
      ensures db.lastSequence < e.sn <= db.lastSequence + |ops|
    {
    }
  }

  lemma RotateKeepsInv(db: Db)
    requires Inv(db) && Enabled(db, Rotate)
    ensures Inv(Apply(db, Rotate))
  {
    hide LevelsInv, TablesSorted, RunningInv;
  }

  lemma FlushKeepsMems(db: Db, file: File, level: nat)
    requires MemsInv(db) && SequencesInv(db) && FileNumbersInv(db) && MayFlush(db, file, level)
    ensures var db' := Flushed(db, file, level); MemsInv(db') && SequencesInv(db') && FileNumbersInv(db')
  {
    hide FileOk, Sorted, UserApart, Separated;
    assert db.ImmEntries() == Elements(file.entries);
  }

  lemma FlushKeepsInv(db: Db, file: File, level: nat)
    requires Inv(db) && Enabled(db, Flush(file, level))
    ensures Inv(Apply(db, Flush(file, level)))
  {
    hide MemsInv, SequencesInv, FileNumbersInv, RunningInv, Sorted, FileOk, Separated, Kept;
    FlushKeepsLevels(db, file, level);
    FlushKeepsMems(db, file, level);
    if db.running.Some? {
      FlushAboveLevels(db, file, level);
      hide NewerAbove, LevelUnique, LevelDisjoint, Above, UserApart, NumbersDistinct, FilesOk, Level0Ordered;
      FlushKeepsRunning(db.levels, db.running.value, file, level);
    }
    hide LevelsInv;
  }

  lemma FlushAboveLevels(db: Db, file: File, level: nat)
    requires MemsInv(db) && MayFlush(db, file, level)
    ensures forall l, g :: 0 <= l < |db.levels| && g in db.levels[l] ==> Above(Elements(file.entries), Elements(g.entries))
  {
    assert db.ImmEntries() == Elements(file.entries);
  }

  lemma InstallKeepsMems(db: Db, c: Compaction, outputs: set<File>)
    requires MemsInv(db) && SequencesInv(db) && RunningInv(db.levels, c) && OutputsWithin(outputs, c.Inputs())
    ensures MemsInv(db.(levels := Install(db.levels, c.level, c.in0, c.in1, outputs)))
    ensures SequencesInv(db.(levels := Install(db.levels, c.level, c.in0, c.in1, outputs)))
  {
    hide Separated, Covers, FileOk, LevelDisjoint;
    forall f, e, m | f in outputs && e in f.entries && m in db.mem + db.ImmEntries()
      ensures e.sn <= db.lastSequence && (m.user == e.user ==> m.sn > e.sn)
    {
      InputIsOld(db, c, outputs, f, e);
    }
    forall f, e | f in outputs && e in f.entries ensures e.sn <= db.lastSequence {
      InputIsOld(db, c, outputs, f, e);
    }
  }

  lemma InputIsOld(db: Db, c: Compaction, outputs: set<File>, f: File, e: Entry)
    requires MemsInv(db) && SequencesInv(db) && RunningInv(db.levels, c) && OutputsWithin(outputs, c.Inputs())
    requires f in outputs && e in f.entries
    ensures e.sn <= db.lastSequence
    ensures forall m :: m in db.mem + db.ImmEntries() && m.user == e.user ==> m.sn > e.sn
  {
    var h := OutputSource(c, outputs, f, e);
    assert h in db.levels[c.level] || h in db.levels[c.level + 1];
    assert e in Elements(h.entries);
  }

  lemma InstallKeepsNumbers(levels: Levels, c: Compaction, outputs: set<File>, bound: nat, bound': nat)
    requires c.level + 1 < |levels| && TablesSorted(levels) && bound <= bound'
    requires forall l, f :: 0 <= l < |levels| && f in levels[l] ==> f.number < bound
    requires forall f :: f in outputs ==> Sorted(f.entries) && f.number < bound'
    ensures var levels' := Install(levels, c.level, c.in0, c.in1, outputs);
            TablesSorted(levels') && forall l, f :: 0 <= l < |levels'| && f in levels'[l] ==> f.number < bound'
  {
    hide Sorted;
  }

  lemma FinishKeepsInv(db: Db, outputs: set<File>, nextFile: nat)
    requires Inv(db) && Enabled(db, Finish(outputs, nextFile))
    ensures Inv(Apply(db, Finish(outputs, nextFile)))
  {
    hide LevelsInv, MemsInv, SequencesInv, Separated, Above, Sorted, FileOk, LevelDisjoint, TablesSorted;
    var c := db.running.value;
    KeptWithin(c, outputs);
    assert Clear(outputs, db.levels[c.level + 1] - c.in1);
    FinishInstalls(db, c, outputs, nextFile);
  }

  lemma KeptWithin(c: Compaction, outputs: set<File>)
    requires OutputsOk(outputs, Kept(c))
    ensures OutputsWithin(outputs, c.Inputs())
  {}

  /** Installing files cut from the inputs keeps the whole invariant. */
  lemma FinishInstalls(db: Db, c: Compaction, outputs: set<File>, nextFile: nat)
    requires Inv(db) && RunningInv(db.levels, c) && OutputsWithin(outputs, c.Inputs())
    requires nextFile >= db.nextFile
    requires forall f :: f in outputs ==> Sorted(f.entries) && f.number < nextFile
    requires forall f, g :: f in outputs && g in outputs && f.number == g.number ==> f == g
    requires forall f, l, g :: f in outputs && 0 <= l < |db.levels| && g in db.levels[l] && f.number == g.number ==> f == g
    requires c.level + 1 < |db.levels| && Clear(outputs, db.levels[c.level + 1] - c.in1)
    ensures Inv(db.(running := None, levels := Install(db.levels, c.level, c.in0, c.in1, outputs), nextFile := nextFile))
  {
    hide LevelsInv, MemsInv, SequencesInv, RunningInv, Sorted, TablesSorted, OutputsWithin, Clear;
    FinishKeepsLevels(db.levels, c, outputs);
    InstallKeepsMems(db, c, outputs);
    InstallKeepsNumbers(db.levels, c, outputs, db.nextFile, nextFile);
    var db1 := db.(levels := Install(db.levels, c.level, c.in0, c.in1, outputs));
    var db2 := db1.(running := None, nextFile := nextFile);
    assert MemsInv(db2) && SequencesInv(db2) by {
      SameParts(db1, db2);
    }
  }

  lemma SameParts(a: Db, b: Db)
    requires a.mem == b.mem && a.imm == b.imm && a.levels == b.levels
    requires a.lastSequence == b.lastSequence && a.snapshots == b.snapshots
    ensures MemsInv(a) <==> MemsInv(b)
    ensures SequencesInv(a) <==> SequencesInv(b)
  {}

  lemma MoveKeepsInv(db: Db, level: nat, file: File)
    requires Inv(db) && Enabled(db, TrivialMove(level, file))
    ensures Inv(Apply(db, TrivialMove(level, file)))
  {
    hide MemsInv, SequencesInv, RunningInv, Sorted, FileOk, Disjoint, NewerAbove, LevelUnique, OverlapsHull;
    var c := Compaction(level, {file}, {}, 0, db.levels);
    BeginEstablishes(db.levels, c);
    assert file in db.levels[level] && FileOk(file);
    forall g | g in db.levels[level + 1] ensures Separated(FilesEntries({file}), g) {
      UnpickedIsSeparated(db.levels, c, g);
      assert c.in0 + c.in1 == {file};
    }
    FinishInstalls(db, c, {file}, db.nextFile);
    hide LevelsInv, TablesSorted;
  }

  lemma BeginKeepsInv(db: Db, level: nat, in0: set<File>, in1: set<File>)
    requires Inv(db) && Enabled(db, Begin(level, in0, in1))
    ensures Inv(Apply(db, Begin(level, in0, in1)))
  {
    hide LevelsInv, TablesSorted, RunningInv, ValidInputs, MemsInv;
    var c := Begun(db, level, in0, in1);
    BeginEstablishes(db.levels, c);
    SameParts(db, db.(running := Some(c)));
  }

  lemma SnapshotsKeepInv(db: Db, a: Action)
    requires Inv(db) && Enabled(db, a) && (a.TakeSnapshot? || a.ReleaseSnapshot? || a.FlushEmpty?)
    ensures Inv(Apply(db, a))
  {
    hide LevelsInv, TablesSorted, RunningInv;
  }

  /** Every step of every run keeps the level-ordering invariant. */
  lemma StepKeepsInv(db: Db, a: Action)
    requires Inv(db) && Enabled(db, a)
    ensures Inv(Apply(db, a))
  {
    hide *;
    match a
    case Write(ops) => WriteKeepsInv(db, ops);
    case Rotate => RotateKeepsInv(db);
    case Flush(file, level) => FlushKeepsInv(db, file, level);
    case TrivialMove(level, file) => MoveKeepsInv(db, level, file);
    case Begin(level, in0, in1) => BeginKeepsInv(db, level, in0, in1);
    case Finish(outputs, nextFile) => FinishKeepsInv(db, outputs, nextFile);
    case FlushEmpty => SnapshotsKeepInv(db, a);
    case TakeSnapshot => SnapshotsKeepInv(db, a);
    case ReleaseSnapshot(i) => SnapshotsKeepInv(db, a);
  }
}
