/** A run, from the empty database, on which a finished compaction brings a deleted
    value back.  Input selection closes inputs_[0] under boundary files but not
    inputs_[1], and IsBaseLevelForKey looks only two levels down and deeper.
    All flushes go to level 2, as PickLevelForMemTableOutput decides on these versions.
    The oldest table is moved to level 3 whole; both compactions are of level 2 with a
    table of level 3 under it.  The first is cut into two output files between the two
    entries of key 2.0, which the snapshot at 2 keeps apart. */
module Resurrection {
  import opened Common
  import opened InternalKeys
  import opened Lsm
  import opened SnapshotReads

  const E0 := Entry(1.0, 1, Value, [])
  const E1 := Entry(2.0, 2, Value, [])
  const E2 := Entry(1.0, 3, Value, [])
  const E3 := Entry(2.0, 4, Deletion, [])
  const E4 := Entry(1.0, 5, Value, [])

  function Table(number: nat, entries: seq<Entry>): File
    requires |entries| > 0
  {
    File(number, 100, entries[0].IKey(), entries[|entries| - 1].IKey(), entries)
  }

  // numbers 2, 4 and 8 go to the logs that the rotations open
  function O(): File { Table(3, [E0]) }
  function F(): File { Table(5, [E2, E3, E1]) }
  function G(): File { Table(6, [E2, E0, E3]) }
  function H(): File { Table(7, [E1]) }
  function K(): File { Table(9, [E4]) }
  function L(): File { Table(10, [E4]) }

  function At(two: set<File>, three: set<File>): Levels {
    [{}, {}, two, three, {}, {}, {}]
  }

  function First(): Compaction { Compaction(2, {F()}, {O()}, 2, At({F()}, {O()})) }
  function Second(): Compaction { Compaction(2, {K()}, {G()}, 5, At({K()}, {G(), H()})) }

  function States(): seq<Db> {
    [ Db({}, None, At({}, {}), 0, [], 2, None),
      Db({E0}, None, At({}, {}), 1, [], 2, None),
      Db({}, Some({E0}), At({}, {}), 1, [], 2, None),
      Db({}, None, At({O()}, {}), 1, [], 4, None),
      Db({}, None, At({}, {O()}), 1, [], 4, None),
      Db({E1}, None, At({}, {O()}), 2, [], 4, None),
      Db({E1}, None, At({}, {O()}), 2, [2], 4, None),
      Db({E1, E2, E3}, None, At({}, {O()}), 4, [2], 4, None),
      Db({}, Some({E1, E2, E3}), At({}, {O()}), 4, [2], 4, None),
      Db({}, None, At({F()}, {O()}), 4, [2], 6, None),
      Db({}, None, At({F()}, {O()}), 4, [2], 6, Some(First())),
      Db({}, None, At({}, {G(), H()}), 4, [2], 8, None),
      Db({}, None, At({}, {G(), H()}), 4, [], 8, None),
      Db({E4}, None, At({}, {G(), H()}), 5, [], 8, None),
      Db({}, Some({E4}), At({}, {G(), H()}), 5, [], 8, None),
      Db({}, None, At({K()}, {G(), H()}), 5, [], 10, None),
      Db({}, None, At({K()}, {G(), H()}), 5, [], 10, Some(Second())),
      Db({}, None, At({}, {H(), L()}), 5, [], 11, None) ]
  }

  function Actions(): seq<Action> {
    [ Write([Op(1.0, Value, [])]),
      Rotate,
      Flush(O(), 2),
      TrivialMove(2, O()),
      Write([Op(2.0, Value, [])]),
      TakeSnapshot,
      Write([Op(1.0, Value, []), Op(2.0, Deletion, [])]),
      Rotate,
      Flush(F(), 2),
      Begin(2, {F()}, {O()}),
      Finish({G(), H()}, 8),
      ReleaseSnapshot(0),
      Write([Op(1.0, Value, [])]),
      Rotate,
      Flush(K(), 2),
      Begin(2, {K()}, {G()}),
      Finish({L()}, 11) ]
  }

  ghost predicate StepOk(i: nat)
    requires i < |Actions()| == |States()| - 1
  {
    Enabled(States()[i], Actions()[i]) && States()[i + 1] == Apply(States()[i], Actions()[i])
  }

  lemma StampOne(op: Op, n: nat)
    ensures Elements(Stamp([op], n)) == {Entry(op.user, n, op.kind, op.value)}
  {
    assert Stamp([op], n) == [Entry(op.user, n, op.kind, op.value)];
  }

  lemma SmallWrites()
    ensures StepOk(0) && StepOk(4) && StepOk(12)
  {
    StampOne(Op(1.0, Value, []), 1);
    StampOne(Op(2.0, Value, []), 2);
    StampOne(Op(1.0, Value, []), 5);
  }

  lemma Rotations()
    ensures StepOk(1) && StepOk(7) && StepOk(13)
  {}

  lemma Snapshots()
    ensures StepOk(5) && StepOk(11)
  {}

  lemma DeletingWrite()
    ensures StepOk(6)
  {
    var ops := [Op(1.0, Value, []), Op(2.0, Deletion, [])];
    assert Stamp(ops, 3) == [E2, E3];
    assert Elements([E2, E3]) == {E2, E3};
    assert {E1} + {E2, E3} == {E1, E2, E3};
  }

  lemma FirstFlush()
    ensures StepOk(2)
  {
    TablesHold();
    assert {} + {O()} == {O()};
    assert At({}, {})[2 := {O()}] == At({O()}, {});
  }

  lemma SecondFlush()
    ensures StepOk(8)
  {
    TablesHold();
    assert {} + {F()} == {F()};
    assert At({}, {O()})[2 := {F()}] == At({F()}, {O()});
  }

  lemma ThirdFlush()
    ensures StepOk(14)
  {
    TablesHold();
    assert {} + {K()} == {K()};
    assert At({}, {G(), H()})[2 := {K()}] == At({K()}, {G(), H()});
  }

  lemma Move()
    ensures StepOk(3)
  {
    assert {O()} - {O()} == {} && ({} - {}) + {O()} == {O()};
    assert Install(At({O()}, {}), 2, {O()}, {}, {O()}) == At({}, {O()});
  }

  lemma FirstBegin()
    ensures StepOk(9)
  {
    assert OverlapsHull({F()}, O());
  }

  lemma SecondBegin()
    ensures StepOk(15)
  {
    assert OverlapsHull({K()}, G());
    assert !OverlapsHull({K()}, H());
  }

  lemma OneFile(f: File)
    ensures FilesEntries({f}) == Elements(f.entries)
  {}

  lemma TwoFiles(f: File, g: File)
    ensures FilesEntries({f, g}) == Elements(f.entries) + Elements(g.entries)
  {}

  lemma TablesHold()
    ensures Elements(O().entries) == {E0}
    ensures Elements(F().entries) == {E1, E2, E3} && Elements(G().entries) == {E0, E2, E3}
    ensures Elements(H().entries) == {E1} && Elements(K().entries) == Elements(L().entries) == {E4}
  {}

  lemma EntriesAt(two: set<File>, three: set<File>)
    ensures LevelEntries(At(two, three)) == FilesEntries(two) + FilesEntries(three)
  {
    var levels := At(two, three);
    assert levels[2] == two && levels[3] == three;
  }

  lemma FirstKept()
    ensures Kept(First()) == {E0, E1, E2, E3}
  {
    var c := First();
    TablesHold();
    TwoFiles(F(), O());
    assert c.in0 + c.in1 == {F(), O()};
    assert c.Inputs() == {E0, E1, E2, E3};
    forall e | e in c.Inputs() ensures !Hidden(c.Inputs(), e, 2) && !Obsolete(c, e) {}
  }

  lemma FirstOutputs()
    ensures OutputsOk({G(), H()}, {E0, E1, E2, E3})
  {
    TablesHold();
    TwoFiles(G(), H());
    OutputsSorted();
    hide FileOk, Sorted, Disjoint, FilesEntries, Elements;
    assert {G(), H()} == {G()} + {H()};
  }

  lemma OutputsSorted()
    ensures FileOk(G()) && FileOk(H()) && Sorted(G().entries) && Sorted(H().entries)
    ensures Disjoint(G(), H()) && Disjoint(H(), G())
  {
    SortedFileOk(G());
    SortedFileOk(H());
  }

  lemma FirstInstall()
    ensures Install(At({F()}, {O()}), 2, {F()}, {O()}, {G(), H()}) == At({}, {G(), H()})
  {
    assert {F()} - {F()} == {};
    assert ({O()} - {O()}) + {G(), H()} == {G(), H()};
  }

  lemma FirstFinish()
    ensures StepOk(10)
  {
    FirstKept();
    FirstOutputs();
    FirstInstall();
    hide Kept, OutputsOk, Install, FileOk, Sorted;
  }

  lemma SecondKept()
    ensures Kept(Second()) == {E4}
  {
    var c := Second();
    TablesHold();
    TwoFiles(K(), G());
    assert c.in0 + c.in1 == {K(), G()};
    assert c.Inputs() == {E0, E2, E3, E4};
    assert Hidden(c.Inputs(), E0, 5) && Hidden(c.Inputs(), E2, 5) by { assert E4 in c.Inputs(); }
    assert Obsolete(c, E3) by {
      assert forall l :: 4 <= l < |c.base| ==> c.base[l] == {};
    }
    assert !Hidden(c.Inputs(), E4, 4) && !Obsolete(c, E4);
  }

  lemma SecondOutputs()
    ensures OutputsOk({L()}, {E4})
  {
    TablesHold();
    OneFile(L());
  }

  lemma SecondInstall()
    ensures Install(At({K()}, {G(), H()}), 2, {K()}, {G()}, {L()}) == At({}, {H(), L()})
  {
    assert {K()} - {K()} == {};
    assert ({G(), H()} - {G()}) + {L()} == {H(), L()};
  }

  lemma SecondFinish()
    ensures StepOk(16)
  {
    SecondKept();
    SecondOutputs();
    SecondInstall();
    hide Kept, OutputsOk, Install, FileOk, Sorted;
  }

  lemma IsARun()
    ensures IsRun(States(), Actions())
  {
    SmallWrites();
    Rotations();
    Snapshots();
    DeletingWrite();
    FirstFlush();
    SecondFlush();
    ThirdFlush();
    Move();
    FirstBegin();
    SecondBegin();
    FirstFinish();
    SecondFinish();
    hide Enabled, Apply, At, O, F, G, H, K, L, First, Second;
    assert Init().levels == At({}, {}) by { InitLevels(); }
    forall i | 0 <= i < 17
      ensures StepOk(i)
    {
    }
  }

  lemma InitLevels()
    ensures Init().levels == At({}, {})
  {}

  /** Key 2.0 is deleted at sequence 4 and reads as absent just before the second compaction
      installs its results, and as its old value just after.  No snapshot is live. */
  lemma DeletedValueReturns()
    ensures IsRun(States(), Actions()) && Actions()[16].Finish? && States()[16].snapshots == []
    ensures Read(States()[16], 2.0, States()[16].lastSequence) == None
    ensures Read(States()[17], 2.0, States()[17].lastSequence) == Some(E1.value)
  {
    IsARun();
    Before();
    After();
    hide Read;
  }

  lemma Before()
    ensures Read(States()[16], 2.0, 5) == None
  {
    hide IsNewest, LevelEntries, FilesEntries;
    TablesHold();
    EntriesAt({K()}, {G(), H()});
    OneFile(K());
    TwoFiles(G(), H());
    assert States()[16].Entries() == {E0, E1, E2, E3, E4};
    assert IsNewest({E0, E1, E2, E3, E4}, 2.0, 5, Some(E3)) by { NewestOfAll(); }
    NewestIsUnique({E0, E1, E2, E3, E4}, 2.0, 5, Some(E3));
  }

  lemma NewestOfAll()
    ensures IsNewest({E0, E1, E2, E3, E4}, 2.0, 5, Some(E3))
    ensures IsNewest({E1, E4}, 2.0, 5, Some(E1))
  {}

  lemma After()
    ensures Read(States()[17], 2.0, 5) == Some(E1.value)
  {
    hide IsNewest, LevelEntries, FilesEntries;
    TablesHold();
    EntriesAt({}, {H(), L()});
    TwoFiles(H(), L());
    assert FilesEntries({}) == {} by { NoFiles(); }
    assert States()[17].Entries() == {E1, E4};
    assert IsNewest({E1, E4}, 2.0, 5, Some(E1)) by { NewestOfAll(); }
    NewestIsUnique({E1, E4}, 2.0, 5, Some(E1));
  }

  lemma NoFiles()
    ensures FilesEntries({}) == {}
  {}
}
