/** The merge loop of a compaction (DBImpl::DoCompactionWork) and the stateful
    base-level test it uses (Compaction::IsBaseLevelForKey). */
module CompactionWork {
  import opened Common
  import opened InternalKeys
  import opened Lsm
  import opened VersionSet

  /** Input i is dropped by rule (A): the entry just before it is of the same user key
      and already visible at the smallest snapshot. */
  predicate DroppedAsHidden(input: seq<Entry>, i: nat, smallest: nat)
    requires i < |input|
  {
    i > 0 && input[i - 1].user == input[i].user && input[i - 1].sn <= smallest
  }

  /** Looking back one entry finds every newer entry that hides this one. */
  lemma HiddenIsLocal(input: seq<Entry>, i: nat, smallest: nat)
    requires Sorted(input) && Unique(Elements(input)) && i < |input|
    ensures DroppedAsHidden(input, i, smallest) <==> Hidden(Elements(input), input[i], smallest)
  {
    var e := input[i];
    if DroppedAsHidden(input, i, smallest) {
      var n := input[i - 1];
      assert Less(n.IKey(), e.IKey()) && n in Elements(input) && e in Elements(input);
      assert n.sn > e.sn;
    }
    if Hidden(Elements(input), e, smallest) {
      var n :| n in Elements(input) && n.user == e.user && n.sn > e.sn && n.sn <= smallest;
      var j :| 0 <= j < |input| && input[j] == n;
      assert Less(n.IKey(), e.IKey());
      assert Less(input[i - 1].IKey(), input[i].IKey());
      assert j < i - 1 ==> Less(input[j].IKey(), input[i - 1].IKey());
    }
  }

  // ----- what must be kept -----

  /** Some reader at or after the smallest snapshot finds e to be the newest of its key among the inputs. */
  ghost predicate IsRead(M: set<Entry>, e: Entry, smallest: nat) {
    exists s :: s >= smallest && IsNewest(M, e.user, s, Some(e))
  }

  /** Some file two or more levels down has the key within its range. */
  ghost predicate MayLieDeeper(base: Levels, level: nat, k: UserKey) {
    exists l, f :: level + 2 <= l < |base| && f in base[l] && f.smallest.user <= k <= f.largest.user
  }

  /** The rules keep exactly what somebody still reads, less the deletions that every reader sees and that
      can hide nothing deeper. */
  lemma KeptIff(c: Compaction, e: Entry)
    requires Unique(c.Inputs())
    ensures e in Kept(c) <==>
      && e in c.Inputs() && IsRead(c.Inputs(), e, c.smallestSnapshot)
      && (e.kind == Deletion && e.sn <= c.smallestSnapshot ==> MayLieDeeper(c.base, c.level, e.user))
  {
    var M, smallest := c.Inputs(), c.smallestSnapshot;
    DeeperIff(c, e.user);
    hide IsBaseLevelForKey, MayLieDeeper;
    if e in M {
      if Hidden(M, e, smallest) {
        var n :| n in M && n.user == e.user && n.sn > e.sn && n.sn <= smallest;
        forall s: nat | s >= smallest ensures !IsNewest(M, e.user, s, Some(e)) {
          assert Sees(n, e.user, s);
        }
        assert !IsRead(M, e, smallest);
      } else {
        var s := if e.sn > smallest then e.sn else smallest;
        forall a | a in M && Sees(a, e.user, s) ensures a.sn <= e.sn {}
        assert IsNewest(M, e.user, s, Some(e));
        assert IsRead(M, e, smallest);
      }
    }
  }

  lemma DeeperIff(c: Compaction, k: UserKey)
    ensures IsBaseLevelForKey(c.base, c.level, k) <==> !MayLieDeeper(c.base, c.level, k)
  {
    forall l, f | c.level + 2 <= l < |c.base| && f in c.base[l]
      ensures Covers(f, k) <==> f.smallest.user <= k <= f.largest.user
    {}
    if !IsBaseLevelForKey(c.base, c.level, k) {
      var l, f :| c.level + 2 <= l < |c.base| && f in c.base[l] && Covers(f, k);
      assert f.smallest.user <= k <= f.largest.user;
    }
  }

  class CompactionState {
    const level: nat
    const files: seq<seq<File>>  // of input_version_
    const levelPtrs: array<nat>  // per level, how far IsBaseLevelForKey has advanced
    ghost var lastKey: Option<UserKey>

    constructor (level: nat, files: seq<seq<File>>)
      requires VersionOk(files) && level + 1 < kNumLevels
      ensures this.level == level && this.files == files && fresh(levelPtrs)
      ensures Valid() && lastKey.None?
    {
      this.level := level;
      this.files := files;
      this.lastKey := None;
      levelPtrs := new nat[kNumLevels](_ => 0);
    }

    ghost predicate Valid()
      reads this, levelPtrs
    {
      && VersionOk(files) && level + 1 < kNumLevels && levelPtrs.Length == kNumLevels
      && (forall l :: 0 <= l < kNumLevels ==> levelPtrs[l] <= |files[l]|)
      && (forall l, i :: level + 2 <= l < kNumLevels && 0 <= i < levelPtrs[l] ==> Passed(files[l][i]))
    }

    ghost predicate Passed(f: File)
      reads this
    {
      lastKey.Some? && f.largest.user < lastKey.value
    }

    /** Correct for keys asked in increasing order, although the pointers only move forward. */
    method IsBaseLevelForKey(k: UserKey) returns (base: bool)
      requires Valid() && (lastKey.Some? ==> lastKey.value <= k)
      modifies this`lastKey, levelPtrs
      ensures Valid() && lastKey == Some(k)
      ensures base <==> Lsm.IsBaseLevelForKey(LevelsOf(files), level, k)
    {
      lastKey := Some(k);
      var lvl := level + 2;
      while lvl < kNumLevels
        invariant level + 2 <= lvl
        invariant Valid() && lastKey == Some(k)
        invariant forall l, i :: level + 2 <= l < lvl && l < kNumLevels && 0 <= i < |files[l]| ==> !Covers(files[l][i], k)
      {
        while levelPtrs[lvl] < |files[lvl]|
          invariant Valid() && lastKey == Some(k)
          decreases |files[lvl]| - levelPtrs[lvl]
        {
          var f := files[lvl][levelPtrs[lvl]];
          if k <= f.largest.user {
            if k >= f.smallest.user {
              assert Covers(f, k) && f in LevelsOf(files)[lvl];
              return false;
            }
            break;
          }
          levelPtrs[lvl] := levelPtrs[lvl] + 1;
        }
        RestIsPast(lvl, k);
        lvl := lvl + 1;
      }
      forall l, f | level + 2 <= l < |LevelsOf(files)| && f in LevelsOf(files)[l] ensures !Covers(f, k) {
        var i :| 0 <= i < |files[l]| && files[l][i] == f;
      }
      base := true;
    }

    lemma RestIsPast(lvl: nat, k: UserKey)
      requires Valid() && lastKey == Some(k) && level + 2 <= lvl < kNumLevels
      requires levelPtrs[lvl] < |files[lvl]| ==> k < files[lvl][levelPtrs[lvl]].smallest.user
      ensures forall i :: 0 <= i < |files[lvl]| ==> !Covers(files[lvl][i], k)
    {
      forall i | 0 <= i < |files[lvl]| ensures !Covers(files[lvl][i], k) {
        var p := levelPtrs[lvl];
        if i < p {
          assert Passed(files[lvl][i]);
        } else {
          SortedOrder(files[lvl], p, i);
        }
      }
    }
  }

  /** What the loop has kept after i entries: those of the first i that the drop rules spare. */
  ghost predicate KeptSoFar(c: Compaction, input: seq<Entry>, i: nat, kept: seq<Entry>)
    requires i <= |input|
  {
    && Sorted(kept)
    && (forall e :: e in kept <==> e in input[..i] && e in Kept(c))
  }

  lemma NextKept(c: Compaction, input: seq<Entry>, i: nat, kept: seq<Entry>, drop: bool)
    requires Sorted(input) && i < |input| && KeptSoFar(c, input, i, kept)
    requires drop <==> input[i] !in Kept(c)
    ensures KeptSoFar(c, input, i + 1, if drop then kept else kept + [input[i]])
  {
    hide Kept;
    assert input[..i + 1] == input[..i] + [input[i]];
    if !drop {
      var kept' := kept + [input[i]];
      forall a, b | 0 <= a < b < |kept'| ensures Less(kept'[a].IKey(), kept'[b].IKey()) {
        assert kept'[a] in kept && kept'[a] in input[..i];
        var j :| 0 <= j < i && input[j] == kept'[a];
      }
    }
  }

  lemma ConcatAppend(tables: seq<seq<Entry>>, table: seq<Entry>)
    ensures Concat(tables + [table]) == Concat(tables) + table
  {
    assert (tables + [table])[..|tables|] == tables;
  }

  /** The drop decision for entry i, given the last sequence seen for its user key. */
  method ShouldDrop(state: CompactionState, ghost c: Compaction, input: seq<Entry>, i: nat, smallestSnapshot: nat,
                    lastSequenceForKey: nat) returns (drop: bool)
    requires state.Valid() && i < |input| && Sorted(input)
    requires c.level == state.level && c.base == LevelsOf(state.files) && c.smallestSnapshot == smallestSnapshot
    requires Elements(input) == c.Inputs() && Unique(c.Inputs()) && smallestSnapshot < kMaxSequenceNumber
    requires state.lastKey.Some? ==> i > 0 && state.lastKey.value <= input[i - 1].user
    requires lastSequenceForKey ==
      if i > 0 && input[i - 1].user == input[i].user then input[i - 1].sn else kMaxSequenceNumber
    modifies state`lastKey, state.levelPtrs
    ensures state.Valid() && (state.lastKey.Some? ==> state.lastKey.value <= input[i].user)
    ensures drop <==> input[i] !in Kept(c)
  {
    var e := input[i];
    assert i > 0 ==> Less(input[i - 1].IKey(), e.IKey());
    HiddenIsLocal(input, i, smallestSnapshot);
    drop := false;
    if lastSequenceForKey <= smallestSnapshot {
      drop := true;
    } else if e.kind == Deletion && e.sn <= smallestSnapshot {
      drop := state.IsBaseLevelForKey(e.user);
    }
    hide Sorted, Unique;
    DropMeansKept(c, input, i, drop);
  }

  /** Finished output tables, and the open one (no builder is an empty one). */
  datatype Outputs = Outputs(done: seq<seq<Entry>>, builder: seq<Entry>) {
    function Written(): seq<Entry> {
      Concat(done) + builder
    }

    predicate Ok() {
      forall o :: o in done ==> |o| > 0
    }

    function Finish(): (r: Outputs)
      requires Ok()
      ensures r.Ok() && r.builder == [] && r.Written() == Written()
    {
      ConcatAppend(done, builder);
      if |builder| > 0 then Outputs(done + [builder], []) else this
    }

    function Add(e: Entry): (r: Outputs)
      requires Ok()
      ensures r.Ok() && r.Written() == Written() + [e]
    {
      Outputs(done, builder + [e])
    }
  }

  // ----- where the outputs are cut -----

  /** Where to cut: before entry i if stopBefore[i], after it if it is kept and full[i]. */
  datatype Cuts = Cuts(stopBefore: seq<bool>, full: seq<bool>) {
    /** A cut is asked for after entry a or before an entry from there up to n. */
    predicate Between(a: nat, n: nat) {
      (a < |full| && full[a]) || exists j | a < j < n && j < |stopBefore| :: stopBefore[j]
    }
  }

  /** The table holds the entries at these places of the input, with no cut asked for between two of them. */
  ghost predicate TableAt(input: seq<Entry>, cuts: Cuts, table: seq<Entry>, at: seq<nat>) {
    && |table| == |at| && (forall p | 0 <= p < |at| :: at[p] < |input| && table[p] == input[at[p]])
    && (forall p | 0 < p < |at| :: at[p - 1] < at[p] && !cuts.Between(at[p - 1], at[p] + 1))
  }

  /** Each table with its places, and a cut asked for between the last of a table and the first of the next. */
  ghost predicate CutAsAsked(input: seq<Entry>, cuts: Cuts, tables: seq<seq<Entry>>, places: seq<seq<nat>>) {
    && |places| == |tables|
    && (forall t | 0 <= t < |places| :: |places[t]| > 0 && TableAt(input, cuts, tables[t], places[t]))
    && (forall t | 0 < t < |places| :: cuts.Between(places[t - 1][|places[t - 1]| - 1], places[t][0] + 1))
  }

  /** After i entries, with the cuts before the first n looked at. */
  ghost predicate CutSoFar(input: seq<Entry>, cuts: Cuts, i: nat, n: nat, out: Outputs, places: seq<seq<nat>>, at: seq<nat>) {
    && CutAsAsked(input, cuts, out.done, places) && TableAt(input, cuts, out.builder, at)
    && (|at| > 0 ==> at[|at| - 1] < i && !cuts.Between(at[|at| - 1], n))
    && (|places| > 0 ==>
          var last := places[|places| - 1];
          cuts.Between(last[|last| - 1], if |at| > 0 then at[0] + 1 else n))
  }

  function Closed(places: seq<seq<nat>>, at: seq<nat>): seq<seq<nat>> {
    if |at| > 0 then places + [at] else places
  }

  lemma CutCloses(input: seq<Entry>, cuts: Cuts, i: nat, n: nat, out: Outputs, places: seq<seq<nat>>, at: seq<nat>, n': nat)
    requires out.Ok() && CutSoFar(input, cuts, i, n, out, places, at) && n <= n'
    requires |at| > 0 ==> cuts.Between(at[|at| - 1], n')
    ensures CutSoFar(input, cuts, i, n', out.Finish(), Closed(places, at), [])
  {
    hide TableAt, CutAsAsked, Outputs.Written, Cuts.Between;
    NoTable(input, cuts);
    CutTables(input, cuts, i, n, out, places, at);
    PlacesAreThere(input, cuts, out.done, places);
    if |at| == 0 && |places| > 0 {
      var last := places[|places| - 1];
      BetweenGrows(cuts, last[|last| - 1], n, n');
    }
  }

  lemma BetweenGrows(cuts: Cuts, a: nat, n: nat, n': nat)
    requires cuts.Between(a, n) && n <= n'
    ensures cuts.Between(a, n')
  {}

  /** The finished tables with the open one, if there is one. */
  lemma CutTables(input: seq<Entry>, cuts: Cuts, i: nat, n: nat, out: Outputs, places: seq<seq<nat>>, at: seq<nat>)
    requires out.Ok() && CutSoFar(input, cuts, i, n, out, places, at)
    ensures out.Finish().builder == [] && CutAsAsked(input, cuts, out.Finish().done, Closed(places, at))
  {
    hide TableAt, CutAsAsked, Outputs.Written, Cuts.Between;
    BuilderAt(input, cuts, out.builder, at);
    PlacesAreThere(input, cuts, out.done, places);
    if |at| > 0 {
      OneMoreTable(input, cuts, out.done, places, out.builder, at);
    }
  }

  lemma OneMoreTable(input: seq<Entry>, cuts: Cuts, tables: seq<seq<Entry>>, places: seq<seq<nat>>,
                     table: seq<Entry>, at: seq<nat>)
    requires CutAsAsked(input, cuts, tables, places) && TableAt(input, cuts, table, at) && |at| > 0
    requires |places| > 0 ==> var last := places[|places| - 1]; |last| > 0 && cuts.Between(last[|last| - 1], at[0] + 1)
    ensures CutAsAsked(input, cuts, tables + [table], places + [at])
  {
    hide TableAt, Cuts.Between;
  }

  lemma NoTable(input: seq<Entry>, cuts: Cuts)
    ensures TableAt(input, cuts, [], [])
  {}

  lemma BuilderAt(input: seq<Entry>, cuts: Cuts, table: seq<Entry>, at: seq<nat>)
    requires TableAt(input, cuts, table, at)
    ensures |table| == |at|
  {}

  lemma CutPasses(input: seq<Entry>, cuts: Cuts, i: nat, out: Outputs, places: seq<seq<nat>>, at: seq<nat>)
    requires CutSoFar(input, cuts, i, i, out, places, at) && i < |cuts.stopBefore| && !cuts.stopBefore[i]
    ensures CutSoFar(input, cuts, i, i + 1, out, places, at)
  {
    hide TableAt;
  }

  lemma NothingCut(input: seq<Entry>, cuts: Cuts)
    ensures CutSoFar(input, cuts, 0, 0, Outputs([], []), [], [])
  {}

  lemma StopCuts(input: seq<Entry>, cuts: Cuts, i: nat, out: Outputs, places: seq<seq<nat>>, at: seq<nat>)
    requires out.Ok() && CutSoFar(input, cuts, i, i, out, places, at) && i < |cuts.stopBefore| && cuts.stopBefore[i]
    ensures CutSoFar(input, cuts, i, i + 1, out.Finish(), Closed(places, at), [])
  {
    hide TableAt;
    CutCloses(input, cuts, i, i, out, places, at, i + 1);
  }

  lemma CutDrops(input: seq<Entry>, cuts: Cuts, i: nat, out: Outputs, places: seq<seq<nat>>, at: seq<nat>)
    requires CutSoFar(input, cuts, i, i + 1, out, places, at)
    ensures CutSoFar(input, cuts, i + 1, i + 1, out, places, at)
  {
    hide TableAt, CutAsAsked;
  }

  /** An entry is added, and the table finished if it is full. */
  lemma CutAdds(input: seq<Entry>, cuts: Cuts, i: nat, out: Outputs, places: seq<seq<nat>>, at: seq<nat>)
    requires out.Ok() && CutSoFar(input, cuts, i, i + 1, out, places, at) && i < |input| == |cuts.full| == |cuts.stopBefore|
    ensures !cuts.full[i] ==> CutSoFar(input, cuts, i + 1, i + 1, out.Add(input[i]), places, at + [i])
    ensures cuts.full[i] ==> CutSoFar(input, cuts, i + 1, i + 1, out.Add(input[i]).Finish(), Closed(places, at + [i]), [])
  {
    hide TableAt, CutAsAsked, Outputs.Written;
    OneMorePlace(input, cuts, out.builder, at, i);
    NoTable(input, cuts);
    if cuts.full[i] {
      PlacesAreThere(input, cuts, out.done, places);
      OneMoreTable(input, cuts, out.done, places, out.builder + [input[i]], at + [i]);
    }
  }

  lemma PlacesAreThere(input: seq<Entry>, cuts: Cuts, tables: seq<seq<Entry>>, places: seq<seq<nat>>)
    requires CutAsAsked(input, cuts, tables, places)
    ensures |places| > 0 ==> |places[|places| - 1]| > 0
  {
    hide TableAt, Cuts.Between;
  }

  lemma OneMorePlace(input: seq<Entry>, cuts: Cuts, table: seq<Entry>, at: seq<nat>, i: nat)
    requires TableAt(input, cuts, table, at) && i < |input|
    requires |at| > 0 ==> at[|at| - 1] < i && !cuts.Between(at[|at| - 1], i + 1)
    ensures TableAt(input, cuts, table + [input[i]], at + [i]) && |table| == |at|
  {}

  /** DoCompactionWork: one pass over the merged inputs.  Where the outputs are cut is given, and they are cut there
      and nowhere else. */
  method DoCompactionWork(state: CompactionState, ghost c: Compaction, input: seq<Entry>, smallestSnapshot: nat,
                          stopBefore: seq<bool>, full: seq<bool>)
    returns (outputs: seq<seq<Entry>>, ghost places: seq<seq<nat>>)
    requires state.Valid() && state.lastKey.None?
    requires c.level == state.level && c.base == LevelsOf(state.files) && c.smallestSnapshot == smallestSnapshot
    requires Sorted(input) && Elements(input) == c.Inputs() && Unique(c.Inputs())
    requires smallestSnapshot < kMaxSequenceNumber && |stopBefore| == |full| == |input|
    modifies state, state.levelPtrs
    ensures Sorted(Concat(outputs)) && Elements(Concat(outputs)) == Kept(c)
    ensures forall e :: e in Concat(outputs) <==>
      && e in c.Inputs() && IsRead(c.Inputs(), e, smallestSnapshot)
      && (e.kind == Deletion && e.sn <= smallestSnapshot ==> MayLieDeeper(c.base, c.level, e.user))
    ensures forall o :: o in outputs ==> |o| > 0
    ensures CutAsAsked(input, Cuts(stopBefore, full), outputs, places)
  {
    hide CutSoFar, CutAsAsked, TableAt, Closed, Cuts.Between;
    hide Kept, IsRead, MayLieDeeper, Sorted, Unique, CompactionState.Valid, Elements, Outputs.Written, Outputs.Finish, Outputs.Add, LevelsOf;
    var out := Outputs([], []);
    var currentUserKey: Option<UserKey> := None;
    var lastSequenceForKey := kMaxSequenceNumber;
    assert out.Written() == [] && KeptSoFar(c, input, 0, []) by { NothingKept(c, input); }
    ghost var cuts := Cuts(stopBefore, full);
    ghost var at: seq<nat> := [];
    places := [];
    NothingCut(input, cuts);
    var i := 0;
    while i < |input|
      invariant i <= |input| && state.Valid()
      invariant CutSoFar(input, cuts, i, i, out, places, at)
      invariant KeptSoFar(c, input, i, out.Written()) && out.Ok()
      invariant i == 0 ==> currentUserKey.None?
      invariant i > 0 ==> currentUserKey == Some(input[i - 1].user) && lastSequenceForKey == input[i - 1].sn
      invariant state.lastKey.Some? ==> i > 0 && state.lastKey.value <= input[i - 1].user
    {
      hide KeptSoFar;
      var e := input[i];
      if stopBefore[i] {
        StopCuts(input, cuts, i, out, places, at);
        out := out.Finish();
        places, at := Closed(places, at), [];
      } else {
        CutPasses(input, cuts, i, out, places, at);
      }
      if currentUserKey.None? || e.user != currentUserKey.value {
        currentUserKey := Some(e.user);
        lastSequenceForKey := kMaxSequenceNumber;
      }
      var drop := ShouldDrop(state, c, input, i, smallestSnapshot, lastSequenceForKey);
      lastSequenceForKey := e.sn;
      NextKept(c, input, i, out.Written(), drop);
      if !drop {
        CutAdds(input, cuts, i, out, places, at);
        at := at + [i];
        out := out.Add(e);
        if full[i] {
          out := out.Finish();
          places, at := Closed(places, at), [];
        }
      } else {
        CutDrops(input, cuts, i, out, places, at);
      }
      i := i + 1;
    }
    AllKept(c, input, out.Written());
    CutTables(input, cuts, i, i, out, places, at);
    out := out.Finish();
    places := Closed(places, at);
    outputs := out.done;
    assert out.Written() == Concat(outputs) by { Finished(out); }
    AllNeeded(c, Concat(outputs));
  }

  lemma AllNeeded(c: Compaction, written: seq<Entry>)
    requires Elements(written) == Kept(c) && Unique(c.Inputs())
    ensures forall e :: e in written <==>
      && e in c.Inputs() && IsRead(c.Inputs(), e, c.smallestSnapshot)
      && (e.kind == Deletion && e.sn <= c.smallestSnapshot ==> MayLieDeeper(c.base, c.level, e.user))
  {
    hide Kept, IsRead, MayLieDeeper, Unique;
    forall e ensures e in written <==>
      && e in c.Inputs() && IsRead(c.Inputs(), e, c.smallestSnapshot)
      && (e.kind == Deletion && e.sn <= c.smallestSnapshot ==> MayLieDeeper(c.base, c.level, e.user))
    {
      KeptIff(c, e);
      assert e in written <==> e in Elements(written);
    }
  }

  lemma Finished(out: Outputs)
    requires out.builder == []
    ensures out.Written() == Concat(out.done)
  {}

  lemma NothingKept(c: Compaction, input: seq<Entry>)
    ensures KeptSoFar(c, input, 0, []) && Outputs([], []).Written() == []
  {}

  lemma AllKept(c: Compaction, input: seq<Entry>, kept: seq<Entry>)
    requires KeptSoFar(c, input, |input|, kept) && Elements(input) == c.Inputs()
    ensures Sorted(kept) && Elements(kept) == Kept(c)
  {
    assert input[..|input|] == input;
    forall e ensures e in Elements(kept) <==> e in Kept(c) {
      assert e in input <==> e in Elements(input);
    }
  }

  lemma DropMeansKept(c: Compaction, input: seq<Entry>, i: nat, drop: bool)
    requires i < |input| && Elements(input) == c.Inputs()
    requires drop <==> Hidden(c.Inputs(), input[i], c.smallestSnapshot) || Obsolete(c, input[i])
    ensures drop <==> input[i] !in Kept(c)
  {
    assert input[i] in Elements(input);
  }

  // ----- from tables to installed files -----

  function FileOf(number: nat, table: seq<Entry>): File
    requires |table| > 0
  {
    File(number, |table|, table[0].IKey(), table[|table| - 1].IKey(), table)
  }

  /** One file per table, with the numbers the tables were opened with. */
  ghost function FilesOf(outputs: seq<seq<Entry>>, numbers: seq<nat>): (files: set<File>)
    requires |numbers| == |outputs| && forall o :: o in outputs ==> |o| > 0
    ensures forall f :: f in files ==> f.number in numbers
  {
    var n := |outputs| - 1;
    if |outputs| == 0 then {} else FilesOf(outputs[..n], numbers[..n]) + {FileOf(numbers[n], outputs[n])}
  }

  lemma SortedParts(a: seq<Entry>, b: seq<Entry>)
    requires Sorted(a + b)
    ensures Sorted(a) && Sorted(b)
    ensures forall x, y :: x in a && y in b ==> Less(x.IKey(), y.IKey())
  {
    var c := a + b;
    forall i, j | 0 <= i < j < |b| ensures Less(b[i].IKey(), b[j].IKey()) {
      assert c[|a| + i] == b[i] && c[|a| + j] == b[j];
    }
    forall x, y | x in a && y in b ensures Less(x.IKey(), y.IKey()) {
      var i :| 0 <= i < |a| && a[i] == x;
      var j :| 0 <= j < |b| && b[j] == y;
      assert c[i] == x && c[|a| + j] == y;
    }
    forall i, j | 0 <= i < j < |a| ensures Less(a[i].IKey(), a[j].IKey()) {
      assert c[i] == a[i] && c[j] == a[j];
    }
  }

  lemma AddOutput(files: set<File>, S: set<Entry>, f: File)
    requires OutputsOk(files, S) && FileOk(f) && Sorted(f.entries)
    requires forall x, y :: x in S && y in f.entries ==> Less(x.IKey(), y.IKey())
    ensures OutputsOk(files + {f}, S + Elements(f.entries))
  {
    hide Sorted;
    forall g | g in files ensures Disjoint(g, f) {
      assert g.entries[|g.entries| - 1] in g.entries && g.entries[|g.entries| - 1] in FilesEntries(files);
      assert f.entries[0] in f.entries;
    }
    forall e ensures e in FilesEntries(files + {f}) <==> e in S + Elements(f.entries) {
      assert e in FilesEntries(files) <==> e in S;
    }
  }

  /** The tables the loop writes hold what it has kept, whatever numbers they got. */
  lemma {:induction false} OutputsAreInstallable(outputs: seq<seq<Entry>>, numbers: seq<nat>)
    requires Sorted(Concat(outputs)) && forall o :: o in outputs ==> |o| > 0
    requires |numbers| == |outputs| && forall i, j :: 0 <= i < j < |numbers| ==> numbers[i] < numbers[j]
    ensures OutputsOk(FilesOf(outputs, numbers), Elements(Concat(outputs)))
    ensures var files := FilesOf(outputs, numbers);
            forall f, g :: f in files && g in files && f.number == g.number ==> f == g
    decreases |outputs|
  {
    hide Sorted, OutputsOk, FileOk, Elements;
    if |outputs| == 0 {
      NoOutputs();
    } else {
      var n := |outputs| - 1;
      var front, last := Concat(outputs[..n]), outputs[n];
      assert Concat(outputs) == front + last;
      SortedParts(front, last);
      OutputsAreInstallable(outputs[..n], numbers[..n]);
      var f := FileOf(numbers[n], last);
      SortedFileOk(f);
      ElementsAppend(front, last);
      AddOutput(FilesOf(outputs[..n], numbers[..n]), Elements(front), f);
    }
  }

  /** What the loop writes is what the merge tree's Finish step installs, the numbers being the tables' own: files
      flushed meanwhile may have taken others in between. */
  lemma WorkIsAFinish(db: Db, outputs: seq<seq<Entry>>, numbers: seq<nat>, nextFile: nat)
    requires db.running.Some? && db.running.value.level + 1 < |db.levels|
    requires Sorted(Concat(outputs)) && Elements(Concat(outputs)) == Kept(db.running.value)
    requires |numbers| == |outputs| && forall o :: o in outputs ==> |o| > 0
    requires forall i, j :: 0 <= i < j < |numbers| ==> numbers[i] < numbers[j]
    requires db.nextFile <= nextFile && forall n :: n in numbers ==> n < nextFile
    requires forall l, g :: 0 <= l < |db.levels| && g in db.levels[l] ==> g.number !in numbers
    ensures Enabled(db, Finish(FilesOf(outputs, numbers), nextFile))
  {
    hide Sorted, OutputsOk, Elements, Kept, FilesOf;
    OutputsAreInstallable(outputs, numbers);
  }

  lemma NoOutputs()
    ensures OutputsOk({}, Elements([]))
  {}

  lemma ElementsAppend(a: seq<Entry>, b: seq<Entry>)
    ensures Elements(a + b) == Elements(a) + Elements(b)
    ensures forall x :: x in Elements(a) ==> x in a
  {}
}
