/** The iterator over an index of blocks (table/two_level_iterator.cc). */
module TwoLevel {
  import opened Common
  import opened Separators
  import opened Table

  /** The iterator on a block, off its end at |blocks[block]|; or none. */
  datatype DataIter = NoIter | On(block: nat, pos: nat)

  /** Index key i is not below the entries up to block i, and below those after. Blocks may be empty. */
  ghost predicate Ranged(blocks: seq<seq<Entry>>, index: seq<IKey>) {
    && |index| == |blocks| && Increasing(Concat(blocks))
    && (forall i, j | 0 <= i < |blocks| && 0 <= j < |blocks[i]| :: !Below(index[i], blocks[i][j].key))
    && (forall i, j, b | 0 <= i < b < |blocks| && 0 <= j < |blocks[b]| :: Below(index[i], blocks[b][j].key))
  }

  class TwoLevelIterator {
    const blocks: seq<seq<Entry>>
    const index: seq<IKey>
    var indexAt: nat  // |blocks| when the index iterator is not valid
    var data: DataIter

    ghost predicate InRange()
      reads this
    {
      && indexAt <= |blocks| == |index|
      && (data.On? ==> data.block == indexAt < |blocks| && data.pos <= |blocks[data.block]|)
    }

    predicate DataValid()
      requires data.On? ==> data.block < |blocks|
      reads this
    {
      data.On? && data.pos < |blocks[data.block]|
    }

    /** Between operations there is an entry, or no block is open. */
    ghost predicate Valid()
      reads this
    {
      && InRange() && Ranged(blocks, index)
      && (data.NoIter? || DataValid())
    }

    ghost function All(): seq<Entry> {
      Concat(blocks)
    }

    /** Where the open position is in the concatenation; the end if no block is open. */
    ghost function At(): nat
      requires InRange()
      reads this
    {
      if data.On? then Offset(blocks, data.block) + data.pos else |All()|
    }

    constructor (blockList: seq<seq<Entry>>, keys: seq<IKey>)
      requires Ranged(blockList, keys)
      ensures Valid() && blocks == blockList && index == keys && At() == |All()|
    {
      blocks, index := blockList, keys;
      indexAt, data := |blockList|, NoIter;
    }

    /** Opens the index's block, unless it is open already. */
    method InitDataBlock()
      requires indexAt <= |blocks| == |index|
      requires data.On? && data.block == indexAt < |blocks| ==> data.pos <= |blocks[indexAt]|
      modifies `data
      ensures InRange() && (data.On? <==> indexAt < |blocks|)
    {
      if indexAt == |blocks| {
        data := NoIter;
      } else if data.On? && data.block == indexAt {
      } else {
        data := On(indexAt, |blocks[indexAt]|);
      }
    }

    /** The end of one block is the beginning of the next. */
    method SkipEmptyDataBlocksForward()
      requires InRange() && (data.NoIter? ==> indexAt == |blocks|)
      modifies `indexAt, `data
      ensures InRange() && At() == old(At()) && (data.NoIter? || DataValid())
    {
      hide Concat;
      while data.NoIter? || !DataValid()
        invariant InRange() && At() == old(At()) && (data.NoIter? ==> indexAt == |blocks|)
        decreases |blocks| - indexAt, data.On?
      {
        if indexAt == |blocks| {
          data := NoIter;
          return;
        }
        OneMoreBlock(blocks, indexAt);
        indexAt := indexAt + 1;
        InitDataBlock();
        if data.On? {
          data := data.(pos := 0);
        } else {
          WholeOffset(blocks);
        }
      }
    }

    /** An invalid position in a block now stands for just before the block. */
    method SkipEmptyDataBlocksBackward()
      requires InRange() && (data.NoIter? ==> indexAt == |blocks|)
      modifies `indexAt, `data
      ensures InRange() && (data.NoIter? || DataValid())
      ensures old(data.NoIter?) ==> data.NoIter?
      ensures old(data.On? && DataValid()) ==> At() == old(At())
      ensures old(data.On? && !DataValid()) ==>
        var before := Offset(blocks, old(data.block)); if before == 0 then data.NoIter? else At() == before - 1
    {
      hide Concat;
      ghost var start := if data.On? then Offset(blocks, data.block) else 0;
      NothingBefore(blocks);
      while data.NoIter? || !DataValid()
        invariant InRange() && (data.NoIter? ==> indexAt == |blocks|)
        invariant old(data.NoIter?) ==> data.NoIter?
        invariant old(data.On? && DataValid()) ==> data.On? && DataValid() && At() == old(At())
        invariant old(data.On? && !DataValid()) && data.On? && DataValid() ==> start > 0 && At() == start - 1
        invariant old(data.On? && !DataValid()) && data.On? && !DataValid() ==> Offset(blocks, data.block) == start
        invariant old(data.On? && !DataValid()) && data.NoIter? ==> start == 0
        decreases if data.On? && !DataValid() then 1 + indexAt else 0
      {
        if indexAt == |blocks| {
          data := NoIter;
          return;
        }
        if indexAt > 0 {
          OneMoreBlock(blocks, indexAt - 1);
        }
        indexAt := if indexAt == 0 then |blocks| else indexAt - 1;
        InitDataBlock();
        if data.On? {
          var size := |blocks[data.block]|;
          data := data.(pos := if size == 0 then 0 else size - 1);
        }
      }
    }

    method SeekToFirst()
      requires Valid()
      modifies this
      ensures Valid() && At() == 0
    {
      hide Concat, Ranged;
      indexAt := 0;
      InitDataBlock();
      if data.On? {
        data := data.(pos := 0);
      }
      NothingBefore(blocks);
      SkipEmptyDataBlocksForward();
    }

    method SeekToLast()
      requires Valid()
      modifies this
      ensures Valid() && At() == if |All()| == 0 then 0 else |All()| - 1
    {
      hide Concat, Ranged;
      indexAt := if |blocks| == 0 then 0 else |blocks| - 1;
      InitDataBlock();
      NothingBefore(blocks);
      WholeOffset(blocks);
      if data.On? {
        OneMoreBlock(blocks, indexAt);
        var size := |blocks[data.block]|;
        data := data.(pos := if size == 0 then 0 else size - 1);
      }
      SkipEmptyDataBlocksBackward();
    }

    method Next()
      requires Valid() && data.On?
      modifies this
      ensures Valid() && At() == old(At()) + 1
    {
      hide Concat, Ranged;
      data := data.(pos := data.pos + 1);
      SkipEmptyDataBlocksForward();
    }

    method Prev()
      requires Valid() && data.On?
      modifies this
      ensures Valid() && At() == if old(At()) == 0 then |All()| else old(At()) - 1
    {
      hide Concat, Ranged;
      data := data.(pos := if data.pos == 0 then |blocks[data.block]| else data.pos - 1);
      SkipEmptyDataBlocksBackward();
    }

    method Seek(target: IKey)
      requires Valid()
      modifies this
      ensures Valid() && At() == SeekIndex(All(), target)
    {
      hide Concat, Ranged, Below, SeekIndex;
      indexAt := 0;
      while indexAt < |index| && Below(index[indexAt], target)
        invariant data == old(data) && indexAt <= |index| && forall i | 0 <= i < indexAt :: Below(index[i], target)
      {
        indexAt := indexAt + 1;
      }
      InitDataBlock();
      if data.On? {
        data := data.(pos := SeekIndex(blocks[data.block], target));
        SeekLands(blocks, index, target, indexAt);
      } else {
        SeekEnds(blocks, index, target);
      }
      SkipEmptyDataBlocksForward();
    }

    /** On an entry exactly when the position is not the end. */
    lemma ValidIsInside()
      requires Valid()
      ensures data.On? <==> At() < |All()|
      ensures data.On? ==> blocks[data.block][data.pos] == All()[At()]
    {
      hide Concat, Ranged;
      if data.On? {
        EntryIsThere(blocks, data.block, data.pos);
      }
    }
  }

  lemma NothingBefore(blocks: seq<seq<Entry>>)
    ensures Offset(blocks, 0) == 0
  {}

  lemma UpToBlockBelow(blocks: seq<seq<Entry>>, index: seq<IKey>, target: IKey, b: nat, p: nat)
    requires Ranged(blocks, index) && b <= |blocks| && p < Offset(blocks, b) && p < |Concat(blocks)|
    requires forall i | 0 <= i < b :: Below(index[i], target)
    ensures Below(Concat(blocks)[p].key, target)
  {
    hide Concat, Below, Increasing;
    var c, i := Locate(blocks, p);
    if b <= c {
      OffsetsGrow(blocks, b, c);
    }
    BelowTotal(index[c], blocks[c][i].key);
    if index[c] != blocks[c][i].key {
      BelowTransitive(blocks[c][i].key, index[c], target);
    }
  }

  lemma SeekLands(blocks: seq<seq<Entry>>, index: seq<IKey>, target: IKey, b: nat)
    requires Ranged(blocks, index) && b < |blocks| && !Below(index[b], target)
    requires forall i | 0 <= i < b :: Below(index[i], target)
    ensures Offset(blocks, b) + SeekIndex(blocks[b], target) == SeekIndex(Concat(blocks), target)
  {
    hide Concat, Below, SeekIndex, Increasing;
    var all := Concat(blocks);
    var i := SeekIndex(blocks[b], target);
    var p := Offset(blocks, b) + i;
    OneMoreBlock(blocks, b);
    OffsetsGrow(blocks, b + 1, |blocks|);
    WholeOffset(blocks);
    if i > 0 {
      EntryIsThere(blocks, b, i - 1);
    } else if p > 0 {
      UpToBlockBelow(blocks, index, target, b, p - 1);
    }
    if i < |blocks[b]| {
      EntryIsThere(blocks, b, i);
    } else if p < |all| {
      AfterBlock(blocks, index, target, b, p);
    }
    IsSeekIndex(all, target, p);
  }

  lemma AfterBlock(blocks: seq<seq<Entry>>, index: seq<IKey>, target: IKey, b: nat, p: nat)
    requires Ranged(blocks, index) && b < |blocks| && !Below(index[b], target)
    requires Offset(blocks, b + 1) <= p < |Concat(blocks)|
    ensures !Below(Concat(blocks)[p].key, target)
  {
    hide Concat, Below, Increasing;
    var c, i := Locate(blocks, p);
    if c <= b {
      OneMoreBlock(blocks, c);
      OffsetsGrow(blocks, c + 1, b + 1);
    }
    var e := blocks[c][i].key;
    BelowTotal(e, target);
    if Below(e, target) {
      BelowTransitive(index[b], e, target);
    }
  }

  lemma SeekEnds(blocks: seq<seq<Entry>>, index: seq<IKey>, target: IKey)
    requires Ranged(blocks, index) && forall i | 0 <= i < |index| :: Below(index[i], target)
    ensures SeekIndex(Concat(blocks), target) == |Concat(blocks)|
  {
    hide Concat, Below, SeekIndex, Increasing;
    WholeOffset(blocks);
    if |Concat(blocks)| > 0 {
      UpToBlockBelow(blocks, index, target, |blocks|, |Concat(blocks)| - 1);
    }
    IsSeekIndex(Concat(blocks), target, |Concat(blocks)|);
  }

  /** Every finished table can be walked this way. */
  lemma TableIsRanged(blocks: seq<seq<Entry>>, index: seq<IndexEntry>)
    requires IsTable(blocks, index)
    ensures Ranged(blocks, IndexKeys(index))
  {
    hide Concat, Below, Increasing, Separates;
    forall i, j | 0 <= i < |blocks| && 0 <= j < |blocks[i]|
      ensures !Below(index[i].key, blocks[i][j].key)
    {
      IndexFacts(blocks, index, i);
      var last := |blocks[i]| - 1;
      if Below(index[i].key, blocks[i][j].key) && j < last {
        BlockIncreasing(blocks, i, j, last);
        BelowTransitive(index[i].key, blocks[i][j].key, blocks[i][last].key);
      }
    }
    forall i, j, b | 0 <= i < b < |blocks| && 0 <= j < |blocks[b]|
      ensures Below(index[i].key, blocks[b][j].key)
    {
      BelowLaterBlocks(blocks, index, i, b, j);
    }
  }

  lemma BelowLaterBlocks(blocks: seq<seq<Entry>>, index: seq<IndexEntry>, i: nat, b: nat, j: nat)
    requires IsTable(blocks, index) && i < b < |blocks| && j < |blocks[b]|
    ensures Below(index[i].key, blocks[b][j].key)
  {
    hide Concat, Below, Separates, Indexed;
    IndexFacts(blocks, index, i);
    EntryIsThere(blocks, i, |blocks[i]| - 1);
    EntryIsThere(blocks, i + 1, 0);
    EntryIsThere(blocks, b, j);
    OneMoreBlock(blocks, i);
    OneMoreBlock(blocks, i + 1);
    SeparatorIsBelow(Last(blocks[i]), index[i].key, blocks[i + 1][0].key);
    if (i + 1, 0) != (b, j) {
      OffsetsGrow(blocks, i + 1, b);
      if b > i + 1 {
        OffsetsGrow(blocks, i + 2, b);
      }
      BelowTransitive(index[i].key, blocks[i + 1][0].key, blocks[b][j].key);
    }
  }

  lemma SeparatorIsBelow(last: IKey, separator: IKey, first: IKey)
    requires Separates(last, separator, first) && Below(last, first)
    ensures Below(separator, first)
  {
    hide Less;
  }
}
