/** A table as blocks and an index: building it, getting one key, and walking it
    (table/table_builder.cc, table/table.cc, table/two_level_iterator.cc). */
module Table {
  import opened Coding
  import opened Common
  import opened Separators
  import FilterBlock
  import Bloom

  datatype Entry = Entry(key: IKey, value: Bytes)

  /** A block's handle is its number in the file. */
  datatype IndexEntry = IndexEntry(key: IKey, handle: nat)

  ghost predicate Increasing(es: seq<Entry>) {
    forall i, j | 0 <= i < j < |es| :: Below(es[i].key, es[j].key)
  }

  /** Where block b begins in the concatenation. */
  function Offset(blocks: seq<seq<Entry>>, b: nat): nat
    requires b <= |blocks|
  {
    |Concat(blocks[..b])|
  }

  lemma OneMoreBlock(blocks: seq<seq<Entry>>, b: nat)
    requires b < |blocks|
    ensures Concat(blocks[..b + 1]) == Concat(blocks[..b]) + blocks[b]
    ensures Offset(blocks, b + 1) == Offset(blocks, b) + |blocks[b]|
  {
    assert blocks[..b + 1][..b] == blocks[..b];
  }

  lemma {:induction false} BlockIsThere(blocks: seq<seq<Entry>>, b: nat, n: nat)
    requires b < n <= |blocks|
    ensures Offset(blocks, b) + |blocks[b]| <= Offset(blocks, n)
    ensures Concat(blocks[..n])[Offset(blocks, b)..Offset(blocks, b) + |blocks[b]|] == blocks[b]
    decreases n
  {
    hide Concat;
    OneMoreBlock(blocks, n - 1);
    if b < n - 1 {
      BlockIsThere(blocks, b, n - 1);
      assert Concat(blocks[..n])[Offset(blocks, b)..Offset(blocks, b) + |blocks[b]|]
        == Concat(blocks[..n - 1])[Offset(blocks, b)..Offset(blocks, b) + |blocks[b]|];
    }
  }

  lemma EntryIsThere(blocks: seq<seq<Entry>>, b: nat, i: nat)
    requires b < |blocks| && i < |blocks[b]|
    ensures Offset(blocks, b) + i < |Concat(blocks)| && Concat(blocks)[Offset(blocks, b) + i] == blocks[b][i]
  {
    hide Concat;
    BlockIsThere(blocks, b, |blocks|);
    assert blocks[..|blocks|] == blocks;
    var part := Concat(blocks)[Offset(blocks, b)..Offset(blocks, b) + |blocks[b]|];
    assert part[i] == Concat(blocks)[Offset(blocks, b) + i];
  }

  lemma {:induction false} Locate(blocks: seq<seq<Entry>>, p: nat) returns (b: nat, i: nat)
    requires p < |Concat(blocks)|
    ensures b < |blocks| && i < |blocks[b]| && p == Offset(blocks, b) + i && Concat(blocks)[p] == blocks[b][i]
    decreases |blocks|
  {
    var init := blocks[..|blocks| - 1];
    if p < |Concat(init)| {
      b, i := Locate(init, p);
      assert init[..b] == blocks[..b];
    } else {
      b, i := |blocks| - 1, p - |Concat(init)|;
    }
  }

  // ----- building -----

  function Last(block: seq<Entry>): IKey
    requires |block| > 0
  {
    block[|block| - 1].key
  }

  /** Index key i is not below its block, and unless it is the block's last key its user key is strictly
      between the block's last and the next block's first. */
  ghost predicate IndexedAt(blocks: seq<seq<Entry>>, index: seq<IndexEntry>, i: nat, next: Option<IKey>)
    requires i < |blocks| && i < |index|
  {
    && |blocks[i]| > 0 && index[i].handle == i
    && !Below(index[i].key, Last(blocks[i]))
    && (next.Some? ==> Separates(Last(blocks[i]), index[i].key, next.value))
  }

  /** The first key of the block after block i, tail coming after the last. */
  function NextKey(blocks: seq<seq<Entry>>, tail: seq<Entry>, i: nat): Option<IKey>
    requires i < |blocks|
  {
    if i + 1 < |blocks| then if |blocks[i + 1]| > 0 then Some(blocks[i + 1][0].key) else None
    else if |tail| > 0 then Some(tail[0].key)
    else None
  }

  ghost predicate Indexed(blocks: seq<seq<Entry>>, index: seq<IndexEntry>, tail: seq<Entry>) {
    |index| <= |blocks| && forall i | 0 <= i < |index| :: IndexedAt(blocks, index, i, NextKey(blocks, tail, i))
  }

  // ----- the filter of the blocks -----

  function Users(block: seq<Entry>): (us: seq<Bytes>)
    ensures |us| == |block|
    ensures forall i | 0 <= i < |block| :: us[i] == block[i].key.user
  {
    seq(|block|, i requires 0 <= i < |block| => block[i].key.user)
  }

  /** The blocks as the filter's builder is told of them: where each begins and its keys. */
  function Told(blocks: seq<seq<Entry>>, offsets: seq<nat>): (s: seq<FilterBlock.Started>)
    requires |offsets| == |blocks|
    ensures |s| == |blocks|
    ensures forall b | 0 <= b < |blocks| :: s[b] == FilterBlock.Started(offsets[b], Users(blocks[b]))
  {
    seq(|blocks|, b requires 0 <= b < |blocks| => FilterBlock.Started(offsets[b], Users(blocks[b])))
  }

  /** What a filter block was made from. */
  datatype Source = Source(hash: Bloom.Hash, bitsPerKey: nat, data: seq<Byte>, offsets: seq<nat>, done: seq<seq<Bytes>>)

  /** The filter block of these blocks. */
  ghost predicate IsFilterOf(contents: seq<Byte>, src: Source, blocks: seq<seq<Entry>>, offsets: seq<nat>) {
    && contents == FilterBlock.Contents(src.data, src.offsets) && |offsets| == |blocks|
    && FilterBlock.Filters(src.hash, src.bitsPerKey, src.data, src.offsets, src.done)
    && FilterBlock.Covered(Told(blocks, offsets), src.done, [])
  }

  class TableBuilder {
    const filter: FilterBlock.FilterBlockBuilder?
    var file: seq<seq<Entry>>  // the data blocks written
    var offsets: seq<nat>      // where each begins
    var offset: nat            // where the file ends
    var dataBlock: seq<Entry>
    var index: seq<IndexEntry>
    var lastKey: IKey
    var pendingIndexEntry: bool
    var pendingHandle: nat
    var numEntries: nat
    var closed: bool

    ghost function Entries(): seq<Entry>
      reads this
    {
      Concat(file) + dataBlock
    }

    /** The filter's builder has been told of every block and of every key of the open one. */
    ghost predicate Filtered()
      reads this, filter
    {
      && |offsets| == |file|
      && (filter != null && !closed ==>
            && filter.Valid() && |filter.done| == offset / FilterBlock.kFilterBase
            && filter.blocks == Told(file, offsets) + [FilterBlock.Started(offset, Users(dataBlock))])
    }

    ghost predicate Valid()
      reads this
    {
      && Increasing(Entries())
      && numEntries == |Entries()|
      && (forall b | 0 <= b < |file| :: |file[b]| > 0)
      && Indexed(file, index, dataBlock)
      && (|dataBlock| > 0 ==> lastKey == Last(dataBlock))
      && (|dataBlock| == 0 && |file| > 0 ==> lastKey == Last(file[|file| - 1]))
      && |file| == |index| + (if pendingIndexEntry then 1 else 0)
      && (pendingIndexEntry ==> |dataBlock| == 0 && pendingHandle == |file| - 1)
      && (!pendingIndexEntry && |file| > 0 && !closed ==> |dataBlock| > 0)
      && (closed ==> !pendingIndexEntry && |dataBlock| == 0)
    }

    /** The filter policy, if there is one, is a Bloom filter of some hash and bits per key. */
    constructor (policy: Option<(Bloom.Hash, nat)>)
      ensures Valid() && Filtered() && Entries() == [] && !closed
      ensures policy.None? <==> filter == null
      ensures filter != null ==> fresh(filter) && filter.hash == policy.value.0 && filter.bitsPerKey == policy.value.1
    {
      file, dataBlock, index, lastKey := [], [], [], IKey([], 0);
      pendingIndexEntry, pendingHandle, numEntries, closed := false, 0, 0, false;
      offsets, offset := [], 0;
      if policy.Some? {
        filter := new FilterBlock.FilterBlockBuilder(policy.value.0, policy.value.1);
      } else {
        filter := null;
      }
      new;
      if filter != null {
        filter.StartBlock(0);
        assert filter.blocks == Told([], []) + [FilterBlock.Started(0, Users([]))];
      }
    }

    /** full stands for the block having reached its size, and written for the bytes it then takes in the file. */
    method Add(key: IKey, value: Bytes, full: bool, written: nat)
      requires Valid() && Filtered() && !closed
      requires numEntries > 0 ==> Below(Entries()[numEntries - 1].key, key)
      modifies this, filter
      ensures Valid() && Filtered() && !closed && Entries() == old(Entries()) + [Entry(key, value)]
      ensures var block := old(dataBlock) + [Entry(key, value)];
        if full then file == old(file) + [block] && dataBlock == [] else file == old(file) && dataBlock == block
    {
      hide Below, Valid, Told, Users, Concat, FilterBlock.FilterBlockBuilder.Valid;
      AddToBlock(key, value);
      TellFilter(key.user);
      if full {
        Flush(written);
      }
    }

    /** The index entry of the block before waits for the key. */
    method AddToBlock(key: IKey, value: Bytes)
      requires Valid() && !closed
      requires numEntries > 0 ==> Below(Entries()[numEntries - 1].key, key)
      modifies `dataBlock, `index, `lastKey, `pendingIndexEntry, `numEntries
      ensures Valid() && Entries() == old(Entries()) + [Entry(key, value)]
      ensures dataBlock == old(dataBlock) + [Entry(key, value)]
    {
      hide Concat, Less, Below, Separates, Indexed, Increasing, NextKey, IndexedAt;
      ghost var was := Entries();
      StaysIncreasing(was, Entry(key, value));
      if pendingIndexEntry {
        LastKeyIs();
        var separator := FindShortestInternalSeparator(lastKey, key);
        IndexGrows(file, index, dataBlock, IndexEntry(separator, pendingHandle), [Entry(key, value)]);
        assert dataBlock + [Entry(key, value)] == [Entry(key, value)];
        index := index + [IndexEntry(separator, pendingHandle)];
        pendingIndexEntry := false;
      } else {
        TailGrows(file, index, dataBlock, Entry(key, value));
      }
      lastKey := key;
      numEntries := numEntries + 1;
      dataBlock := dataBlock + [Entry(key, value)];
      assert Entries() == was + [Entry(key, value)];
      assert Last(dataBlock) == key;
    }

    /** The filter's builder gets the key just added. */
    method TellFilter(user: Bytes)
      requires |offsets| == |file| && |dataBlock| > 0 && dataBlock[|dataBlock| - 1].key.user == user && !closed
      requires filter != null ==>
        && filter.Valid() && |filter.done| == offset / FilterBlock.kFilterBase
        && filter.blocks == Told(file, offsets) + [FilterBlock.Started(offset, Users(dataBlock[..|dataBlock| - 1]))]
      modifies filter
      ensures Filtered()
    {
      hide FilterBlock.FilterBlockBuilder.Valid, Told;
      if filter != null {
        filter.AddKey(user);
        assert Users(dataBlock) == Users(dataBlock[..|dataBlock| - 1]) + [user];
      }
    }

    lemma LastKeyIs()
      requires Valid() && |file| > 0 && |dataBlock| == 0
      ensures numEntries > 0 && lastKey == Entries()[numEntries - 1].key == Last(file[|file| - 1])
    {
      assert file[..|file| - 1] + [file[|file| - 1]] == file;
    }

    method Flush(written: nat)
      requires Valid() && Filtered() && !closed
      modifies this, filter
      ensures Valid() && Filtered() && !closed && Entries() == old(Entries()) && |dataBlock| == 0
      ensures pendingIndexEntry == old(pendingIndexEntry || |dataBlock| > 0)
      ensures file == if |old(dataBlock)| == 0 then old(file) else old(file) + [old(dataBlock)]
    {
      hide Valid, Told, Users, Concat, FilterBlock.FilterBlockBuilder.Valid;
      if |dataBlock| > 0 {
        ToldGrows(file, offsets, dataBlock, offset);
        WriteBlock(written);
        if filter != null {
          filter.StartBlock(offset);
          assert Users([]) == [];
        }
      }
    }

    method WriteBlock(written: nat)
      requires Valid() && !closed && |dataBlock| > 0
      modifies `file, `offsets, `offset, `dataBlock, `pendingHandle, `pendingIndexEntry
      ensures Valid() && Entries() == old(Entries()) && dataBlock == [] && pendingIndexEntry
      ensures file == old(file) + [old(dataBlock)] && offsets == old(offsets) + [old(offset)]
      ensures offset == old(offset) + written
    {
      hide Less, Below, Separates;
      ghost var was := Entries();
      BlockWritten(file, index, dataBlock);
      assert (file + [dataBlock])[..|file|] == file;
      pendingHandle := |file|;
      file, offsets := file + [dataBlock], offsets + [offset];
      offset := offset + written;
      dataBlock := [];
      pendingIndexEntry := true;
      assert Entries() == was;
    }

    /** The last block's index key is a short successor of its last key. */
    ghost predicate Closing()
      reads this
    {
      |file| == |index| > 0 && |file[|file| - 1]| > 0 && IsSuccessor(Last(file[|file| - 1]), index[|index| - 1].key)
    }

    /** The filter block is written first, if there is to be one. */
    method Finish(written: nat) returns (filterBlock: Option<seq<Byte>>, ghost src: Option<Source>)
      requires Valid() && Filtered() && !closed
      modifies this, filter
      ensures Valid() && closed && Concat(file) == old(Entries()) && IsTable(file, index)
      ensures file == if |old(dataBlock)| == 0 then old(file) else old(file) + [old(dataBlock)]
      ensures old(pendingIndexEntry || |dataBlock| > 0) ==> Closing()
      ensures filterBlock.Some? <==> filter != null
      ensures filter != null ==>
        src.Some? && src.value.hash == filter.hash && IsFilterOf(filterBlock.value, src.value, file, offsets)
    {
      hide Valid, Filtered, Concat, IsTable, IsFilterOf;
      Flush(written);
      filterBlock, src := FinishFilter();
      FinishIndex();
    }

    method FinishFilter() returns (filterBlock: Option<seq<Byte>>, ghost src: Option<Source>)
      requires Filtered() && !closed
      modifies filter
      ensures filterBlock.Some? <==> filter != null
      ensures filter != null ==>
        src.Some? && src.value.hash == filter.hash && IsFilterOf(filterBlock.value, src.value, file, offsets)
    {
      hide FilterBlock.FilterBlockBuilder.Valid, FilterBlock.Covered, FilterBlock.Filters, Told, Users;
      filterBlock, src := None, None;
      if filter != null {
        ghost var told := filter.blocks;
        var contents;
        ghost var data, filterOffsets;
        contents, data, filterOffsets := filter.Finish();
        CoveredStart(told, filter.done, Told(file, offsets));
        filterBlock, src := Some(contents), Some(Source(filter.hash, filter.bitsPerKey, data, filterOffsets, filter.done));
      }
    }

    method FinishIndex()
      requires Valid() && !closed && |dataBlock| == 0
      modifies `closed, `index, `pendingIndexEntry
      ensures Valid() && closed && Concat(file) == old(Entries()) && IsTable(file, index)
      ensures old(pendingIndexEntry) ==> Closing()
    {
      hide Concat, Less, Below, Separates;
      closed := true;
      if pendingIndexEntry {
        var successor := FindShortInternalSuccessor(lastKey);
        IndexCloses(file, index, IndexEntry(successor, pendingHandle));
        index := index + [IndexEntry(successor, pendingHandle)];
        pendingIndexEntry := false;
      }
      assert Entries() == Concat(file);
    }
  }

  lemma ToldGrows(blocks: seq<seq<Entry>>, offsets: seq<nat>, block: seq<Entry>, offset: nat)
    requires |offsets| == |blocks|
    ensures Told(blocks + [block], offsets + [offset])
         == Told(blocks, offsets) + [FilterBlock.Started(offset, Users(block))]
  {}

  lemma CoveredStart(told: seq<FilterBlock.Started>, done: seq<seq<Bytes>>, start: seq<FilterBlock.Started>)
    requires FilterBlock.Covered(told, done, []) && start <= told
    ensures FilterBlock.Covered(start, done, [])
  {
    hide FilterBlock.CoveredBlock;
    forall b | 0 <= b < |start| ensures FilterBlock.CoveredBlock(start[b], done, []) {
      assert told[b] == start[b];
    }
  }

  lemma StaysIncreasing(es: seq<Entry>, e: Entry)
    requires Increasing(es) && (|es| > 0 ==> Below(es[|es| - 1].key, e.key))
    ensures Increasing(es + [e])
  {
    hide Below;
    forall i, j | 0 <= i < j < |es| + 1
      ensures Below((es + [e])[i].key, (es + [e])[j].key)
    {
      if j == |es| && i < |es| - 1 {
        BelowTransitive(es[i].key, es[|es| - 1].key, e.key);
      }
    }
  }

  lemma IndexGrows(blocks: seq<seq<Entry>>, index: seq<IndexEntry>, tail: seq<Entry>, e: IndexEntry, next: seq<Entry>)
    requires Indexed(blocks, index, tail) && |tail| == 0 && |next| > 0 && |index| + 1 == |blocks|
    requires forall b | 0 <= b < |blocks| :: |blocks[b]| > 0
    requires e.handle == |index| && !Below(e.key, Last(blocks[|index|])) && Separates(Last(blocks[|index|]), e.key, next[0].key)
    ensures Indexed(blocks, index + [e], next)
  {
    hide Below, Separates;
    var now := index + [e];
    forall i | 0 <= i < |now|
      ensures IndexedAt(blocks, now, i, NextKey(blocks, next, i))
    {
      assert i < |index| ==> IndexedAt(blocks, index, i, NextKey(blocks, tail, i));
    }
  }

  lemma TailGrows(blocks: seq<seq<Entry>>, index: seq<IndexEntry>, tail: seq<Entry>, e: Entry)
    requires Indexed(blocks, index, tail) && (|blocks| > 0 ==> |tail| > 0)
    ensures Indexed(blocks, index, tail + [e])
  {
    hide Below, Separates;
    forall i | 0 <= i < |index|
      ensures IndexedAt(blocks, index, i, NextKey(blocks, tail + [e], i))
    {
      assert IndexedAt(blocks, index, i, NextKey(blocks, tail, i));
    }
  }

  lemma BlockWritten(blocks: seq<seq<Entry>>, index: seq<IndexEntry>, tail: seq<Entry>)
    requires Indexed(blocks, index, tail) && |tail| > 0
    ensures Indexed(blocks + [tail], index, [])
  {
    hide Below, Separates;
    forall i | 0 <= i < |index|
      ensures IndexedAt(blocks + [tail], index, i, NextKey(blocks + [tail], [], i))
    {
      assert IndexedAt(blocks, index, i, NextKey(blocks, tail, i));
    }
  }

  lemma IndexCloses(blocks: seq<seq<Entry>>, index: seq<IndexEntry>, e: IndexEntry)
    requires Indexed(blocks, index, []) && |index| + 1 == |blocks|
    requires forall b | 0 <= b < |blocks| :: |blocks[b]| > 0
    requires e.handle == |index| && !Below(e.key, Last(blocks[|index|]))
    ensures Indexed(blocks, index + [e], [])
  {
    hide Below, Separates;
    var now := index + [e];
    forall i | 0 <= i < |now|
      ensures IndexedAt(blocks, now, i, NextKey(blocks, [], i))
    {
      assert i < |index| ==> IndexedAt(blocks, index, i, NextKey(blocks, [], i));
    }
  }

  // ----- getting one key -----

  /** The first entry not below the target, which is where an iterator's Seek lands. */
  function SeekIndex(es: seq<Entry>, target: IKey): (i: nat)
    ensures i <= |es|
    ensures forall j | 0 <= j < i :: Below(es[j].key, target)
    ensures i < |es| ==> !Below(es[i].key, target)
    decreases |es|
  {
    if |es| == 0 then 0
    else
      var i := SeekIndex(es[..|es| - 1], target);
      if i < |es| - 1 || !Below(es[|es| - 1].key, target) then i else |es|
  }

  lemma IsSeekIndex(es: seq<Entry>, target: IKey, i: nat)
    requires Increasing(es) && i <= |es|
    requires i > 0 ==> Below(es[i - 1].key, target)
    requires i < |es| ==> !Below(es[i].key, target)
    ensures i == SeekIndex(es, target)
  {
    hide Below, SeekIndex, Increasing;
    var k := SeekIndex(es, target);
    if k < i - 1 {
      Earlier(es, k, i - 1);
      BelowTransitive(es[k].key, es[i - 1].key, target);
    }
  }

  lemma Earlier(es: seq<Entry>, i: nat, j: nat)
    requires Increasing(es) && i < j < |es|
    ensures Below(es[i].key, es[j].key)
  {}

  /** A finished table. */
  ghost predicate IsTable(blocks: seq<seq<Entry>>, index: seq<IndexEntry>) {
    && |index| == |blocks| && Increasing(Concat(blocks)) && Indexed(blocks, index, [])
  }

  /** Handles and keys of the index as entries to seek in. */
  function IndexKeys(index: seq<IndexEntry>): (ks: seq<IKey>)
    ensures |ks| == |index|
  {
    seq(|index|, i requires 0 <= i < |index| => index[i].key)
  }

  /** Where the index iterator's Seek lands. */
  method SeekBlock(index: seq<IndexEntry>, k: IKey) returns (b: nat)
    ensures b <= |index|
    ensures forall i | 0 <= i < b :: Below(index[i].key, k)
    ensures b < |index| ==> !Below(index[b].key, k)
  {
    hide Below;
    b := 0;
    while b < |index| && Below(index[b].key, k)
      invariant b <= |index| && forall i | 0 <= i < b :: Below(index[i].key, k)
    {
      b := b + 1;
    }
  }

  /** What SaveValue makes of the entry it is handed. */
  function OfUser(r: Option<Entry>, user: Bytes): Option<Entry> {
    if r.Some? && r.value.key.user == user then r else None
  }

  function EntryAt(es: seq<Entry>, i: nat): Option<Entry> {
    if i < |es| then Some(es[i]) else None
  }

  /** The filter's answer never denies a user key that the block has. */
  method AskFilter(reader: FilterBlock.FilterBlockReader, ghost src: Source, blocks: seq<seq<Entry>>, offsets: seq<nat>,
                   b: nat, user: Bytes)
    returns (may: bool)
    requires b < |blocks| && reader.hash == src.hash && IsFilterOf(reader.contents, src, blocks, offsets)
    requires reader.Valid() && reader.Readable(src.data, src.offsets)
    ensures (exists i | 0 <= i < |blocks[b]| :: blocks[b][i].key.user == user) ==> may
  {
    hide FilterBlock.Filters, FilterBlock.Covered, FilterBlock.Contents, Bloom.MayMatch;
    may := reader.KeyMayMatch(offsets[b], user);
    if i :| 0 <= i < |blocks[b]| && blocks[b][i].key.user == user {
      assert Users(blocks[b])[i] == user;
      FilterBlock.KeyHasFilter(src.hash, src.bitsPerKey, src.data, src.offsets, src.done, Told(blocks, offsets), b, user);
    }
  }

  /** One block is enough: if the first entry at or past k in the whole table is of k's user key, it is the one handed on,
      and no other of that user key is, whether or not there is a filter to ask. */
  method InternalGet(blocks: seq<seq<Entry>>, index: seq<IndexEntry>, offsets: seq<nat>,
                     reader: FilterBlock.FilterBlockReader?, ghost src: Option<Source>, k: IKey)
    returns (r: Option<Entry>)
    requires IsTable(blocks, index)
    requires reader != null ==>
      && src.Some? && reader.hash == src.value.hash && IsFilterOf(reader.contents, src.value, blocks, offsets)
      && reader.Valid() && reader.Readable(src.value.data, src.value.offsets)
    ensures OfUser(r, k.user) == OfUser(EntryAt(Concat(blocks), SeekIndex(Concat(blocks), k)), k.user)
  {
    hide IsFilterOf;
    hide Less, Below, Separates, SeekIndex, Concat, Increasing;
    var b := SeekBlock(index, k);
    r := None;
    if b < |index| {
      EarlierBlocksAreBelow(blocks, index, k, b);
      var handle := index[b].handle;
      assert IndexedAt(blocks, index, b, NextKey(blocks, [], b));
      ghost var i := SeekIndex(blocks[b], k);
      if i < |blocks[b]| {
        FoundInBlock(blocks, index, k, b, i);
      } else {
        NotInBlock(blocks, index, k, b);
      }
      var mayMatch := true;
      if reader != null {
        mayMatch := AskFilter(reader, src.value, blocks, offsets, handle, k.user);
      }
      if mayMatch {
        var at := SeekIndex(blocks[handle], k);
        if at < |blocks[handle]| {
          r := Some(blocks[handle][at]);
        }
      }
    } else {
      PastTheEnd(blocks, index, k);
    }
  }

  lemma BlockIncreasing(blocks: seq<seq<Entry>>, b: nat, i: nat, j: nat)
    requires Increasing(Concat(blocks)) && b < |blocks| && i < j < |blocks[b]|
    ensures Below(blocks[b][i].key, blocks[b][j].key)
  {
    hide Below, Concat;
    EntryIsThere(blocks, b, i);
    EntryIsThere(blocks, b, j);
  }

  /** No entry of a block is above its index key. */
  lemma BelowIndexKey(blocks: seq<seq<Entry>>, index: seq<IndexEntry>, b: nat, i: nat, k: IKey)
    requires IsTable(blocks, index) && b < |blocks| && i < |blocks[b]|
    requires Below(index[b].key, k)
    ensures Below(blocks[b][i].key, k)
  {
    hide Less, Below, Separates, Concat, Increasing;
    assert IndexedAt(blocks, index, b, NextKey(blocks, [], b));
    var last := |blocks[b]| - 1;
    BelowTotal(index[b].key, blocks[b][last].key);
    if index[b].key != blocks[b][last].key {
      BelowTransitive(blocks[b][last].key, index[b].key, k);
    }
    if i < last {
      BlockIncreasing(blocks, b, i, last);
      BelowTransitive(blocks[b][i].key, blocks[b][last].key, k);
    }
  }

  lemma EarlierBlocksAreBelow(blocks: seq<seq<Entry>>, index: seq<IndexEntry>, k: IKey, b: nat)
    requires IsTable(blocks, index) && b <= |blocks|
    requires forall i | 0 <= i < b :: Below(index[i].key, k)
    ensures forall p | 0 <= p < Offset(blocks, b) && p < |Concat(blocks)| :: Below(Concat(blocks)[p].key, k)
  {
    hide Less, Below, Separates, Concat, Increasing;
    forall p | 0 <= p < Offset(blocks, b) && p < |Concat(blocks)|
      ensures Below(Concat(blocks)[p].key, k)
    {
      var c, i := Locate(blocks, p);
      if b <= c {
        OffsetsGrow(blocks, b, c);
      }
      BelowIndexKey(blocks, index, c, i, k);
    }
  }

  lemma {:induction false} OffsetsGrow(blocks: seq<seq<Entry>>, b: nat, c: nat)
    requires b <= c <= |blocks|
    ensures Offset(blocks, b) <= Offset(blocks, c)
    decreases c
  {
    hide Concat;
    if b < c {
      OffsetsGrow(blocks, b, c - 1);
      OneMoreBlock(blocks, c - 1);
    }
  }

  lemma FoundInBlock(blocks: seq<seq<Entry>>, index: seq<IndexEntry>, k: IKey, b: nat, i: nat)
    requires IsTable(blocks, index) && b < |blocks| && i < |blocks[b]| && i == SeekIndex(blocks[b], k)
    requires forall p | 0 <= p < Offset(blocks, b) && p < |Concat(blocks)| :: Below(Concat(blocks)[p].key, k)
    ensures Offset(blocks, b) + i < |Concat(blocks)|
    ensures SeekIndex(Concat(blocks), k) == Offset(blocks, b) + i && Concat(blocks)[Offset(blocks, b) + i] == blocks[b][i]
  {
    hide Less, Below, Separates, Concat, Increasing;
    var p := Offset(blocks, b) + i;
    EntryIsThere(blocks, b, i);
    if i > 0 {
      EntryIsThere(blocks, b, i - 1);
    }
    IsSeekIndex(Concat(blocks), k, p);
  }

  /** k lies between two blocks, and so does its user key. */
  lemma NotInBlock(blocks: seq<seq<Entry>>, index: seq<IndexEntry>, k: IKey, b: nat)
    requires IsTable(blocks, index) && b < |blocks| && SeekIndex(blocks[b], k) == |blocks[b]| && !Below(index[b].key, k)
    requires forall p | 0 <= p < Offset(blocks, b) && p < |Concat(blocks)| :: Below(Concat(blocks)[p].key, k)
    ensures OfUser(EntryAt(Concat(blocks), SeekIndex(Concat(blocks), k)), k.user) == None
  {
    hide Less, Below, Separates, Concat, Increasing, SeekIndex, Indexed, Offset;
    var all, block := Concat(blocks), blocks[b];
    IndexFacts(blocks, index, b);
    var last := |block| - 1;
    BelowLast(block, k);
    EntryIsThere(blocks, b, last);
    OneMoreBlock(blocks, b);
    var p := Offset(blocks, b + 1);
    if b + 1 < |blocks| {
      EntryIsThere(blocks, b + 1, 0);
      KeyBetween(block[last].key, index[b].key, blocks[b + 1][0].key, k);
    } else {
      WholeOffset(blocks);
    }
    IsSeekIndex(all, k, p);
  }

  lemma WholeOffset(blocks: seq<seq<Entry>>)
    ensures Offset(blocks, |blocks|) == |Concat(blocks)|
  {
    assert blocks[..|blocks|] == blocks;
  }

  lemma IndexFacts(blocks: seq<seq<Entry>>, index: seq<IndexEntry>, b: nat)
    requires IsTable(blocks, index) && b < |blocks|
    ensures |blocks[b]| > 0 && !Below(index[b].key, Last(blocks[b]))
    ensures b + 1 < |blocks| ==> |blocks[b + 1]| > 0 && Separates(Last(blocks[b]), index[b].key, blocks[b + 1][0].key)
  {
    hide Below, Separates, Concat, Increasing;
    assert IndexedAt(blocks, index, b, NextKey(blocks, [], b));
    assert b + 1 < |blocks| ==> IndexedAt(blocks, index, b + 1, NextKey(blocks, [], b + 1));
  }

  lemma BelowLast(block: seq<Entry>, k: IKey)
    requires |block| > 0 && SeekIndex(block, k) == |block|
    ensures Below(Last(block), k)
  {}

  /** The last key of a block is below k, k is not above the index key, and the next key is k's superior in user key too. */
  lemma KeyBetween(last: IKey, separator: IKey, first: IKey, k: IKey)
    requires Below(last, k) && !Below(separator, k) && Separates(last, separator, first)
    ensures Less(k.user, first.user) && k.user != first.user && !Below(first, k)
  {
    hide Less;
    BelowTotal(separator, k);
    if separator == last {
      BelowTotal(last, k);
    } else {
      LessTotal(separator.user, k.user);
      if Less(k.user, separator.user) {
        LessTransitive(k.user, separator.user, first.user);
      }
      LessTotal(k.user, first.user);
    }
  }

  lemma PastTheEnd(blocks: seq<seq<Entry>>, index: seq<IndexEntry>, k: IKey)
    requires IsTable(blocks, index)
    requires forall i | 0 <= i < |index| :: Below(index[i].key, k)
    ensures SeekIndex(Concat(blocks), k) == |Concat(blocks)|
  {
    hide Less, Below, Separates, Concat, Increasing, SeekIndex;
    EarlierBlocksAreBelow(blocks, index, k, |blocks|);
    assert blocks[..|blocks|] == blocks;
    IsSeekIndex(Concat(blocks), k, |Concat(blocks)|);
  }

  // ----- from building to getting -----

  method OpenFilter(hash: Bloom.Hash, contents: seq<Byte>, ghost src: Source, ghost blocks: seq<seq<Entry>>,
                    ghost offsets: seq<nat>)
    returns (reader: FilterBlock.FilterBlockReader)
    requires IsFilterOf(contents, src, blocks, offsets) && |contents| < 0x1_0000_0000
    ensures fresh(reader) && reader.hash == hash && reader.contents == contents
    ensures reader.Valid() && reader.Readable(src.data, src.offsets)
  {
    hide FilterBlock.Covered, FilterBlock.Contents, Bloom.IsFilter;
    reader := new FilterBlock.FilterBlockReader(hash, contents);
    FilterBlock.DataIsShorter(src.data, src.offsets);
  }

  /** A table built from entries in order, its blocks cut anywhere and of any size, with a filter or without, gives
      the entry sought, if the file's filter block is below four gigabytes. */
  method BuildAndGet(policy: Option<(Bloom.Hash, nat)>, entries: seq<Entry>, full: seq<bool>, written: seq<nat>, k: IKey)
    returns (r: Option<Entry>, filterBytes: nat)
    requires Increasing(entries) && |full| == |entries| && |written| == |entries| + 1
    ensures filterBytes < 0x1_0000_0000 ==>
      OfUser(r, k.user) == OfUser(EntryAt(entries, SeekIndex(entries, k)), k.user)
  {
    hide Below, SeekIndex, IsTable, IsFilterOf, TableBuilder.Valid, TableBuilder.Filtered, Concat;
    var builder := new TableBuilder(policy);
    for n := 0 to |entries|
      invariant fresh(builder) && (builder.filter != null ==> fresh(builder.filter))
      invariant builder.Valid() && builder.Filtered() && !builder.closed && builder.Entries() == entries[..n]
    {
      Counted(builder);
      assert entries[..n + 1] == entries[..n] + [entries[n]];
      builder.Add(entries[n].key, entries[n].value, full[n], written[n]);
    }
    assert entries[..|entries|] == entries;
    var filterBlock: Option<seq<Byte>>;
    ghost var src;
    filterBlock, src := builder.Finish(written[|entries|]);
    var reader: FilterBlock.FilterBlockReader? := null;
    filterBytes := if filterBlock.Some? then |filterBlock.value| else 0;
    r := None;
    if filterBytes < 0x1_0000_0000 {
      if filterBlock.Some? {
        reader := OpenFilter(builder.filter.hash, filterBlock.value, src.value, builder.file, builder.offsets);
      }
      r := InternalGet(builder.file, builder.index, builder.offsets, reader, src, k);
    }
  }

  lemma Counted(builder: TableBuilder)
    requires builder.Valid()
    ensures builder.numEntries == |builder.Entries()|
  {}
}
