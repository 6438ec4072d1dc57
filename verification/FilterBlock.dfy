/** The filter block: a filter for each two kilobytes of file offsets (table/filter_block.cc). */
module FilterBlock {
  import opened Coding
  import opened Bloom

  const kFilterBaseLg: nat := 11
  const kFilterBase: nat := 2048

  // ----- the format -----

  /** The flattened keys. */
  function Flat(keys: seq<Key>): seq<Byte>
    decreases |keys|
  {
    if |keys| == 0 then [] else Flat(keys[..|keys| - 1]) + keys[|keys| - 1]
  }

  /** Where each key starts in the flattened keys. */
  function Starts(keys: seq<Key>): (s: seq<nat>)
    ensures |s| == |keys|
    decreases |keys|
  {
    if |keys| == 0 then [] else Starts(keys[..|keys| - 1]) + [|Flat(keys[..|keys| - 1])|]
  }

  lemma OneMoreKey(keys: seq<Key>, key: Key)
    ensures Flat(keys + [key]) == Flat(keys) + key
    ensures Starts(keys + [key]) == Starts(keys) + [|Flat(keys)|]
  {
    assert (keys + [key])[..|keys|] == keys;
  }

  lemma {:induction false} KeyIsBack(keys: seq<Key>, i: nat)
    requires i < |keys|
    ensures var s := Starts(keys) + [|Flat(keys)|]; s[i] <= s[i + 1] <= |Flat(keys)| && Flat(keys)[s[i]..s[i + 1]] == keys[i]
    decreases |keys|
  {
    var init := keys[..|keys| - 1];
    if i < |init| {
      KeyIsBack(init, i);
      var s, t := Starts(init) + [|Flat(init)|], Starts(keys) + [|Flat(keys)|];
      assert t[i] == s[i] && t[i + 1] == s[i + 1];
      assert Flat(keys)[s[i]..s[i + 1]] == Flat(init)[s[i]..s[i + 1]];
    }
  }

  /** Filter i of result, offsets saying where each begins. */
  function Filter(result: seq<Byte>, offsets: seq<nat>, i: nat): seq<Byte>
    requires i < |offsets| && offsets[i] <= End(result, offsets, i) <= |result|
  {
    result[offsets[i]..End(result, offsets, i)]
  }

  function End(result: seq<Byte>, offsets: seq<nat>, i: nat): nat
    requires i < |offsets|
  {
    if i + 1 < |offsets| then offsets[i + 1] else |result|
  }

  /** Filter i was made from the keys of done[i], and is empty if there were none. */
  ghost predicate Filters(hash: Hash, bitsPerKey: nat, result: seq<Byte>, offsets: seq<nat>, done: seq<seq<Key>>) {
    && |offsets| == |done|
    && (|offsets| == 0 ==> result == [])
    && (|offsets| > 0 ==> offsets[0] == 0)
    && forall i | 0 <= i < |done| ::
         && offsets[i] <= End(result, offsets, i) <= |result|
         && if |done[i]| == 0 then Filter(result, offsets, i) == [] else IsFilter(hash, done[i], bitsPerKey, Filter(result, offsets, i))
  }

  lemma OneMoreFilter(hash: Hash, bitsPerKey: nat, result: seq<Byte>, offsets: seq<nat>, done: seq<seq<Key>>,
          keys: seq<Key>, filter: seq<Byte>)
    requires Filters(hash, bitsPerKey, result, offsets, done)
    requires if |keys| == 0 then filter == [] else IsFilter(hash, keys, bitsPerKey, filter)
    ensures Filters(hash, bitsPerKey, result + filter, offsets + [|result|], done + [keys])
  {
    hide IsFilter;
    var r, o, d := result + filter, offsets + [|result|], done + [keys];
    forall i | 0 <= i < |d|
      ensures o[i] <= End(r, o, i) <= |r|
      ensures if |d[i]| == 0 then Filter(r, o, i) == [] else IsFilter(hash, d[i], bitsPerKey, Filter(r, o, i))
    {
      if i < |done| {
        assert End(r, o, i) == End(result, offsets, i);
        assert Filter(r, o, i) == Filter(result, offsets, i);
      } else {
        assert Filter(r, o, i) == filter;
      }
    }
  }

  function Contents(data: seq<Byte>, offsets: seq<nat>): seq<Byte> {
    data + Fixed32s(offsets) + Fixed(4, |data|) + [ByteOf(kFilterBaseLg)]
  }

  /** A started block: its offset in the file and the keys added to it. */
  datatype Started = Started(offset: nat, keys: seq<Key>)

  /** The key is among those of the filter for the offset, made or yet to be made. */
  predicate HasPlace(offset: nat, key: Key, done: seq<seq<Key>>, pending: seq<Key>) {
    var i := offset / kFilterBase;
    i <= |done| && if i < |done| then key in done[i] else key in pending
  }

  ghost predicate CoveredBlock(block: Started, done: seq<seq<Key>>, pending: seq<Key>) {
    forall key | key in block.keys :: HasPlace(block.offset, key, done, pending)
  }

  /** Every key of every block has its place. */
  ghost predicate Covered(blocks: seq<Started>, done: seq<seq<Key>>, pending: seq<Key>) {
    forall b | 0 <= b < |blocks| :: CoveredBlock(blocks[b], done, pending)
  }

  lemma OneMoreCovered(blocks: seq<Started>, done: seq<seq<Key>>, pending: seq<Key>)
    requires Covered(blocks, done, pending)
    ensures Covered(blocks, done + [pending], [])
  {
    forall b, key | 0 <= b < |blocks| && key in blocks[b].keys
      ensures HasPlace(blocks[b].offset, key, done + [pending], [])
    {
      assert CoveredBlock(blocks[b], done, pending);
      assert HasPlace(blocks[b].offset, key, done, pending);
    }
  }

  lemma StartCovered(blocks: seq<Started>, done: seq<seq<Key>>, pending: seq<Key>, offset: nat)
    requires Covered(blocks, done, pending)
    ensures Covered(blocks + [Started(offset, [])], done, pending)
  {
    hide HasPlace;
  }

  lemma KeyCovered(blocks: seq<Started>, done: seq<seq<Key>>, pending: seq<Key>, key: Key)
    requires Covered(blocks, done, pending) && |blocks| > 0 && blocks[|blocks| - 1].offset / kFilterBase == |done|
    ensures var last := |blocks| - 1; Covered(blocks[last := Started(blocks[last].offset, blocks[last].keys + [key])], done, pending + [key])
  {
    var last := |blocks| - 1;
    var after := blocks[last := Started(blocks[last].offset, blocks[last].keys + [key])];
    forall b, k | 0 <= b < |after| && k in after[b].keys
      ensures HasPlace(after[b].offset, k, done, pending + [key])
    {
      assert CoveredBlock(blocks[b], done, pending);
      assert k in blocks[b].keys ==> HasPlace(blocks[b].offset, k, done, pending);
      assert k in blocks[b].keys || (b == last && k == key);
    }
  }

  class FilterBlockBuilder {
    const hash: Hash
    const bitsPerKey: nat
    var keys: seq<Byte>
    var start: seq<nat>
    var result: seq<Byte>
    var filterOffsets: seq<nat>
    ghost var pending: seq<Key>
    ghost var done: seq<seq<Key>>
    ghost var blocks: seq<Started>

    ghost predicate Valid()
      reads this
    {
      && keys == Flat(pending) && start == Starts(pending)
      && Filters(hash, bitsPerKey, result, filterOffsets, done)
      && Covered(blocks, done, pending)
      && (|blocks| == 0 ==> |pending| == 0)
    }

    constructor (h: Hash, bits: nat)
      ensures Valid() && blocks == [] && done == [] && hash == h && bitsPerKey == bits
    {
      hash, bitsPerKey := h, bits;
      keys, start, result, filterOffsets := [], [], [], [];
      pending, done, blocks := [], [], [];
    }

    /** The list of keys from their flattened form. */
    method KeyList() returns (tmpKeys: seq<Key>)
      requires Valid()
      ensures tmpKeys == pending
    {
      hide Filters, Covered, Flat, Starts;
      var ends := start + [|keys|];
      tmpKeys := [];
      for i := 0 to |start|
        invariant tmpKeys == pending[..i]
      {
        KeyIsBack(pending, i);
        var base, length := ends[i], ends[i + 1] - ends[i];
        tmpKeys := tmpKeys + [keys[base..base + length]];
      }
      assert pending[..|pending|] == pending;
    }

    method GenerateFilter()
      requires Valid()
      modifies `keys, `start, `result, `filterOffsets, `pending, `done
      ensures Valid() && pending == [] && done == old(done) + [old(pending)]
    {
      hide IsFilter, Filters, Covered;
      OneMoreCovered(blocks, done, pending);
      ghost var was, offsets := result, filterOffsets;
      if |start| == 0 {
        OneMoreFilter(hash, bitsPerKey, result, filterOffsets, done, [], []);
        assert result + [] == result && pending == [];
        filterOffsets := filterOffsets + [|result|];
      } else {
        var tmpKeys := KeyList();
        filterOffsets := filterOffsets + [|result|];
        result := CreateFilter(hash, tmpKeys, bitsPerKey, result);
        OneMoreFilter(hash, bitsPerKey, was, offsets, done, pending, result[|was|..]);
        assert was + result[|was|..] == result;
        keys, start := [], [];
      }
      done, pending := done + [pending], [];
    }

    /** The caller's offsets never fall back before the filters already made. */
    method StartBlock(blockOffset: nat)
      requires Valid() && blockOffset / kFilterBase >= |done|
      modifies this
      ensures Valid() && blocks == old(blocks) + [Started(blockOffset, [])]
      ensures |done| == blockOffset / kFilterBase && old(done) <= done
      ensures |done| == |old(done)| ==> pending == old(pending)
      ensures |done| > |old(done)| ==> pending == [] && done[|old(done)|] == old(pending)
      ensures forall i | |old(done)| < i < |done| :: done[i] == []
    {
      hide Filters, Covered;
      OffsetsMatch();
      var filterIndex := blockOffset / kFilterBase;
      while filterIndex > |filterOffsets|
        invariant Valid() && blocks == old(blocks) && |filterOffsets| == |done| <= filterIndex && old(done) <= done
        invariant |done| == |old(done)| ==> pending == old(pending)
        invariant |done| > |old(done)| ==> pending == [] && done[|old(done)|] == old(pending)
        invariant forall i | |old(done)| < i < |done| :: done[i] == []
        decreases filterIndex - |filterOffsets|
      {
        GenerateFilter();
        OffsetsMatch();
      }
      StartCovered(blocks, done, pending, blockOffset);
      blocks := blocks + [Started(blockOffset, [])];
    }

    lemma OffsetsMatch()
      requires Valid()
      ensures |filterOffsets| == |done|
    {
      hide IsFilter;
    }

    method AddKey(key: Key)
      requires Valid() && |blocks| > 0 && blocks[|blocks| - 1].offset / kFilterBase == |done|
      modifies this
      ensures Valid() && done == old(done) && pending == old(pending) + [key]
      ensures var last := |old(blocks)| - 1; blocks == old(blocks)[last := Started(old(blocks)[last].offset, old(blocks)[last].keys + [key])]
    {
      hide Filters, Covered;
      OneMoreKey(pending, key);
      KeyCovered(blocks, done, pending, key);
      start := start + [|keys|];
      keys := keys + key;
      pending := pending + [key];
      var last := |blocks| - 1;
      blocks := blocks[last := Started(blocks[last].offset, blocks[last].keys + [key])];
    }

    method AppendOffsets()
      modifies `result
      ensures result == old(result) + Fixed32s(filterOffsets)
    {
      hide Fixed;
      ghost var data := result;
      for i := 0 to |filterOffsets|
        invariant result == data + Fixed32s(filterOffsets[..i])
      {
        assert filterOffsets[..i + 1][..i] == filterOffsets[..i];
        result := result + Fixed(4, filterOffsets[i]);
      }
      assert filterOffsets[..|filterOffsets|] == filterOffsets;
    }

    method Finish() returns (contents: seq<Byte>, ghost data: seq<Byte>, ghost offsets: seq<nat>)
      requires Valid()
      modifies this
      ensures blocks == old(blocks) && Covered(blocks, done, [])
      ensures done == old(done) + if |old(pending)| > 0 then [old(pending)] else []
      ensures Filters(hash, bitsPerKey, data, offsets, done) && contents == Contents(data, offsets)
    {
      hide IsFilter, Filters, Covered, Fixed;
      if |start| != 0 {
        GenerateFilter();
      }
      assert pending == [];
      data, offsets := result, filterOffsets;
      var arrayOffset := |result|;
      AppendOffsets();
      result := result + Fixed(4, arrayOffset);
      result := result + [ByteOf(kFilterBaseLg)];
      contents := result;
    }
  }

  // ----- the reader -----

  class FilterBlockReader {
    const hash: Hash
    const contents: seq<Byte>
    var offset: nat
    var num: nat
    var baseLg: nat

    /** Nothing the reader will look at lies outside contents. */
    ghost predicate Valid()
      reads this
    {
      num > 0 ==> offset + 4 * num + 5 <= |contents|
    }

    constructor (h: Hash, block: seq<Byte>)
      ensures Valid() && hash == h && contents == block
      ensures forall data, offsets :: block == Contents(data, offsets) && |data| < 0x1_0000_0000 ==>
        offset == |data| && num == |offsets| && baseLg == kFilterBaseLg
    {
      hide Fixed32s, Fixed, FixedValue, NumberOf, ByteOf;
      hash, contents := h, block;
      offset, num, baseLg := 0, 0, 0;
      var n := |block|;
      new;
      forall data, offsets | block == Contents(data, offsets) && |data| < 0x1_0000_0000
        ensures n >= 5 && NumberOf(block[n - 1]) == kFilterBaseLg && FixedValue(block[n - 5..n - 1]) == |data| && n - 5 == |data| + 4 * |offsets|
      {
        LastBytes(block, data, offsets);
      }
      if n >= 5 {
        baseLg := NumberOf(block[n - 1]);
        var lastWord := FixedValue(block[n - 5..n - 1]);
        if lastWord <= n - 5 {
          offset := lastWord;
          num := (n - 5 - lastWord) / 4;
        }
      }
    }

    /** Any block whatever may be asked; only a filter that says no says no. */
    method KeyMayMatch(blockOffset: nat, key: Key) returns (may: bool)
      requires Valid()
      ensures forall data, offsets :: Readable(data, offsets) && blockOffset / kFilterBase < |offsets| ==>
        may == MayMatch(hash, key, Filter(data, offsets, blockOffset / kFilterBase))
      ensures forall data, offsets :: Readable(data, offsets) && blockOffset / kFilterBase >= |offsets| ==> may
    {
      hide Fixed32s, Fixed, FixedValue, MayMatch, Power;
      Power11();
      var index := blockOffset / Power(2, baseLg);
      may := true;
      if index < num {
        var start := FixedValue(contents[offset + index * 4..offset + index * 4 + 4]);
        var limit := FixedValue(contents[offset + index * 4 + 4..offset + index * 4 + 8]);
        forall data, offsets | Readable(data, offsets)
          ensures start == offsets[index] && limit == End(data, offsets, index)
          ensures contents[start..limit] == Filter(data, offsets, index)
        {
          OffsetsThere(data, offsets, index);
        }
        if start <= limit && limit <= offset {
          may := Bloom.KeyMayMatch(hash, key, contents[start..limit]);
        } else if start == limit {
          may := false;
        }
      }
    }

    ghost predicate Readable(data: seq<Byte>, offsets: seq<nat>)
      reads this
    {
      && contents == Contents(data, offsets) && |data| < 0x1_0000_0000
      && offset == |data| && num == |offsets| && baseLg == kFilterBaseLg
      && forall i | 0 <= i < |offsets| :: offsets[i] <= End(data, offsets, i) <= |data|
    }

    lemma OffsetsThere(data: seq<Byte>, offsets: seq<nat>, i: nat)
      requires Readable(data, offsets) && i < |offsets|
      ensures offset + 4 * i + 8 <= |contents|
      ensures FixedValue(contents[offset + i * 4..offset + i * 4 + 4]) == offsets[i]
      ensures FixedValue(contents[offset + i * 4 + 4..offset + i * 4 + 8]) == End(data, offsets, i)
      ensures contents[offsets[i]..End(data, offsets, i)] == Filter(data, offsets, i)
    {
      hide Fixed32s, Fixed, FixedValue;
      WordThere(data, offsets, i);
      if i + 1 < |offsets| {
        WordThere(data, offsets, i + 1);
      } else {
        LastBytes(contents, data, offsets);
      }
      assert contents[..|data|] == data;
      assert contents[offsets[i]..End(data, offsets, i)] == data[offsets[i]..End(data, offsets, i)];
    }
  }

  lemma Power11()
    ensures Power(2, kFilterBaseLg) == kFilterBase
  {
    assert Power(2, 4) == 16;
    Power7(4);
  }

  lemma LastBytes(block: seq<Byte>, data: seq<Byte>, offsets: seq<nat>)
    requires block == Contents(data, offsets) && |data| < 0x1_0000_0000
    ensures |block| - 5 == |data| + 4 * |offsets|
    ensures NumberOf(block[|block| - 1]) == kFilterBaseLg && FixedValue(block[|block| - 5..|block| - 1]) == |data|
  {
    hide Fixed32s, Fixed, FixedValue, NumberOf, ByteOf;
    ByteRoundTrip(kFilterBaseLg);
    Power256();
    FixedRoundTrip(4, |data|);
    assert block[|block| - 5..|block| - 1] == Fixed(4, |data|);
  }

  lemma WordThere(data: seq<Byte>, offsets: seq<nat>, i: nat)
    requires i < |offsets| && offsets[i] < 0x1_0000_0000
    ensures var p := |data| + 4 * i; p + 8 <= |Contents(data, offsets)| && FixedValue(Contents(data, offsets)[p..p + 4]) == offsets[i]
  {
    hide Fixed32s, Fixed, FixedValue, ByteOf;
    var p := |data| + 4 * i;
    Fixed32At(offsets, i);
    assert Contents(data, offsets)[p..p + 4] == Fixed32s(offsets)[4 * i..4 * i + 4];
    Power256();
    FixedRoundTrip(4, offsets[i]);
  }

  // ----- end to end -----

  /** Each block's offset is not in an earlier filter than the one before it. */
  predicate Forward(blocks: seq<Started>) {
    forall b | 0 < b < |blocks| :: blocks[b - 1].offset / kFilterBase <= blocks[b].offset / kFilterBase
  }

  /** One block: StartBlock and an AddKey for each key. */
  method AddBlock(builder: FilterBlockBuilder, block: Started)
    requires builder.Valid() && block.offset / kFilterBase >= |builder.done|
    modifies builder
    ensures builder.Valid() && builder.blocks == old(builder.blocks) + [block]
    ensures |builder.done| == block.offset / kFilterBase
  {
    hide Filters, Covered, FilterBlockBuilder.Valid;
    ghost var before := builder.blocks;
    builder.StartBlock(block.offset);
    var keys := block.keys;
    for k := 0 to |keys|
      invariant builder.Valid() && builder.blocks == before + [Started(block.offset, keys[..k])]
      invariant |builder.done| == block.offset / kFilterBase
    {
      assert keys[..k] + [keys[k]] == keys[..k + 1];
      builder.AddKey(keys[k]);
    }
    assert keys[..|keys|] == keys;
  }

  method BuildFilters(hash: Hash, bitsPerKey: nat, blocks: seq<Started>)
    returns (contents: seq<Byte>, ghost data: seq<Byte>, ghost offsets: seq<nat>, ghost done: seq<seq<Key>>)
    requires Forward(blocks)
    ensures contents == Contents(data, offsets) && Filters(hash, bitsPerKey, data, offsets, done) && Covered(blocks, done, [])
  {
    hide Filters, Covered, Contents, FilterBlockBuilder.Valid;
    var builder := new FilterBlockBuilder(hash, bitsPerKey);
    for b := 0 to |blocks|
      invariant fresh(builder) && builder.Valid() && builder.blocks == blocks[..b]
      invariant |builder.done| == if b == 0 then 0 else blocks[b - 1].offset / kFilterBase
    {
      AddBlock(builder, blocks[b]);
      assert blocks[..b] + [blocks[b]] == blocks[..b + 1];
    }
    assert blocks[..|blocks|] == blocks;
    contents, data, offsets := builder.Finish();
    done := builder.done;
  }

  /** A key of a block is never denied at the block's offset. */
  method BuildAndAsk(hash: Hash, bitsPerKey: nat, blocks: seq<Started>, b: nat, key: Key)
    returns (contents: seq<Byte>, may: bool)
    requires Forward(blocks) && b < |blocks| && key in blocks[b].keys
    ensures |contents| < 0x1_0000_0000 ==> may
  {
    hide IsFilter, Covered, Contents, MayMatch;
    ghost var data, offsets, done;
    contents, data, offsets, done := BuildFilters(hash, bitsPerKey, blocks);
    var reader := new FilterBlockReader(hash, contents);
    may := reader.KeyMayMatch(blocks[b].offset, key);
    if |contents| < 0x1_0000_0000 {
      DataIsShorter(data, offsets);
      assert reader.Readable(data, offsets);
      KeyHasFilter(hash, bitsPerKey, data, offsets, done, blocks, b, key);
    }
  }

  lemma DataIsShorter(data: seq<Byte>, offsets: seq<nat>)
    ensures |data| <= |Contents(data, offsets)|
  {}

  lemma KeyHasFilter(hash: Hash, bitsPerKey: nat, data: seq<Byte>, offsets: seq<nat>, done: seq<seq<Key>>,
          blocks: seq<Started>, b: nat, key: Key)
    requires Filters(hash, bitsPerKey, data, offsets, done) && Covered(blocks, done, [])
    requires b < |blocks| && key in blocks[b].keys
    ensures var i := blocks[b].offset / kFilterBase; i < |offsets| && MayMatch(hash, key, Filter(data, offsets, i))
  {
    hide IsFilter, MayMatch;
    var i := blocks[b].offset / kFilterBase;
    assert CoveredBlock(blocks[b], done, []);
    assert HasPlace(blocks[b].offset, key, done, []);
    var j :| 0 <= j < |done[i]| && done[i][j] == key;
    KeysMatch(hash, done[i], bitsPerKey, Filter(data, offsets, i), j);
  }
}
