/** Blocks of prefix-compressed entries: the builder and the cursor (table/block_builder.cc, table/block.cc). */
module Block {
  import opened Coding
  import opened Common

  type Key = seq<Byte>
  datatype Entry = Entry(key: Key, value: seq<Byte>)

  // ----- the format -----

  /** How many bytes a and b start with in common. */
  function Shared(a: Key, b: Key): (n: nat)
    ensures n <= |a| && n <= |b| && a[..n] == b[..n]
    decreases |a|
  {
    if |a| > 0 && |b| > 0 && a[0] == b[0] then
      var n := Shared(a[1..], b[1..]);
      assert a[..n + 1] == [a[0]] + a[1..][..n] && b[..n + 1] == [b[0]] + b[1..][..n];
      n + 1
    else 0
  }

  /** What entry i leaves to the key before it; restart points, one every interval entries, leave nothing. */
  function SharedAt(es: seq<Entry>, interval: nat, i: nat): (n: nat)
    requires interval > 0 && i < |es|
    ensures n <= |es[i].key|
  {
    if i % interval == 0 then 0 else Shared(es[i - 1].key, es[i].key)
  }

  function Encoded(shared: nat, e: Entry): (s: seq<Byte>)
    requires shared <= |e.key|
    ensures |s| >= 3
  {
    Varint(shared) + (Varint(|e.key| - shared) + (Varint(|e.value|) + (e.key[shared..] + e.value)))
  }

  function Data(es: seq<Entry>, interval: nat): seq<Byte>
    requires interval > 0
    decreases |es|
  {
    if |es| == 0 then []
    else Data(es[..|es| - 1], interval) + Encoded(SharedAt(es, interval, |es| - 1), es[|es| - 1])
  }

  /** Where entry i starts, and the one before ends. */
  function Offset(es: seq<Entry>, interval: nat, i: nat): nat
    requires interval > 0 && i <= |es|
  {
    |Data(es[..i], interval)|
  }

  function NumRestarts(n: nat, interval: nat): (r: nat)
    requires interval > 0
    ensures r > 0
  {
    if n == 0 then 1 else (n - 1) / interval + 1
  }

  lemma RestartIsEntry(n: nat, interval: nat, r: nat)
    requires interval > 0 && r < NumRestarts(n, interval)
    ensures interval * r <= n && (r > 0 || n > 0 ==> interval * r < n) && (interval * r) % interval == 0
  {
    if n > 0 {
      var q := (n - 1) / interval;
      assert r <= q;
      MulLe(r, q, interval);
      DivMod(n - 1, interval);
    }
    Multiple(interval, r);
  }

  lemma Multiple(a: nat, r: nat)
    requires a > 0
    ensures (a * r) % a == 0 && (a * r) / a == r
  {
    DivIs(a * r, a, r, 0);
  }

  /** The entry that restart r points at. */
  function Start(interval: nat, r: nat): nat {
    interval * r
  }

  lemma StartOrder(interval: nat, r: nat)
    requires interval > 0
    ensures Start(interval, 0) == 0 && Start(interval, r) < Start(interval, r + 1)
  {
    OneMoreTimes(interval, r);
  }

  lemma StartMonotone(interval: nat, q: nat, r: nat)
    requires interval > 0 && q <= r
    ensures Start(interval, q) <= Start(interval, r)
    ensures q > 0 ==> 0 < Start(interval, q)
  {
    MulLe(q, r, interval);
    if q > 0 {
      MulLe(1, q, interval);
    }
  }

  function Restarts(es: seq<Entry>, interval: nat): (rs: seq<nat>)
    requires interval > 0
    ensures |rs| == NumRestarts(|es|, interval)
  {
    seq(NumRestarts(|es|, interval), r requires 0 <= r < NumRestarts(|es|, interval) =>
      RestartIsEntry(|es|, interval, r); Offset(es, interval, interval * r))
  }

  function Contents(es: seq<Entry>, interval: nat): (s: seq<Byte>)
    requires interval > 0
    ensures |s| == |Data(es, interval)| + 4 * NumRestarts(|es|, interval) + 4
  {
    Data(es, interval) + Fixed32s(Restarts(es, interval)) + Fixed(4, NumRestarts(|es|, interval))
  }

  // ----- the builder -----

  lemma NextEntry(es: seq<Entry>, interval: nat, e: Entry)
    requires interval > 0
    ensures Data(es + [e], interval) == Data(es, interval) + Encoded(SharedAt(es + [e], interval, |es|), e)
    ensures forall i | 0 <= i <= |es| :: Offset(es + [e], interval, i) == Offset(es, interval, i)
  {
    hide Encoded, SharedAt;
    assert (es + [e])[..|es|] == es;
    forall i | 0 <= i <= |es|
      ensures Offset(es + [e], interval, i) == Offset(es, interval, i)
    {
      assert (es + [e])[..i] == es[..i];
    }
  }

  /** The builder's count since the last restart. */
  function Counter(n: nat, interval: nat): nat
    requires interval > 0
  {
    if n == 0 then 0 else (n - 1) % interval + 1
  }

  lemma CounterTurns(n: nat, interval: nat)
    requires interval > 0
    ensures Counter(n, interval) <= interval
    ensures n % interval == 0 <==> n == 0 || Counter(n, interval) == interval
    ensures Counter(n + 1, interval) == n % interval + 1
    ensures n % interval != 0 ==> n % interval == Counter(n, interval)
    ensures NumRestarts(n + 1, interval) == NumRestarts(n, interval) + if n > 0 && n % interval == 0 then 1 else 0
    ensures n > 0 && n % interval == 0 ==> interval * NumRestarts(n, interval) == n
  {
    if n > 0 {
      var q, c := (n - 1) / interval, (n - 1) % interval;
      DivMod(n - 1, interval);
      OneMoreTimes(interval, q);
      if c + 1 == interval {
        assert n == interval * (q + 1);
        Multiple(interval, q + 1);
      } else {
        DivIs(n, interval, q, c + 1);
      }
    }
  }

  lemma Regroup(a: seq<Byte>, b: seq<Byte>, c: seq<Byte>, d: seq<Byte>, e: seq<Byte>, f: seq<Byte>)
    ensures a + b + c + d + e + f == a + (b + (c + (d + (e + f))))
  {}

  lemma CounterStarts(interval: nat)
    requires interval > 0
    ensures Counter(0, interval) == 0
  {}

  lemma RestartsNext(es: seq<Entry>, interval: nat, e: Entry)
    requires interval > 0
    ensures Restarts(es + [e], interval) ==
      Restarts(es, interval) + if |es| > 0 && |es| % interval == 0 then [|Data(es, interval)|] else []
  {
    hide Data, Encoded, SharedAt, NumRestarts;
    var n := |es|;
    CounterTurns(n, interval);
    NextEntry(es, interval, e);
    var was, now := Restarts(es, interval), Restarts(es + [e], interval);
    assert es[..n] == es;
    forall r | 0 <= r < |was|
      ensures now[r] == was[r]
    {
      RestartIsEntry(n, interval, r);
    }
    assert now[..|was|] == was;
  }

  /** The keys have the first n bytes in common and no more. */
  predicate IsCommon(a: Key, b: Key, n: nat) {
    n <= |a| && n <= |b| && a[..n] == b[..n] && (n < |a| && n < |b| ==> a[n] != b[n])
  }

  lemma EncodedIs(shared: nat, e: Entry)
    requires shared <= |e.key|
    ensures Encoded(shared, e) == Varint(shared) + (Varint(|e.key| - shared) + (Varint(|e.value|) + (e.key[shared..] + e.value)))
  {
    hide Varint;
  }

  class BlockBuilder {
    const interval: nat
    var buffer: seq<Byte>
    var restarts: seq<nat>
    var counter: nat
    var finished: bool
    var lastKey: Key
    ghost var entries: seq<Entry>

    ghost predicate Valid()
      reads this
    {
      && interval > 0
      && buffer == (if finished then Contents(entries, interval) else Data(entries, interval))
      && restarts == Restarts(entries, interval)
      && counter == Counter(|entries|, interval)
      && lastKey == if |entries| == 0 then [] else entries[|entries| - 1].key
    }

    constructor (restartInterval: nat)
      requires restartInterval >= 1
      ensures Valid() && !finished && entries == [] && interval == restartInterval
    {
      interval := restartInterval;
      buffer, restarts, counter, finished, lastKey := [], [0], 0, false, [];
      entries := [];
      new;
      assert Restarts([], interval) == [0];
    }

    method Reset()
      requires Valid()
      modifies this
      ensures Valid() && !finished && entries == []
    {
      buffer, restarts, counter, finished, lastKey := [], [0], 0, false, [];
      entries := [];
      assert Restarts([], interval) == [0];
    }

    /** How much of the last key the new one repeats. */
    method CommonPrefix(key: Key) returns (shared: nat)
      ensures shared == Shared(lastKey, key) && IsCommon(lastKey, key, shared)
    {
      hide Shared;
      shared := 0;
      var minLength := if |lastKey| < |key| then |lastKey| else |key|;
      while shared < minLength && lastKey[shared] == key[shared]
        invariant shared <= minLength && lastKey[..shared] == key[..shared]
      {
        shared := shared + 1;
      }
      SharedIs(lastKey, key, shared);
    }

    method Append(shared: nat, key: Key, value: seq<Byte>)
      requires shared <= |key| && shared <= |lastKey| && lastKey[..shared] == key[..shared]
      requires |key| < 0x1_0000_0000 && |value| < 0x1_0000_0000
      modifies `buffer, `lastKey
      ensures buffer == old(buffer) + Encoded(shared, Entry(key, value)) && lastKey == key
    {
      hide Varint;
      var nonShared := |key| - shared;
      var first := EncodeVarint32(shared);
      var second := EncodeVarint32(nonShared);
      var third := EncodeVarint32(|value|);
      Regroup(buffer, first, second, third, key[shared..], value);
      buffer := buffer + first;
      buffer := buffer + second;
      buffer := buffer + third;
      buffer := buffer + key[shared..];
      buffer := buffer + value;
      lastKey := lastKey[..shared];
      lastKey := lastKey + key[shared..];
    }

    lemma SharedNext(e: Entry, restart: bool)
      requires Valid() && restart == (counter == interval)
      ensures SharedAt(entries + [e], interval, |entries|) == if restart then 0 else Shared(lastKey, e.key)
    {
      hide Data, Contents, Restarts;
      CounterTurns(|entries|, interval);
    }

    /** Every interval-th entry is a restart point, noted by its offset and written with its whole key; any other
        leaves out all it has in common with the key before it. */
    method Add(key: Key, value: seq<Byte>) returns (ghost common: nat)
      requires Valid() && !finished && |key| < 0x1_0000_0000 && |value| < 0x1_0000_0000
      modifies this
      ensures Valid() && !finished && entries == old(entries) + [Entry(key, value)]
      ensures common <= |key| && buffer == old(buffer) +
        (Varint(common) + (Varint(|key| - common) + (Varint(|value|) + (key[common..] + value))))
      ensures old(|entries|) % interval == 0 ==> common == 0
      ensures old(|entries|) % interval != 0 ==> IsCommon(old(lastKey), key, common)
      ensures restarts == old(restarts) + if old(|entries|) > 0 && old(|entries|) % interval == 0 then [|old(buffer)|] else []
    {
      hide Data, Restarts, Contents, NumRestarts, Counter, Shared, Encoded, SharedAt;
      ghost var n, e := |entries|, Entry(key, value);
      CounterTurns(n, interval);
      NextEntry(entries, interval, e);
      RestartsNext(entries, interval, e);
      SharedNext(e, counter == interval);
      CounterStarts(interval);
      var shared := 0;
      if counter < interval {
        shared := CommonPrefix(key);
      } else {
        restarts := restarts + [|buffer|];
        counter := 0;
      }
      Append(shared, key, value);
      counter := counter + 1;
      entries := entries + [e];
      common := shared;
      EncodedIs(shared, e);
    }

    lemma Built()
      requires Valid() && !finished
      ensures buffer == Data(entries, interval)
    {
      hide Data, Contents, Restarts;
    }

    method Finish() returns (block: seq<Byte>)
      requires Valid() && !finished && |buffer| < 0x1_0000_0000
      modifies this
      ensures Valid() && finished && entries == old(entries) && block == Contents(entries, interval)
    {
      hide Data;
      ghost var rs := Restarts(entries, interval);
      for i := 0 to |restarts|
        invariant restarts == rs && entries == old(entries) && lastKey == old(lastKey) && counter == old(counter) && !finished
        invariant buffer == Data(entries, interval) + Fixed32s(rs[..i])
      {
        assert rs[..i + 1][..i] == rs[..i];
        buffer := buffer + Fixed(4, restarts[i]);
      }
      assert rs[..|rs|] == rs;
      buffer := buffer + Fixed(4, |restarts|);
      finished := true;
      block := buffer;
    }
  }

  lemma {:induction false} SharedIs(a: Key, b: Key, n: nat)
    requires IsCommon(a, b, n)
    ensures Shared(a, b) == n
    decreases n
  {
    if n > 0 {
      assert a[0] == a[..n][0] && b[0] == b[..n][0];
      assert a[1..][..n - 1] == a[..n][1..] && b[1..][..n - 1] == b[..n][1..];
      SharedIs(a[1..], b[1..], n - 1);
    }
  }

  // ----- what a built block holds where -----

  /** Lengths the format can write. */
  ghost predicate Fits(es: seq<Entry>, interval: nat)
    requires interval > 0
  {
    && |Contents(es, interval)| < 0x1_0000_0000
    && forall e | e in es :: |e.key| < 0x1_0000_0000 && |e.value| < 0x1_0000_0000
  }

  lemma OffsetStep(es: seq<Entry>, interval: nat, i: nat)
    requires interval > 0 && i < |es|
    ensures Data(es[..i + 1], interval) == Data(es[..i], interval) + Encoded(SharedAt(es, interval, i), es[i])
    ensures Offset(es, interval, i + 1) == Offset(es, interval, i) + |Encoded(SharedAt(es, interval, i), es[i])|
  {
    hide Encoded, Shared;
    assert es[..i + 1] == es[..i] + [es[i]];
    assert es[..i + 1][..i] == es[..i];
    assert SharedAt(es[..i + 1], interval, i) == SharedAt(es, interval, i);
  }

  lemma {:induction false} DataPrefix(es: seq<Entry>, interval: nat, i: nat, j: nat)
    requires interval > 0 && i <= j <= |es|
    ensures Data(es[..i], interval) <= Data(es[..j], interval)
    ensures i < j ==> Offset(es, interval, i) + 3 <= Offset(es, interval, j)
    decreases j
  {
    hide Data, Encoded, SharedAt;
    if i < j {
      DataPrefix(es, interval, i, j - 1);
      OffsetStep(es, interval, j - 1);
    }
  }

  lemma OffsetOrder(es: seq<Entry>, interval: nat, i: nat, j: nat)
    requires interval > 0 && i <= |es| && j <= |es|
    ensures Offset(es, interval, i) < Offset(es, interval, j) <==> i < j
    ensures Offset(es, interval, |es|) == |Data(es, interval)| && Offset(es, interval, 0) == 0
  {
    hide Encoded, SharedAt;
    assert es[..|es|] == es;
    if i <= j {
      DataPrefix(es, interval, i, j);
    } else {
      DataPrefix(es, interval, j, i);
    }
  }

  lemma EntryIsThere(es: seq<Entry>, interval: nat, i: nat)
    requires interval > 0 && i < |es|
    ensures Offset(es, interval, i) < Offset(es, interval, i + 1) <= |Data(es, interval)| <= |Contents(es, interval)|
    ensures Contents(es, interval)[Offset(es, interval, i)..Offset(es, interval, i + 1)] == Encoded(SharedAt(es, interval, i), es[i])
  {
    hide Data, Encoded, SharedAt, Fixed32s, Restarts;
    OffsetStep(es, interval, i);
    DataPrefix(es, interval, i + 1, |es|);
    assert es[..|es|] == es;
    var all, here := Contents(es, interval), Data(es[..i + 1], interval);
    assert all[..|here|] == here;
    assert all[Offset(es, interval, i)..Offset(es, interval, i + 1)] == here[Offset(es, interval, i)..];
  }

  lemma RestartIsThere(es: seq<Entry>, interval: nat, r: nat)
    requires interval > 0 && Fits(es, interval) && r < NumRestarts(|es|, interval)
    ensures var p := |Data(es, interval)| + 4 * r; FixedValue(Contents(es, interval)[p..p + 4]) == Restarts(es, interval)[r]
  {
    hide Data, Encoded, SharedAt, Fixed32s, NumRestarts, Fixed, FixedValue;
    var rs, p := Restarts(es, interval), |Data(es, interval)| + 4 * r;
    RestartIsEntry(|es|, interval, r);
    Fixed32At(rs, r);
    assert Contents(es, interval)[p..p + 4] == Fixed32s(rs)[4 * r..4 * r + 4];
    OffsetOrder(es, interval, interval * r, |es|);
    DataPrefix(es, interval, interval * r, |es|);
    Power256();
    FixedRoundTrip(4, rs[r]);
  }

  lemma CountIsThere(es: seq<Entry>, interval: nat)
    requires interval > 0 && Fits(es, interval)
    ensures var all := Contents(es, interval); FixedValue(all[|all| - 4..]) == NumRestarts(|es|, interval)
  {
    hide Data, Fixed32s, NumRestarts, Fixed, FixedValue;
    var all, n := Contents(es, interval), NumRestarts(|es|, interval);
    assert all[|all| - 4..] == Fixed(4, n);
    Power256();
    FixedRoundTrip(4, n);
  }

  // ----- decoding -----

  /** The entry at p: its three lengths and where its key bytes begin. */
  method DecodeEntry(data: seq<Byte>, p: nat, limit: nat, ghost s: nat, ghost e: Entry)
    returns (shared: nat, nonShared: nat, valueLength: nat, keyAt: nat)
    requires s <= |e.key| < 0x1_0000_0000 && |e.value| < 0x1_0000_0000
    requires p + |Encoded(s, e)| <= limit <= |data| && data[p..p + |Encoded(s, e)|] == Encoded(s, e)
    ensures shared == s && nonShared == |e.key| - s && valueLength == |e.value|
    ensures keyAt + nonShared + valueLength == p + |Encoded(s, e)|
    ensures data[keyAt..keyAt + nonShared] == e.key[s..]
    ensures data[keyAt + nonShared..keyAt + nonShared + valueLength] == e.value
  {
    hide Varint, VarintFrom, NumberOf, Encoded;
    FieldsThere(data, p, s, e);
    ghost var pb := p + |Varint(s)|;
    ghost var pc := pb + |Varint(|e.key| - s)|;
    OneByteEach(data, p, pb, pc, s, |e.key| - s, |e.value|);
    shared := NumberOf(data[p]);
    nonShared := NumberOf(data[p + 1]);
    valueLength := NumberOf(data[p + 2]);
    if shared < 128 && nonShared < 128 && valueLength < 128 {
      keyAt := p + 3;
    } else {
      VarintIn(s, data, p, limit);
      VarintIn(|e.key| - s, data, pb, limit);
      VarintIn(|e.value|, data, pc, limit);
      var r := GetVarintPtr(data[..limit], p, 32);
      shared := r.value;
      r := GetVarintPtr(data[..limit], r.next, 32);
      nonShared := r.value;
      r := GetVarintPtr(data[..limit], r.next, 32);
      valueLength, keyAt := r.value, r.next;
    }
  }

  lemma VarintIn(v: nat, data: seq<Byte>, p: nat, limit: nat)
    requires v < 0x1_0000_0000 && p + |Varint(v)| <= limit <= |data| && data[p..p + |Varint(v)|] == Varint(v)
    ensures VarintFrom(data[..limit], p, 0, 0, 32) == Decoded(v, p + |Varint(v)|)
  {
    hide Varint, VarintFrom;
    assert data[..limit][p..p + |Varint(v)|] == data[p..p + |Varint(v)|];
    VarintDecodes(v, data[..limit], p, 32);
  }

  /** Three bytes below 128 are three one-byte numbers. */
  lemma OneByteEach(data: seq<Byte>, p: nat, pb: nat, pc: nat, a: nat, b: nat, c: nat)
    requires p + |Varint(a)| == pb <= pb + |Varint(b)| == pc <= pc + |Varint(c)| <= |data|
    requires data[p..pb] == Varint(a) && data[pb..pc] == Varint(b) && data[pc..pc + |Varint(c)|] == Varint(c)
    ensures p + 3 <= |data|
    ensures NumberOf(data[p]) < 128 && NumberOf(data[p + 1]) < 128 && NumberOf(data[p + 2]) < 128 ==>
      NumberOf(data[p]) == a && NumberOf(data[p + 1]) == b && NumberOf(data[p + 2]) == c && pc + |Varint(c)| == p + 3
  {
    hide Varint, NumberOf;
    VarintBytes(a, data, p);
    VarintBytes(b, data, pb);
    VarintBytes(c, data, pc);
  }

  lemma Parts(data: seq<Byte>, p: nat, first: seq<Byte>, rest: seq<Byte>)
    requires p + |first + rest| <= |data| && data[p..p + |first + rest|] == first + rest
    ensures data[p..p + |first|] == first && data[p + |first|..p + |first| + |rest|] == rest
  {
    var t := data[p..p + |first + rest|];
    assert t[..|first|] == first && t[|first|..] == rest;
  }

  lemma FieldsThere(data: seq<Byte>, p: nat, s: nat, e: Entry)
    requires s <= |e.key| && p + |Encoded(s, e)| <= |data| && data[p..p + |Encoded(s, e)|] == Encoded(s, e)
    ensures var a, b, c := Varint(s), Varint(|e.key| - s), Varint(|e.value|);
      var pb := p + |a|; var pc := pb + |b|; var pk := pc + |c|; var pv := pk + |e.key| - s;
      && pv + |e.value| == p + |Encoded(s, e)|
      && data[p..pb] == a && data[pb..pc] == b && data[pc..pk] == c
      && data[pk..pv] == e.key[s..] && data[pv..pv + |e.value|] == e.value
  {
    hide Varint;
    FiveParts(data, p, Varint(s), Varint(|e.key| - s), Varint(|e.value|), e.key[s..], e.value);
  }

  lemma FiveParts(data: seq<Byte>, p: nat, a: seq<Byte>, b: seq<Byte>, c: seq<Byte>, k: seq<Byte>, v: seq<Byte>)
    requires p + |a| + |b| + |c| + |k| + |v| <= |data|
    requires data[p..p + |a| + |b| + |c| + |k| + |v|] == a + (b + (c + (k + v)))
    ensures var pb := p + |a|; var pc := pb + |b|; var pk := pc + |c|; var pv := pk + |k|;
      data[p..pb] == a && data[pb..pc] == b && data[pc..pk] == c && data[pk..pv] == k && data[pv..pv + |v|] == v
  {
    Parts(data, p, a, b + (c + (k + v)));
    Parts(data, p + |a|, b, c + (k + v));
    Parts(data, p + |a| + |b|, c, k + v);
    Parts(data, p + |a| + |b| + |c|, k, v);
  }

  // ----- the cursor -----

  /** Keys strictly increase in the comparator's order, given as a place for each key. */
  ghost predicate Increasing(es: seq<Entry>, order: Key -> real) {
    forall i, j | 0 <= i < j < |es| :: order(es[i].key) < order(es[j].key)
  }

  /** The first entry not below the target. */
  ghost function FirstNotBelow(es: seq<Entry>, order: Key -> real, target: Key): (i: nat)
    ensures i <= |es|
    ensures forall j | 0 <= j < i :: order(es[j].key) < order(target)
    ensures i < |es| ==> order(es[i].key) >= order(target)
    decreases |es|
  {
    if |es| == 0 then 0
    else
      var i := FirstNotBelow(es[..|es| - 1], order, target);
      if i < |es| - 1 || order(es[|es| - 1].key) >= order(target) then i else |es|
  }

  datatype Move = First | Last | Next | Prev | Seek(target: Key)

  /** Where a plain cursor on the list goes; |es| is off the end. */
  ghost function Moved(es: seq<Entry>, order: Key -> real, at: nat, move: Move): (to: nat)
    requires at <= |es|
    ensures to <= |es|
  {
    match move
    case First => 0
    case Last => if |es| == 0 then 0 else |es| - 1
    case Next => if at < |es| then at + 1 else at
    case Prev => if at == 0 then |es| else at - 1
    case Seek(target) => FirstNotBelow(es, order, target)
  }

  lemma IsFirstNotBelow(es: seq<Entry>, order: Key -> real, target: Key, i: nat)
    requires Increasing(es, order) && i <= |es|
    requires i > 0 ==> order(es[i - 1].key) < order(target)
    requires i < |es| ==> order(es[i].key) >= order(target)
    ensures i == FirstNotBelow(es, order, target)
  {
    hide Increasing;
    var k := FirstNotBelow(es, order, target);
    if k < i {
      InOrder(es, order, k, i - 1);
    }
  }

  lemma InOrder(es: seq<Entry>, order: Key -> real, i: nat, j: nat)
    requires Increasing(es, order) && i <= j < |es|
    ensures order(es[i].key) <= order(es[j].key)
  {}

  class BlockIter {
    const data: seq<Byte>
    const restarts: nat
    const numRestarts: nat
    const order: Key -> real
    ghost const es: seq<Entry>
    ghost const interval: nat
    var current: nat
    var restartIndex: nat
    var key: Key
    var valueAt: nat
    var valueLength: nat
    ghost var at: nat

    ghost predicate Built() {
      && interval > 0 && Fits(es, interval) && data == Contents(es, interval)
      && restarts == |Data(es, interval)| && numRestarts == NumRestarts(|es|, interval)
      && Increasing(es, order)
    }

    /** On entry at. The restart block is one that the entry is in or begins just after. */
    ghost predicate On()
      reads this
    {
      && Built() && at < |es|
      && current == Offset(es, interval, at) && key == es[at].key
      && valueAt + valueLength == Offset(es, interval, at + 1) <= |data| && data[valueAt..valueAt + valueLength] == es[at].value
      && restartIndex < numRestarts
      && Start(interval, restartIndex) <= at && (restartIndex + 1 < numRestarts ==> at <= Start(interval, restartIndex + 1))
    }

    ghost predicate Valid()
      reads this
    {
      && Built() && at <= |es|
      && (if at == |es| then current == restarts && restartIndex == numRestarts else On())
    }

    /** The value slice ends where entry j begins, and key has what entry j shares. */
    ghost predicate Before(j: nat)
      reads this
    {
      && Built() && j <= |es|
      && valueAt + valueLength == Offset(es, interval, j)
      && (j < |es| ==> SharedAt(es, interval, j) <= |key| && key[..SharedAt(es, interval, j)] == es[j].key[..SharedAt(es, interval, j)])
      && restartIndex < numRestarts && Start(interval, restartIndex) <= j
    }

    constructor (block: seq<Byte>, comparator: Key -> real, ghost entries: seq<Entry>, ghost restartInterval: nat)
      requires restartInterval > 0 && Fits(entries, restartInterval) && block == Contents(entries, restartInterval)
      requires Increasing(entries, comparator)
      ensures Valid() && es == entries && order == comparator && at == |es|
    {
      hide Data, Contents, FixedValue, NumRestarts;
      CountIsThere(entries, restartInterval);
      data, order := block, comparator;
      es, interval := entries, restartInterval;
      var n := FixedValue(block[|block| - 4..]);
      numRestarts, restarts := n, |block| - (1 + n) * 4;
      current, restartIndex := |block| - (1 + n) * 4, n;
      key, valueAt, valueLength := [], 0, 0;
      at := |entries|;
    }

    /** Valid() of the program. */
    predicate OnEntry()
      reads this
    {
      current < restarts
    }

    lemma OnEntryIs()
      requires Valid()
      ensures OnEntry() <==> at < |es|
    {
      hide Data, Contents, NumRestarts, Restarts;
      OffsetOrder(es, interval, at, |es|);
    }

    method GetRestartPoint(index: nat) returns (offset: nat)
      requires Built() && index < numRestarts
      ensures Start(interval, index) <= |es| && (|es| > 0 ==> Start(interval, index) < |es|)
      ensures Start(interval, index) % interval == 0
      ensures offset == Offset(es, interval, Start(interval, index))
    {
      hide Data, FixedValue, NumRestarts, Contents;
      RestartIsEntry(|es|, interval, index);
      RestartIsThere(es, interval, index);
      offset := FixedValue(data[restarts + 4 * index..restarts + 4 * index + 4]);
    }

    method SeekToRestartPoint(index: nat)
      requires Built() && index < numRestarts
      modifies this
      ensures Start(interval, index) <= |es| && (|es| > 0 ==> Start(interval, index) < |es|)
      ensures Before(Start(interval, index)) && restartIndex == index
    {
      hide Data, NumRestarts, Contents;
      key := [];
      restartIndex := index;
      var offset := GetRestartPoint(index);
      valueAt, valueLength := offset, 0;
    }

    lemma OnIsBefore()
      requires On()
      ensures Before(at + 1)
    {
      hide Data, NumRestarts, Contents;
    }

    /** To the entry the state is before, or off the end. */
    method ParseNextKey(ghost j: nat) returns (ok: bool)
      requires Before(j)
      modifies this
      ensures Valid() && at == j && ok == (j < |es|)
    {
      hide Data, NumRestarts, Contents, Encoded, SharedAt, Fits;
      ghost var i := restartIndex;
      OffsetOrder(es, interval, j, |es|);
      current := valueAt + valueLength;
      at := j;
      if current >= restarts {
        current := restarts;
        restartIndex := numRestarts;
        return false;
      }
      EntryIsThere(es, interval, j);
      ghost var s := SharedAt(es, interval, j);
      EntryFits(j);
      var shared, nonShared, length, keyAt := DecodeEntry(data, current, restarts, s, es[j]);
      key := key[..shared];
      key := key + data[keyAt..keyAt + nonShared];
      valueAt, valueLength := keyAt + nonShared, length;
      AdvanceRestartIndex();
      ok := true;
    }

    lemma EntryFits(j: nat)
      requires Built() && j < |es|
      ensures |es[j].key| < 0x1_0000_0000 && |es[j].value| < 0x1_0000_0000
    {
      hide Contents;
    }

    method AdvanceRestartIndex()
      requires Built() && at < |es| && current == Offset(es, interval, at)
      requires restartIndex < numRestarts && Start(interval, restartIndex) <= at
      modifies `restartIndex
      ensures restartIndex < numRestarts && Start(interval, restartIndex) <= at
      ensures restartIndex + 1 < numRestarts ==> at <= Start(interval, restartIndex + 1)
    {
      hide Data, NumRestarts, Contents, Fits;
      while restartIndex + 1 < numRestarts
        invariant restartIndex < numRestarts && Start(interval, restartIndex) <= at
        decreases numRestarts - restartIndex
      {
        var next := GetRestartPoint(restartIndex + 1);
        OffsetOrder(es, interval, Start(interval, restartIndex + 1), at);
        if next >= current {
          break;
        }
        restartIndex := restartIndex + 1;
      }
    }

    method Next()
      requires Valid() && at < |es|
      modifies this
      ensures Valid() && at == Moved(es, order, old(at), Move.Next) && at == old(at) + 1
    {
      hide Data, NumRestarts, Contents, Encoded, SharedAt, Fits, On, Before;
      OnIsBefore();
      var _ := ParseNextKey(at + 1);
    }

    method SeekToFirst()
      requires Valid()
      modifies this
      ensures Valid() && at == Moved(es, order, old(at), First) && at == 0
    {
      hide Data, NumRestarts, Contents, Encoded, SharedAt, Fits, On, Before, Start;
      SomeRestart();
      StartOrder(interval, 0);
      SeekToRestartPoint(0);
      var _ := ParseNextKey(0);
    }

    lemma SomeRestart()
      requires Built()
      ensures numRestarts > 0 && interval > 0
    {
      hide Data, Contents, Fits;
    }

    method SeekToLast()
      requires Valid()
      modifies this
      ensures Valid() && at == Moved(es, order, old(at), Last) && at == if |es| == 0 then 0 else |es| - 1
    {
      hide Data, NumRestarts, Contents, Encoded, SharedAt, Fits, On, Before, Start;
      SomeRestart();
      SeekToRestartPoint(numRestarts - 1);
      OffsetOrder(es, interval, |es|, |es|);
      ScanTo(Start(interval, numRestarts - 1), |es|, restarts);
    }

    /** Parses on from entry j until an entry ends where entry k begins. */
    method ScanTo(ghost j: nat, ghost k: nat, stop: nat)
      requires Before(j) && j <= k <= |es| && (j == k ==> k == |es|)
      requires Built() && stop == Offset(es, interval, k)
      modifies this
      ensures Valid() && at == if j < k then k - 1 else |es|
    {
      hide Data, NumRestarts, Contents, Encoded, SharedAt, Fits, Before, Start;
      var more := ParseNextKey(j);
      while more && valueAt + valueLength < stop
        invariant Valid() && more == (at < |es|)
        invariant if j < k then at < k else at == |es|
        decreases |es| - at
      {
        OnIsBefore();
        OffsetOrder(es, interval, at + 1, k);
        more := ParseNextKey(at + 1);
      }
      if more {
        OffsetOrder(es, interval, at + 1, k);
      }
    }

    method Prev()
      requires Valid() && at < |es|
      modifies this
      ensures Valid() && at == Moved(es, order, old(at), Move.Prev)
      ensures at == if old(at) == 0 then |es| else old(at) - 1
    {
      hide Data, NumRestarts, Contents, Encoded, SharedAt, Fits, Before;
      var original := current;
      ghost var k := at;
      var found := true;
      while found
        invariant Built() && at == k && original == Offset(es, interval, k) && restartIndex < numRestarts
        invariant !found ==> Start(interval, restartIndex) < k
        decreases found, restartIndex
      {
        var point := GetRestartPoint(restartIndex);
        OffsetOrder(es, interval, Start(interval, restartIndex), k);
        if point < original {
          found := false;
        } else if restartIndex == 0 {
          StartOrder(interval, 0);
          at := |es|;
          current := restarts;
          restartIndex := numRestarts;
          return;
        } else {
          restartIndex := restartIndex - 1;
        }
      }
      SeekToRestartPoint(restartIndex);
      ScanTo(Start(interval, restartIndex), k, original);
    }

    /** The full key at a restart point. */
    method RestartKey(index: nat) returns (midKey: Key)
      requires Built() && index < numRestarts && |es| > 0
      ensures Start(interval, index) < |es| && midKey == es[Start(interval, index)].key
    {
      hide Data, NumRestarts, Contents, Encoded, Shared, Fits, Start;
      var regionOffset := GetRestartPoint(index);
      ghost var j := Start(interval, index);
      EntryIsThere(es, interval, j);
      EntryFits(j);
      var shared, nonShared, valueLength, keyAt := DecodeEntry(data, regionOffset, restarts, 0, es[j]);
      midKey := data[keyAt..keyAt + nonShared];
      assert es[j].key[0..] == es[j].key;
    }

    /** Entries up to restart left are below the target, or left is the first; those from the restart after right on are not. */
    ghost predicate Narrowed(left: nat, right: nat, target: Key) {
      && Built() && left <= right < numRestarts
      && (left > 0 ==> Start(interval, left) < |es| && order(es[Start(interval, left)].key) < order(target))
      && (forall r | right < r < numRestarts :: Start(interval, r) < |es| ==> order(es[Start(interval, r)].key) >= order(target))
    }

    lemma LeftFromHere(target: Key)
      requires On() && order(key) < order(target)
      ensures Narrowed(restartIndex, numRestarts - 1, target)
    {
      hide Data, NumRestarts, Contents, Fits, Start;
      var j := Start(interval, restartIndex);
      assert order(es[j].key) <= order(es[at].key);
    }

    lemma RightFromHere(target: Key)
      requires On() && order(key) > order(target)
      ensures Narrowed(0, restartIndex, target)
    {
      hide Data, NumRestarts, Contents, Fits, Start;
      forall r | restartIndex < r < numRestarts && Start(interval, r) < |es|
        ensures order(es[Start(interval, r)].key) >= order(target)
      {
        StartMonotone(interval, restartIndex + 1, r);
        assert order(es[at].key) <= order(es[Start(interval, r)].key);
      }
    }

    /** The binary search over the restart points. */
    method FindRestart(left0: nat, right0: nat, target: Key) returns (left: nat)
      requires Narrowed(left0, right0, target)
      ensures left0 <= left && Narrowed(left, left, target)
    {
      hide Data, NumRestarts, Contents, Fits, Start;
      left := left0;
      var right: nat := right0;
      while left < right
        invariant left0 <= left && Narrowed(left, right, target)
      {
        var mid := (left + right + 1) / 2;
        SeveralRestarts(mid);
        var midKey := RestartKey(mid);
        if order(midKey) < order(target) {
          left := mid;
        } else {
          NarrowRight(left, mid, right, target);
          right := mid - 1;
        }
      }
    }

    lemma SeveralRestarts(r: nat)
      requires Built() && 0 < r < numRestarts
      ensures |es| > 0
    {
      hide Data, Contents, Fits;
    }

    lemma NarrowRight(left: nat, mid: nat, right: nat, target: Key)
      requires Narrowed(left, right, target) && left < mid <= right
      requires Start(interval, mid) < |es| && order(es[Start(interval, mid)].key) >= order(target)
      ensures Narrowed(left, mid - 1, target)
    {
      hide Data, NumRestarts, Contents, Fits, Start;
      forall r | mid <= r < numRestarts && Start(interval, r) < |es|
        ensures order(es[Start(interval, r)].key) >= order(target)
      {
        StartMonotone(interval, mid, r);
        assert order(es[Start(interval, mid)].key) <= order(es[Start(interval, r)].key);
      }
    }

    /** Parses on from entry j to the first that is not below the target. */
    method ScanFor(ghost j: nat, target: Key)
      requires Before(j) && (j > 0 ==> order(es[j - 1].key) < order(target))
      modifies this
      ensures Valid() && at == FirstNotBelow(es, order, target)
    {
      hide Data, NumRestarts, Contents, Encoded, SharedAt, Fits, Before, Start, FirstNotBelow, On;
      var more := ParseNextKey(j);
      StillIncreasing();
      while more && order(key) < order(target)
        invariant Valid() && more == (at < |es|) && Increasing(es, order)
        invariant at > 0 ==> order(es[at - 1].key) < order(target)
        decreases |es| - at
      {
        OnIsBefore();
        KeyIs();
        more := ParseNextKey(at + 1);
      }
      if more {
        KeyIs();
      }
      IsFirstNotBelow(es, order, target, at);
    }

    lemma StillIncreasing()
      requires Built()
      ensures Increasing(es, order)
    {}

    lemma KeyIs()
      requires On()
      ensures at < |es| && key == es[at].key
    {
      hide Data, NumRestarts, Contents, Fits;
    }

    lemma StartIsBelow(left: nat, target: Key)
      requires Narrowed(left, left, target) && left > 0
      ensures Start(interval, left) > 0 && Start(interval, left) - 1 < |es| && order(es[Start(interval, left) - 1].key) < order(target)
    {
      hide Data, NumRestarts, Contents, Fits, Start;
      StartOrder(interval, 0);
      StartMonotone(interval, 1, left);
      assert order(es[Start(interval, left) - 1].key) < order(es[Start(interval, left)].key);
    }

    method Seek(target: Key)
      requires Valid()
      modifies this
      ensures Valid() && at == Moved(es, order, old(at), Move.Seek(target)) && at <= |es|
      ensures forall j | 0 <= j < at :: order(es[j].key) < order(target)
      ensures at < |es| ==> order(es[at].key) >= order(target)
    {
      hide Data, NumRestarts, Contents, Encoded, SharedAt, Fits, Before, Start, FirstNotBelow, Narrowed, Offset, On;
      SomeRestart();
      OnEntryIs();
      var left, right := 0, numRestarts - 1;
      var compare := 0;
      if OnEntry() {
        KeyIs();
        StillIncreasing();
        if order(key) < order(target) {
          compare := -1;
          LeftFromHere(target);
          left := restartIndex;
        } else if order(key) > order(target) {
          compare := 1;
          RightFromHere(target);
          right := restartIndex;
        } else {
          AlreadyThere(target);
          return;
        }
      } else {
        NoNarrowing(target);
      }
      left := FindRestart(left, right, target);
      NarrowedBounds(left, target);
      var skipSeek := left == restartIndex && compare < 0;
      if skipSeek {
        OnIsBefore();
        ScanFor(at + 1, target);
      } else {
        if left > 0 {
          StartIsBelow(left, target);
        }
        StartOrder(interval, 0);
        SeekToRestartPoint(left);
        ScanFor(Start(interval, left), target);
      }
    }

    method Step(move: Move)
      requires Valid() && (move.Next? || move.Prev? ==> at < |es|)
      modifies this
      ensures Valid() && at == Moved(es, order, old(at), move)
    {
      hide Valid, Moved;
      match move {
        case First => SeekToFirst();
        case Last => SeekToLast();
        case Next => Next();
        case Prev => Prev();
        case Seek(target) => Seek(target);
      }
    }

    method Shown() returns (shown: seq<Entry>)
      requires Valid()
      ensures shown == if at < |es| then [es[at]] else []
    {
      hide Contents, Data, NumRestarts, Fits;
      OnEntryIs();
      shown := [];
      if OnEntry() {
        shown := [Entry(key, data[valueAt..valueAt + valueLength])];
      }
    }

    lemma AlreadyThere(target: Key)
      requires On() && order(key) == order(target)
      ensures at == FirstNotBelow(es, order, target)
    {
      hide Data, NumRestarts, Contents, Fits, FirstNotBelow;
      assert at > 0 ==> order(es[at - 1].key) < order(es[at].key);
      IsFirstNotBelow(es, order, target, at);
    }

    lemma NoNarrowing(target: Key)
      requires Built()
      ensures Narrowed(0, numRestarts - 1, target)
    {
      hide Data, Contents, Fits;
    }

    lemma NarrowedBounds(left: nat, target: Key)
      requires Narrowed(left, left, target)
      ensures left < numRestarts && Built()
    {
      hide Data, NumRestarts, Contents, Fits;
    }
  }

  ghost function Path(es: seq<Entry>, order: Key -> real, at: nat, moves: seq<Move>): (r: nat)
    requires at <= |es|
    ensures r <= |es|
    decreases |moves|
  {
    if |moves| == 0 then at else Path(es, order, Moved(es, order, at, moves[0]), moves[1..])
  }

  /** Next and Prev are asked for only on an entry. */
  ghost predicate Legal(es: seq<Entry>, order: Key -> real, at: nat, moves: seq<Move>)
    requires at <= |es|
    decreases |moves|
  {
    |moves| > 0 ==>
      && (moves[0].Next? || moves[0].Prev? ==> at < |es|)
      && Legal(es, order, Moved(es, order, at, moves[0]), moves[1..])
  }

  method Build(entries: seq<Entry>, interval: nat) returns (block: seq<Byte>)
    requires interval >= 1 && Fits(entries, interval)
    ensures block == Contents(entries, interval)
  {
    hide Contents, Data, NumRestarts, Varint, IsCommon, Restarts;
    var builder := new BlockBuilder(interval);
    for i := 0 to |entries|
      invariant fresh(builder) && builder.Valid() && !builder.finished && builder.interval == interval && builder.entries == entries[..i]
    {
      LengthsFit(entries, interval, i);
      var _ := builder.Add(entries[i].key, entries[i].value);
    }
    assert entries[..|entries|] == entries;
    DataFits(entries, interval);
    builder.Built();
    block := builder.Finish();
  }

  /** Whatever is built, and however a cursor is moved on it, it shows the entry where a plain cursor would be. */
  method BuildAndMove(entries: seq<Entry>, interval: nat, order: Key -> real, moves: seq<Move>)
    returns (shown: seq<Entry>)
    requires interval >= 1 && Fits(entries, interval) && Increasing(entries, order)
    requires Legal(entries, order, |entries|, moves)
    ensures var i := Path(entries, order, |entries|, moves); shown == if i < |entries| then [entries[i]] else []
  {
    hide Contents, Data, Path, Legal, NumRestarts, Moved, Increasing, Fits;
    var block := Build(entries, interval);
    var iter := new BlockIter(block, order, entries, interval);
    assert moves[0..] == moves;
    for i := 0 to |moves|
      invariant fresh(iter) && iter.Valid() && iter.es == entries && iter.order == order
      invariant Legal(entries, order, iter.at, moves[i..])
      invariant Path(entries, order, iter.at, moves[i..]) == Path(entries, order, |entries|, moves)
    {
      LegalStep(entries, order, iter.at, moves[i..]);
      assert moves[i..][0] == moves[i] && moves[i..][1..] == moves[i + 1..];
      iter.Step(moves[i]);
    }
    PathOf(entries, order, iter.at, moves[|moves|..]);
    shown := iter.Shown();
  }

  lemma LengthsFit(es: seq<Entry>, interval: nat, i: nat)
    requires interval > 0 && Fits(es, interval) && i < |es|
    ensures |es[i].key| < 0x1_0000_0000 && |es[i].value| < 0x1_0000_0000
  {
    hide Contents;
  }

  lemma DataFits(es: seq<Entry>, interval: nat)
    requires interval > 0 && Fits(es, interval)
    ensures |Data(es, interval)| < 0x1_0000_0000
  {
    hide Data;
  }

  lemma PathOf(es: seq<Entry>, order: Key -> real, at: nat, moves: seq<Move>)
    requires at <= |es|
    ensures |moves| == 0 ==> Path(es, order, at, moves) == at
  {}

  lemma LegalStep(es: seq<Entry>, order: Key -> real, at: nat, moves: seq<Move>)
    requires at <= |es| && |moves| > 0 && Legal(es, order, at, moves)
    ensures moves[0].Next? || moves[0].Prev? ==> at < |es|
    ensures Legal(es, order, Moved(es, order, at, moves[0]), moves[1..])
    ensures Path(es, order, at, moves) == Path(es, order, Moved(es, order, at, moves[0]), moves[1..])
  {}
}
