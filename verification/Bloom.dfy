/** The Bloom filter policy (util/bloom.cc). The hash is any function to 32-bit numbers. */
module Bloom {
  import opened Coding
  import opened Common

  type Key = seq<Byte>

  const WORD: nat := 0x1_0000_0000

  type Hash = h: Key -> nat | forall k :: h(k) < WORD witness k => 0

  // ----- probes -----

  /** h rotated right by seventeen bits. */
  function Delta(h: nat): nat {
    h / 0x2_0000 + h % 0x2_0000 * 0x8000
  }

  /** The hash value of probe j, by double hashing. */
  function Probe(h: nat, j: nat): nat {
    if j == 0 then h else (Probe(h, j - 1) + Delta(h)) % WORD
  }

  /** Probe j is j rotated hashes past the hash. */
  lemma {:induction false} ProbeIs(h: nat, j: nat)
    requires h < WORD
    ensures Probe(h, j) == (h + j * Delta(h)) % WORD
  {
    if j > 0 {
      ProbeIs(h, j - 1);
      OneMoreTimes(Delta(h), j - 1);
      AddThenMod(h + (j - 1) * Delta(h), Delta(h));
    }
  }

  lemma AddThenMod(a: nat, b: nat)
    ensures (a % WORD + b) % WORD == (a + b) % WORD
  {}

  /** Rotated on by fifteen bits the hash is back. */
  lemma DeltaRotates(h: nat)
    requires h < WORD
    ensures Delta(h) < WORD && Delta(h) / 0x8000 + Delta(h) % 0x8000 * 0x2_0000 == h
  {
    var high, low := h / 0x2_0000, h % 0x2_0000;
    assert Delta(h) == low * 0x8000 + high && high < 0x8000;
  }

  // ----- bits of a byte string -----

  function Mask(i: nat): Byte
    requires i < 8
  {
    if i == 0 then 1 else if i == 1 then 2 else if i == 2 then 4 else if i == 3 then 8
    else if i == 4 then 16 else if i == 5 then 32 else if i == 6 then 64 else 128
  }

  predicate HasBit(b: Byte, i: nat)
    requires i < 8
  {
    b & Mask(i) != 0
  }

  predicate BitIsSet(bytes: seq<Byte>, p: nat)
    requires p / 8 < |bytes|
  {
    HasBit(bytes[p / 8], p % 8)
  }

  lemma OrSets(b: Byte, i: nat, j: nat)
    requires i < 8 && j < 8
    ensures HasBit(b | Mask(i), j) <==> HasBit(b, j) || i == j
  {}

  lemma NoBits(j: nat)
    requires j < 8
    ensures !HasBit(0, j)
  {}

  function SetBit(bytes: seq<Byte>, p: nat): (r: seq<Byte>)
    requires p / 8 < |bytes|
    ensures |r| == |bytes|
  {
    bytes[p / 8 := bytes[p / 8] | Mask(p % 8)]
  }

  lemma SetBitSets(bytes: seq<Byte>, p: nat, q: nat)
    requires p / 8 < |bytes| && q / 8 < |bytes|
    ensures BitIsSet(SetBit(bytes, p), q) <==> BitIsSet(bytes, q) || p == q
  {
    hide HasBit, Mask;
    if p / 8 == q / 8 {
      OrSets(bytes[p / 8], p % 8, q % 8);
      assert p == q <==> p % 8 == q % 8;
    }
  }

  // ----- the filter -----

  function Probes(bitsPerKey: nat): (k: nat)
    ensures 1 <= k <= 30
    ensures 100 * k <= 69 * bitsPerKey || k == 1
    ensures 69 * bitsPerKey < 100 * (k + 1) || k == 30
  {
    var k := (bitsPerKey as real * 0.69).Floor;
    if k < 1 then 1 else if k > 30 then 30 else k
  }

  function FilterBytes(n: nat, bitsPerKey: nat): (bytes: nat)
    ensures bytes >= 8
    ensures n * bitsPerKey <= 8 * bytes && (8 * (bytes - 1) < n * bitsPerKey || bytes == 8)
  {
    var bits := n * bitsPerKey;
    ((if bits < 64 then 64 else bits) + 7) / 8
  }

  /** Some probe of some key of the list falls on bit p. */
  ghost predicate Hit(hash: Hash, keys: seq<Key>, k: nat, bits: nat, p: nat)
    requires bits > 0
  {
    exists i, j :: 0 <= i < |keys| && 0 <= j < k && Falls(hash(keys[i]), j, bits, p)
  }

  predicate Falls(h: nat, j: nat, bits: nat, p: nat)
    requires bits > 0
  {
    Probe(h, j) % bits == p
  }

  /** The bits are just those that the keys' probes fall on, and the number of probes follows. */
  ghost predicate IsFilter(hash: Hash, keys: seq<Key>, bitsPerKey: nat, filter: seq<Byte>) {
    var size := FilterBytes(|keys|, bitsPerKey);
    && |filter| == size + 1
    && filter[size] == ByteOf(Probes(bitsPerKey))
    && forall p | 0 <= p < 8 * size :: BitIsSet(filter[..size], p) <==> Hit(hash, keys, Probes(bitsPerKey), 8 * size, p)
  }

  method CreateFilter(hash: Hash, keys: seq<Key>, bitsPerKey: nat, dst: seq<Byte>) returns (r: seq<Byte>)
    ensures dst <= r && IsFilter(hash, keys, bitsPerKey, r[|dst|..])
  {
    hide BitIsSet, Probes, ByteOf, Probe;
    var k := Probes(bitsPerKey);
    var bits := |keys| * bitsPerKey;
    if bits < 64 {
      bits := 64;
    }
    var size := (bits + 7) / 8;
    bits := size * 8;
    var bytes: seq<Byte> := seq(size, i => 0);
    AllClear(bytes);
    for i := 0 to |keys|
      invariant |bytes| == size
      invariant forall p | 0 <= p < bits :: BitIsSet(bytes, p) <==> Hit(hash, keys[..i], k, bits, p)
    {
      var h := hash(keys[i]);
      ghost var h0 := h;
      var delta := Delta(h);
      ghost var before := bytes;
      ProbeStarts(h0);
      for j := 0 to k
        invariant |bytes| == size && h == Probe(h0, j)
        invariant forall p | 0 <= p < bits :: BitIsSet(bytes, p) <==> BitIsSet(before, p) || exists m :: 0 <= m < j && Falls(h0, m, bits, p)
      {
        var bitpos := h % bits;
        ghost var was := bytes;
        bytes := SetBit(bytes, bitpos);
        OneProbe(was, before, h0, j, bits);
        ProbeNext(h0, j);
        h := (h + delta) % WORD;
      }
      OneKey(hash, keys, i, k, bits);
    }
    assert keys[..|keys|] == keys;
    r := dst + bytes;
    r := r + [ByteOf(k)];
    assert r[|dst|..][..size] == bytes;
  }

  lemma ProbeStarts(h: nat)
    ensures Probe(h, 0) == h
  {}

  lemma ProbeNext(h: nat, j: nat)
    ensures Probe(h, j + 1) == (Probe(h, j) + Delta(h)) % WORD
  {}

  lemma AllClear(bytes: seq<Byte>)
    requires forall i | 0 <= i < |bytes| :: bytes[i] == 0
    ensures forall p | 0 <= p < 8 * |bytes| :: !BitIsSet(bytes, p)
  {
    forall p | 0 <= p < 8 * |bytes|
      ensures !BitIsSet(bytes, p)
    {
      NoBits(p % 8);
    }
  }

  lemma OneProbe(was: seq<Byte>, before: seq<Byte>, h0: nat, j: nat, bits: nat)
    requires bits == 8 * |was| == 8 * |before| && bits > 0
    requires forall p | 0 <= p < bits :: BitIsSet(was, p) <==> BitIsSet(before, p) || exists m :: 0 <= m < j && Falls(h0, m, bits, p)
    ensures var now := SetBit(was, Probe(h0, j) % bits);
      forall p | 0 <= p < bits :: BitIsSet(now, p) <==> BitIsSet(before, p) || exists m :: 0 <= m < j + 1 && Falls(h0, m, bits, p)
  {
    hide BitIsSet, Probe, SetBit;
    var at := Probe(h0, j) % bits;
    var now := SetBit(was, at);
    forall p | 0 <= p < bits
      ensures BitIsSet(now, p) <==> BitIsSet(before, p) || exists m :: 0 <= m < j + 1 && Falls(h0, m, bits, p)
    {
      SetBitSets(was, at, p);
      assert Falls(h0, j, bits, p) <==> at == p;
    }
  }

  lemma OneKey(hash: Hash, keys: seq<Key>, i: nat, k: nat, bits: nat)
    requires i < |keys| && bits > 0
    ensures forall p | 0 <= p < bits ::
      Hit(hash, keys[..i + 1], k, bits, p) <==> Hit(hash, keys[..i], k, bits, p) || exists m :: 0 <= m < k && Falls(hash(keys[i]), m, bits, p)
  {
    hide Probe;
    var was, now := keys[..i], keys[..i + 1];
    forall p | 0 <= p < bits
      ensures Hit(hash, now, k, bits, p) <==> Hit(hash, was, k, bits, p) || exists m :: 0 <= m < k && Falls(hash(keys[i]), m, bits, p)
    {
      if Hit(hash, now, k, bits, p) {
        var a, m :| 0 <= a < |now| && 0 <= m < k && Falls(hash(now[a]), m, bits, p);
        assert a < i ==> now[a] == was[a];
      }
      if Hit(hash, was, k, bits, p) {
        var a, m :| 0 <= a < |was| && 0 <= m < k && Falls(hash(was[a]), m, bits, p);
        assert now[a] == was[a];
      }
      if m :| 0 <= m < k && Falls(hash(keys[i]), m, bits, p) {
        assert now[i] == keys[i];
      }
    }
  }

  // ----- asking -----

  /** What the policy answers: every probe's bit is set, a filter of another kind matches, and an empty one does not. */
  ghost predicate MayMatch(hash: Hash, key: Key, filter: seq<Byte>) {
    |filter| >= 2 &&
    var k := NumberOf(filter[|filter| - 1]);
    var bytes := filter[..|filter| - 1];
    k > 30 || forall j | 0 <= j < k :: BitIsSet(bytes, Probe(hash(key), j) % (8 * |bytes|))
  }

  method KeyMayMatch(hash: Hash, key: Key, filter: seq<Byte>) returns (may: bool)
    ensures may == MayMatch(hash, key, filter)
    ensures |filter| < 2 ==> !may
    ensures |filter| >= 2 && NumberOf(filter[|filter| - 1]) > 30 ==> may
    ensures |filter| >= 2 && NumberOf(filter[|filter| - 1]) <= 30 ==>
      var n := |filter| - 1;
      may <==> forall j | 0 <= j < NumberOf(filter[n]) :: BitIsSet(filter[..n], Probe(hash(key), j) % (8 * n))
  {
    hide BitIsSet, NumberOf, Probe;
    var len := |filter|;
    if len < 2 {
      return false;
    }
    var bytes := filter[..len - 1];
    var bits := (len - 1) * 8;
    var k := NumberOf(filter[len - 1]);
    if k > 30 {
      return true;
    }
    var h := hash(key);
    ghost var h0 := h;
    var delta := Delta(h);
    ProbeStarts(h0);
    for j := 0 to k
      invariant h == Probe(h0, j)
      invariant forall m | 0 <= m < j :: BitIsSet(bytes, Probe(h0, m) % bits)
    {
      var bitpos := h % bits;
      if !BitIsSet(bytes, bitpos) {
        return false;
      }
      ProbeNext(h0, j);
      h := (h + delta) % WORD;
    }
    may := true;
  }

  /** A filter matches just the keys of which every probe falls on a bit that some probe of its own keys falls on. */
  lemma MatchIff(hash: Hash, keys: seq<Key>, bitsPerKey: nat, filter: seq<Byte>, key: Key)
    requires IsFilter(hash, keys, bitsPerKey, filter)
    ensures var k, bits := Probes(bitsPerKey), 8 * FilterBytes(|keys|, bitsPerKey);
      MayMatch(hash, key, filter) <==> forall j | 0 <= j < k :: Hit(hash, keys, k, bits, Probe(hash(key), j) % bits)
  {
    hide BitIsSet, Probe, ByteOf, NumberOf, Hit;
    ByteRoundTrip(Probes(bitsPerKey));
    var k, size := Probes(bitsPerKey), FilterBytes(|keys|, bitsPerKey);
    var bytes := filter[..|filter| - 1];
    assert bytes == filter[..size];
    assert NumberOf(filter[|filter| - 1]) == k && |bytes| == size;
    forall j | 0 <= j < k
      ensures BitIsSet(bytes, Probe(hash(key), j) % (8 * |bytes|)) <==> Hit(hash, keys, k, 8 * size, Probe(hash(key), j) % (8 * size))
    {
      assert 0 <= Probe(hash(key), j) % (8 * size) < 8 * size;
    }
    if forall j | 0 <= j < k :: Hit(hash, keys, k, 8 * size, Probe(hash(key), j) % (8 * size)) {
      assert forall j | 0 <= j < k :: BitIsSet(bytes, Probe(hash(key), j) % (8 * |bytes|));
    } else {
      var j :| 0 <= j < k && !Hit(hash, keys, k, 8 * size, Probe(hash(key), j) % (8 * size));
      assert !BitIsSet(bytes, Probe(hash(key), j) % (8 * |bytes|));
    }
  }

  /** No false negatives. */
  lemma KeysMatch(hash: Hash, keys: seq<Key>, bitsPerKey: nat, filter: seq<Byte>, i: nat)
    requires IsFilter(hash, keys, bitsPerKey, filter) && i < |keys|
    ensures MayMatch(hash, keys[i], filter)
  {
    hide BitIsSet, Probe, ByteOf, NumberOf;
    var k, bytes := Probes(bitsPerKey), filter[..|filter| - 1];
    ByteRoundTrip(k);
    forall j | 0 <= j < k
      ensures BitIsSet(bytes, Probe(hash(keys[i]), j) % (8 * |bytes|))
    {
      assert Falls(hash(keys[i]), j, 8 * |bytes|, Probe(hash(keys[i]), j) % (8 * |bytes|));
    }
  }
}
