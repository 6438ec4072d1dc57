/** One shard of the block cache: its hash table, its two rings and its reference counts (util/cache.cc). */
module Cache {
  type Key = string

  /** A cache entry. The deleter's run is counted in deletions. */
  class LRUHandle {
    const key: Key
    const hash: nat
    const value: int
    const charge: nat
    var nextHash: LRUHandle?
    var next: LRUHandle?
    var prev: LRUHandle?
    var inCache: bool
    var refs: nat
    ghost var deletions: nat

    constructor (key: Key, hash: nat, value: int, charge: nat)
      ensures this.key == key && this.hash == hash && this.value == value && this.charge == charge
      ensures !inCache && refs == 1 && deletions == 0
    {
      this.key, this.hash, this.value, this.charge := key, hash, value, charge;
      nextHash, next, prev := null, null, null;
      inCache, refs, deletions := false, 1, 0;
    }
  }

  predicate Matches(h: LRUHandle, key: Key, hash: nat) {
    h.hash == hash && h.key == key
  }

  ghost predicate NoDuplicates<T>(c: seq<T>) {
    forall i, j | 0 <= i < j < |c| :: c[i] != c[j]
  }

  // ----- the hash table -----

  function Link(c: seq<LRUHandle>, i: nat): LRUHandle? {
    if i < |c| then c[i] else null
  }

  /** A bucket: a list linked by nextHash. */
  ghost predicate Chain(first: LRUHandle?, c: seq<LRUHandle>)
    reads Members(c)`nextHash
  {
    && first == Link(c, 0)
    && (forall i | 0 <= i < |c| :: c[i].nextHash == Link(c, i + 1))
    && NoDuplicates(c)
  }

  /** No two entries have the same key. */
  ghost predicate OnePerKey(handles: set<LRUHandle>) {
    forall g, h | g in handles && h in handles && Matches(g, h.key, h.hash) :: g == h
  }

  predicate IsPowerOfTwo(n: nat) {
    n == 1 || (n > 1 && n % 2 == 0 && IsPowerOfTwo(n / 2))
  }

  lemma FourIsPower()
    ensures IsPowerOfTwo(4)
  {
    assert IsPowerOfTwo(2);
  }

  lemma DoubleIsPower(n: nat)
    requires IsPowerOfTwo(n)
    ensures n > 0 && IsPowerOfTwo(2 * n)
  {
    assert 2 * n / 2 == n;
  }

  /** The buckets hold just the handles, each in the bucket of its hash. */
  ghost predicate Filed(chains: seq<seq<LRUHandle>>, handles: set<LRUHandle>) {
    && (forall b, h | 0 <= b < |chains| && h in chains[b] :: h in handles && h.hash % |chains| == b)
    && (forall h | h in handles :: |chains| > 0 && h in chains[h.hash % |chains|])
  }

  function Without<T>(c: seq<T>, k: nat): seq<T>
    requires k < |c|
  {
    c[..k] + c[k + 1..]
  }

  lemma WithoutMembers<T>(c: seq<T>, k: nat)
    requires k < |c| && NoDuplicates(c)
    ensures NoDuplicates(Without(c, k))
    ensures forall x | x in Without(c, k) :: x in c && x != c[k]
    ensures forall x | x in c && x != c[k] :: x in Without(c, k)
  {
    forall x | x in c && x != c[k]
      ensures x in Without(c, k)
    {
      var i :| 0 <= i < |c| && c[i] == x;
      assert Without(c, k)[if i < k then i else i - 1] == x;
    }
    forall x | x in Without(c, k)
      ensures x in c && x != c[k]
    {
      var j :| 0 <= j < |c| - 1 && Without(c, k)[j] == x;
      assert x == c[if j < k then j else j + 1];
    }
  }

  lemma FiledWithout(chains: seq<seq<LRUHandle>>, handles: set<LRUHandle>, b: nat, k: nat)
    requires Filed(chains, handles) && b < |chains| && k < |chains[b]| && NoDuplicates(chains[b])
    ensures Filed(chains[b := Without(chains[b], k)], handles - {chains[b][k]})
  {
    hide Without, NoDuplicates;
    WithoutMembers(chains[b], k);
    var gone := chains[b][k];
    var after := chains[b := Without(chains[b], k)];
    OneBucket(chains, handles, b, gone);
    forall h | h in handles - {gone}
      ensures h in after[h.hash % |after|]
    {
      assert h in chains[h.hash % |chains|];
    }
  }

  lemma OneBucket(chains: seq<seq<LRUHandle>>, handles: set<LRUHandle>, b: nat, h: LRUHandle)
    requires Filed(chains, handles) && b < |chains| && h in chains[b]
    ensures h in handles && forall d | 0 <= d < |chains| && d != b :: h !in chains[d]
  {}

  /** The slot of entry k now leads past it. */
  lemma ChainWithout(first: LRUHandle?, c: seq<LRUHandle>, k: nat)
    requires k < |c| && NoDuplicates(c)
    requires first == if k == 0 then Link(c, 1) else c[0]
    requires forall i | 0 <= i < |c| && i != k - 1 :: c[i].nextHash == Link(c, i + 1)
    requires k > 0 ==> c[k - 1].nextHash == Link(c, k + 1)
    ensures Chain(first, Without(c, k))
  {
    WithoutMembers(c, k);
    var d := Without(c, k);
    forall i | 0 <= i < |d|
      ensures d[i].nextHash == Link(d, i + 1)
    {
      assert d[i] == if i < k then c[i] else c[i + 1];
    }
  }

  /** h put in place k of a bucket, at its end if that is free. */
  function With<T>(c: seq<T>, k: nat, h: T): seq<T>
    requires k <= |c|
  {
    if k < |c| then c[k := h] else c + [h]
  }

  function Replaced(c: seq<LRUHandle>, k: nat): set<LRUHandle> {
    if k < |c| then {c[k]} else {}
  }

  lemma FiledWith(chains: seq<seq<LRUHandle>>, handles: set<LRUHandle>, b: nat, k: nat, h: LRUHandle)
    requires Filed(chains, handles) && b < |chains| && k <= |chains[b]| && NoDuplicates(chains[b])
    requires h !in handles && h.hash % |chains| == b
    ensures Filed(chains[b := With(chains[b], k, h)], handles - Replaced(chains[b], k) + {h})
    ensures Replaced(chains[b], k) <= handles
    ensures h !in chains[b]
  {
    var c := chains[b];
    var d, after := With(c, k, h), chains[b := With(c, k, h)];
    if k < |c| {
      OneBucket(chains, handles, b, c[k]);
    }
    assert d[k] == h;
    forall g | g in c && g !in Replaced(c, k)
      ensures g in d
    {
      var i :| 0 <= i < |c| && c[i] == g;
      assert d[i] == g;
    }
    forall g | g in d
      ensures g in c || g == h
      ensures g !in Replaced(c, k)
    {
      var i :| 0 <= i < |d| && d[i] == g;
      assert i < |c| ==> c[i] in c;
    }
    forall e, g | 0 <= e < |after| && g in after[e]
      ensures g in handles - Replaced(c, k) + {h} && g.hash % |after| == e
    {
      assert e != b ==> g in chains[e];
    }
    forall g | g in handles - Replaced(c, k) + {h}
      ensures g in after[g.hash % |after|]
    {
      assert g != h ==> g in chains[g.hash % |chains|];
    }
  }

  /** The slot of place k now holds h, which leads on from there. */
  lemma ChainWith(first: LRUHandle?, c: seq<LRUHandle>, k: nat, h: LRUHandle)
    requires k <= |c| && NoDuplicates(c) && h !in c
    requires first == if k == 0 then h else c[0]
    requires h.nextHash == Link(c, k + 1)
    requires forall i | 0 <= i < |c| && i != k - 1 :: c[i].nextHash == Link(c, i + 1)
    requires k > 0 ==> c[k - 1].nextHash == h
    ensures Chain(first, With(c, k, h))
  {}

  lemma OnePerKeyWith(handles: set<LRUHandle>, gone: set<LRUHandle>, h: LRUHandle)
    requires OnePerKey(handles) && gone <= handles
    requires forall g | g in handles && Matches(g, h.key, h.hash) :: g in gone
    ensures OnePerKey(handles - gone + {h})
  {}

  /** Every bucket of the array holds its list. */
  ghost predicate Chains(list: array<LRUHandle?>, chains: seq<seq<LRUHandle>>, handles: set<LRUHandle>)
    requires list.Length == |chains| && Filed(chains, handles)
    reads list, handles`nextHash
  {
    forall b | 0 <= b < list.Length :: Chain(list[b], chains[b])
  }

  /** Moves an entry to the front of its bucket in a new array. */
  method PushFront(list: array<LRUHandle?>, ghost chains: seq<seq<LRUHandle>>, ghost handles: set<LRUHandle>, h: LRUHandle)
    returns (ghost after: seq<seq<LRUHandle>>)
    requires list.Length == |chains| > 0 && Filed(chains, handles) && Chains(list, chains, handles) && h !in handles
    modifies list, h`nextHash
    ensures |after| == |chains| && Filed(after, handles + {h}) && Chains(list, after, handles + {h})
  {
    hide Filed, Chain;
    var b := h.hash % list.Length;
    ghost var c := chains[b];
    FiledPush(chains, handles, h);
    Strangers(chains, handles, h);
    h.nextHash := list[b];
    list[b] := h;
    after := chains[b := [h] + c];
    ChainPush(h, c);
  }

  lemma FiledPush(chains: seq<seq<LRUHandle>>, handles: set<LRUHandle>, h: LRUHandle)
    requires |chains| > 0 && Filed(chains, handles) && h !in handles
    ensures var b := h.hash % |chains|; Filed(chains[b := [h] + chains[b]], handles + {h})
  {
    var b := h.hash % |chains|;
    var after := chains[b := [h] + chains[b]];
    assert after[b][0] == h;
    forall d, g | 0 <= d < |after| && g in after[d] && g != h
      ensures g in chains[d]
    {}
    forall g | g in handles
      ensures g in after[g.hash % |after|]
    {
      assert g in chains[g.hash % |chains|];
    }
  }

  lemma Strangers(chains: seq<seq<LRUHandle>>, handles: set<LRUHandle>, h: LRUHandle)
    requires Filed(chains, handles) && h !in handles
    ensures forall b | 0 <= b < |chains| :: h !in chains[b] && h !in Members(chains[b])
  {}

  lemma ChainPush(h: LRUHandle, c: seq<LRUHandle>)
    requires h !in c && Chain(h.nextHash, c)
    ensures Chain(h, [h] + c)
  {}

  ghost function Members(c: seq<LRUHandle>): set<LRUHandle> {
    set h | h in c
  }

  lemma OneMoreMember(c: seq<LRUHandle>, k: nat)
    requires k < |c|
    ensures Members(c[..k + 1]) == Members(c[..k]) + {c[k]}
  {
    assert c[..k + 1] == c[..k] + [c[k]];
  }

  /** Moves a whole bucket. */
  method MoveBucket(first: LRUHandle?, ghost c: seq<LRUHandle>, list: array<LRUHandle?>,
          ghost chains: seq<seq<LRUHandle>>, ghost moved: set<LRUHandle>)
    returns (ghost after: seq<seq<LRUHandle>>, count: nat)
    requires list.Length == |chains| > 0 && Filed(chains, moved) && Chains(list, chains, moved)
    requires Chain(first, c) && Members(c) !! moved
    modifies list, Members(c)`nextHash
    ensures |after| == |chains| && Filed(after, moved + Members(c)) && Chains(list, after, moved + Members(c))
    ensures |moved + Members(c)| == |moved| + count
  {
    hide Filed, Chains, Members, Chain;
    after, count := chains, 0;
    var h := first;
    ghost var rest := c;
    ghost var now: set<LRUHandle> := moved;
    while h != null
      invariant Chain(h, rest) && Members(rest) <= Members(c) && Members(rest) !! now && now + Members(rest) == moved + Members(c)
      invariant |after| == list.Length && Filed(after, now) && Chains(list, after, now)
      invariant |now| == |moved| + count
      decreases |rest|
    {
      ChainHead(h, rest);
      var next;
      next, after := MoveOne(h, rest, list, after, now);
      now := now + {h};
      h, rest, count := next, rest[1..], count + 1;
    }
    ChainEnd(rest);
  }

  /** Moves the head of a bucket. */
  method MoveOne(h: LRUHandle, ghost c: seq<LRUHandle>, list: array<LRUHandle?>,
          ghost chains: seq<seq<LRUHandle>>, ghost moved: set<LRUHandle>)
    returns (next: LRUHandle?, ghost after: seq<seq<LRUHandle>>)
    requires list.Length == |chains| > 0 && Filed(chains, moved) && Chains(list, chains, moved)
    requires Chain(h, c) && |c| > 0 && h !in moved
    modifies list, h`nextHash
    ensures |after| == |chains| && Filed(after, moved + {h}) && Chains(list, after, moved + {h})
    ensures Chain(next, c[1..])
  {
    hide Filed, Chains, Chain;
    ChainHead(h, c);
    next := h.nextHash;
    after := PushFront(list, chains, moved, h);
  }

  lemma ChainIs(first: LRUHandle?, c: seq<LRUHandle>)
    requires Chain(first, c)
    ensures first == Link(c, 0) && forall i | 0 <= i < |c| :: c[i].nextHash == Link(c, i + 1)
  {}

  lemma ChainHead(h: LRUHandle, c: seq<LRUHandle>)
    requires Chain(h, c)
    ensures |c| > 0 && c[0] == h && Chain(h.nextHash, c[1..])
    ensures Members(c) == {h} + Members(c[1..]) && h !in Members(c[1..])
  {
    assert c == [c[0]] + c[1..];
  }

  lemma ChainEnd(c: seq<LRUHandle>)
    requires Chain(null, c)
    ensures Members(c) == {}
  {}

  lemma NoMembers(c: seq<LRUHandle>)
    ensures Members(c[..0]) == {}
  {}

  /** The handles of the first i buckets. */
  ghost function Below(handles: set<LRUHandle>, length: nat, i: nat): set<LRUHandle>
    requires length > 0
  {
    set h | h in handles && h.hash % length < i
  }

  lemma NextBucket(chains: seq<seq<LRUHandle>>, handles: set<LRUHandle>, i: nat)
    requires Filed(chains, handles) && i < |chains|
    ensures Below(handles, |chains|, i + 1) == Below(handles, |chains|, i) + Members(chains[i])
    ensures Members(chains[i]) !! Below(handles, |chains|, i)
    ensures Members(chains[i]) <= handles
    ensures forall d | i < d < |chains| :: Members(chains[d]) !! Members(chains[i])
  {}

  lemma AllBuckets(chains: seq<seq<LRUHandle>>, handles: set<LRUHandle>)
    requires |chains| > 0
    ensures Below(handles, |chains|, 0) == {} && Below(handles, |chains|, |chains|) == handles
  {}

  /** Files every entry of one array in another. */
  method Rehash(list: array<LRUHandle?>, ghost chains: seq<seq<LRUHandle>>, ghost handles: set<LRUHandle>,
          newList: array<LRUHandle?>)
    returns (ghost newChains: seq<seq<LRUHandle>>, count: nat)
    requires list.Length == |chains| > 0 && Filed(chains, handles) && Chains(list, chains, handles)
    requires list != newList && newList.Length > 0 && forall b | 0 <= b < newList.Length :: newList[b] == null
    modifies newList, handles`nextHash
    ensures |newChains| == newList.Length && Filed(newChains, handles) && Chains(newList, newChains, handles)
    ensures count == |handles|
  {
    hide Filed, Chain;
    newChains := seq(newList.Length, i => []);
    ghost var moved: set<LRUHandle> := {};
    EmptyTable(newList, newChains);
    count := 0;
    AllBuckets(chains, handles);
    for i := 0 to list.Length
      invariant |newChains| == newList.Length && Filed(newChains, moved) && Chains(newList, newChains, moved)
      invariant count == |moved| && moved == Below(handles, |chains|, i)
      invariant forall d | i <= d < list.Length :: Chain(list[d], chains[d])
    {
      NextBucket(chains, handles, i);
      var n;
      newChains, n := MoveBucket(list[i], chains[i], newList, newChains, moved);
      moved := moved + Members(chains[i]);
      count := count + n;
    }
  }

  lemma EmptyTable(list: array<LRUHandle?>, chains: seq<seq<LRUHandle>>)
    requires |chains| == list.Length && forall b | 0 <= b < |chains| :: list[b] == null && chains[b] == []
    ensures Filed(chains, {}) && Chains(list, chains, {})
  {}

  class HandleTable {
    var length: nat
    var elems: nat
    var list: array<LRUHandle?>
    ghost var chains: seq<seq<LRUHandle>>
    ghost var handles: set<LRUHandle>

    ghost predicate Valid()
      reads this, list, handles`nextHash
    {
      && length == list.Length == |chains| && IsPowerOfTwo(length)
      && elems == |handles|
      && Filed(chains, handles)
      && OnePerKey(handles)
      && Chains(list, chains, handles)
    }


    /** Four empty buckets, which is what the first Resize comes to. */
    constructor ()
      ensures Valid() && handles == {} && fresh(list)
    {
      length, elems := 4, 0;
      list := new LRUHandle?[4](i => null);
      chains, handles := seq(4, i => []), {};
      new;
      EmptyTable(list, chains);
    }

    /** The slot for the key: the bucket, and the entry whose nextHash it is if it is not the bucket's own. */
    method FindPointer(key: Key, hash: nat) returns (before: LRUHandle?, at: LRUHandle?, ghost k: nat)
      requires Valid()
      ensures var c := chains[hash % length]; k <= |c| && at == Link(c, k) && before == (if k == 0 then null else c[k - 1])
      ensures at != null ==> at in handles && Matches(at, key, hash)
      ensures at == null ==> forall h | h in handles :: !Matches(h, key, hash)
    {
      hide Filed, Chains, Chain, OnePerKey, Matches;
      BucketChain(hash % length);
      ghost var c := chains[hash % length];
      ChainIs(list[hash % length], c);
      k, before, at := 0, null, list[hash % length];
      while at != null && !Matches(at, key, hash)
        invariant k <= |c| && at == Link(c, k) && before == (if k == 0 then null else c[k - 1])
        invariant forall i | 0 <= i < k :: !Matches(c[i], key, hash)
        decreases |c| - k
      {
        before, at, k := at, at.nextHash, k + 1;
      }
      SearchIsDone(key, hash, k);
    }

    lemma SearchIsDone(key: Key, hash: nat, k: nat)
      requires Valid() && k <= |chains[hash % length]|
      requires forall i | 0 <= i < k :: !Matches(chains[hash % length][i], key, hash)
      ensures k < |chains[hash % length]| ==> chains[hash % length][k] in handles
      ensures k == |chains[hash % length]| ==> forall h | h in handles :: !Matches(h, key, hash)
    {
      hide Chains, OnePerKey;
    }

    lemma KeysAreUnique()
      requires Valid()
      ensures OnePerKey(handles)
    {
      hide Filed, Chains, OnePerKey;
    }

    method Lookup(key: Key, hash: nat) returns (at: LRUHandle?)
      requires Valid()
      ensures at != null ==> at in handles && Matches(at, key, hash)
      ensures at == null ==> forall h | h in handles :: !Matches(h, key, hash)
    {
      var before, found, k := FindPointer(key, hash);
      at := found;
    }

    /** Writes a slot: the bucket's own if before is null. */
    method SetSlot(b: nat, before: LRUHandle?, target: LRUHandle?, ghost k: nat)
      requires Valid() && b < length && k <= |chains[b]|
      requires before == if k == 0 then null else chains[b][k - 1]
      modifies list, handles`nextHash
      ensures forall d | 0 <= d < length && d != b :: Chain(list[d], chains[d])
      ensures list[b] == if k == 0 then target else Link(chains[b], 0)
      ensures forall i | 0 <= i < |chains[b]| :: chains[b][i].nextHash == if i == k - 1 then target else Link(chains[b], i + 1)
    {
      hide OnePerKey, Matches;
      if before == null {
        list[b] := target;
      } else {
        OneBucket(chains, handles, b, before);
        before.nextHash := target;
      }
    }

    /** Files the table under a bucket's new contents. */
    ghost method Refile(b: nat, c: seq<LRUHandle>, hs: set<LRUHandle>)
      requires b < length == list.Length == |chains| && IsPowerOfTwo(length)
      requires forall d | 0 <= d < length && d != b :: Chain(list[d], chains[d])
      requires Chain(list[b], c)
      requires Filed(chains[b := c], hs) && OnePerKey(hs)
      modifies `chains, `handles
      ensures chains == old(chains)[b := c] && handles == hs
      ensures Filed(chains, handles) && Chains(list, chains, handles) && OnePerKey(hs)
    {
      hide Filed, OnePerKey, Chain;
      chains := chains[b := c];
      handles := hs;
    }

    method Remove(key: Key, hash: nat) returns (result: LRUHandle?)
      requires Valid()
      modifies this, list, handles`nextHash
      ensures Valid() && list == old(list)
      ensures result != null ==> result in old(handles) && Matches(result, key, hash)
      ensures result == null ==> forall h | h in old(handles) :: !Matches(h, key, hash)
      ensures handles == old(handles) - (if result == null then {} else {result})
    {
      hide Filed, Matches, Without, Chains;
      ghost var k: nat;
      var before;
      before, result, k := FindPointer(key, hash);
      if result != null {
        var b := hash % length;
        BucketChain(b);
        ghost var c := chains[b];
        FiledWithout(chains, handles, b, k);
        SetSlot(b, before, result.nextHash, k);
        ChainWithout(list[b], c, k);
        elems := elems - 1;
        Refile(b, Without(c, k), handles - {result});
      }
    }

    lemma AllChains()
      requires Valid()
      ensures forall b | 0 <= b < length :: Chain(list[b], chains[b])
    {
      hide Filed, Chain;
    }

    lemma BucketChain(b: nat)
      requires Valid() && b < length
      ensures Chain(list[b], chains[b])
    {
      hide Filed, Chain;
    }

    /** Files h, in the place of the entry with its key if there is one. */
    method Insert(h: LRUHandle) returns (replaced: LRUHandle?)
      requires Valid() && h !in handles
      modifies this, list, handles`nextHash, h`nextHash
      ensures Valid() && (list == old(list) || fresh(list))
      ensures replaced != null ==> replaced in old(handles) && Matches(replaced, h.key, h.hash)
      ensures replaced == null ==> forall g | g in old(handles) :: !Matches(g, h.key, h.hash)
      ensures handles == old(handles) - (if replaced == null then {} else {replaced}) + {h}
      ensures elems == old(elems) + if replaced == null then 1 else 0
      ensures list == old(list) <==> replaced != null || elems <= old(length)
      ensures list != old(list) ==> elems <= length && (length == 4 || length < 2 * elems)
    {
      hide Filed, Matches, Chains, OnePerKey;
      ghost var k: nat;
      var before;
      before, replaced, k := FindPointer(h.key, h.hash);
      h.nextHash := if replaced == null then null else replaced.nextHash;
      Place(h, before, replaced, k);
      if replaced == null {
        elems := elems + 1;
        if elems > length {
          Resize();
        }
      }
    }

    /** Writes h to the slot found for it. */
    method Place(h: LRUHandle, before: LRUHandle?, replaced: LRUHandle?, ghost k: nat)
      requires Valid() && h !in handles
      requires var c := chains[h.hash % length]; k <= |c| && replaced == Link(c, k) && before == (if k == 0 then null else c[k - 1])
      requires replaced != null ==> replaced in handles && Matches(replaced, h.key, h.hash)
      requires replaced == null ==> forall g | g in handles :: !Matches(g, h.key, h.hash)
      requires h.nextHash == if replaced == null then null else replaced.nextHash
      modifies list, handles`nextHash, `chains, `handles
      ensures length == list.Length == |chains| && IsPowerOfTwo(length)
      ensures Filed(chains, handles) && OnePerKey(handles) && Chains(list, chains, handles)
      ensures handles == old(handles) - (if replaced == null then {} else {replaced}) + {h}
      ensures |handles| == |old(handles)| + if replaced == null then 1 else 0
    {
      hide Filed, Matches, With, Chains, OnePerKey;
      var b := h.hash % length;
      BucketChain(b);
      ghost var c := chains[b];
      FiledWith(chains, handles, b, k, h);
      OneMatch(c, k, h);
      OnePerKeyWith(handles, Replaced(c, k), h);
      SetSlot(b, before, h, k);
      ChainWith(list[b], c, k, h);
      Refile(b, With(c, k, h), handles - Replaced(c, k) + {h});
    }

    lemma OneMatch(c: seq<LRUHandle>, k: nat, h: LRUHandle)
      requires Valid() && k <= |c|
      requires k < |c| ==> c[k] in handles && Matches(c[k], h.key, h.hash)
      requires k == |c| ==> forall g | g in handles :: !Matches(g, h.key, h.hash)
      ensures forall g | g in handles && Matches(g, h.key, h.hash) :: g in Replaced(c, k)
    {
      hide Filed, Chains;
    }

    method NewLength() returns (newLength: nat)
      ensures IsPowerOfTwo(newLength) && newLength > 0
      ensures elems <= newLength && (newLength == 4 || newLength < 2 * elems)
    {
      hide IsPowerOfTwo;
      FourIsPower();
      newLength := 4;
      while newLength < elems
        invariant IsPowerOfTwo(newLength) && newLength > 0 && (newLength == 4 || newLength < 2 * elems)
      {
        DoubleIsPower(newLength);
        newLength := 2 * newLength;
      }
    }

    /** Grows the array to no fewer buckets than entries, and files every entry anew. */
    method Resize()
      requires Valid()
      modifies this, handles`nextHash
      ensures Valid() && fresh(list) && handles == old(handles) && elems == old(elems)
      ensures elems <= length && (length == 4 || length < 2 * elems)
    {
      hide Chains, Filed, OnePerKey, Chain, IsPowerOfTwo;
      assert length > 0 by { DoubleIsPower(length); }
      var newLength := NewLength();
      var newList := new LRUHandle?[newLength](i => null);
      AllChains();
      ghost var newChains, count := Rehash(list, chains, handles, newList);
      assert count == elems;
      length := newLength;
      list := newList;
      chains := newChains;
    }
  }

  // ----- the rings -----

  /** Neighbours point at each other. */
  ghost predicate Linked(n: seq<LRUHandle>)
    reads Members(n)`next, Members(n)`prev
  {
    && (forall i | 0 <= i < |n| - 1 :: n[i].next == n[i + 1])
    && (forall i | 0 <= i < |n| - 1 :: n[i + 1].prev == n[i])
  }

  function Round(head: LRUHandle, r: seq<LRUHandle>): seq<LRUHandle> {
    [head] + r + [head]
  }

  /** The dummy head and r, oldest first, are linked in a ring. */
  ghost predicate Ring(head: LRUHandle, r: seq<LRUHandle>)
    reads Nodes(head, r)`next, Nodes(head, r)`prev
  {
    NoDuplicates(r) && head !in r && Linked(Round(head, r))
  }

  ghost function Nodes(head: LRUHandle, r: seq<LRUHandle>): set<LRUHandle> {
    {head} + Members(r)
  }

  function Minus(r: seq<LRUHandle>, e: LRUHandle): seq<LRUHandle>
    decreases |r|
  {
    if |r| == 0 then [] else if r[0] == e then r[1..] else [r[0]] + Minus(r[1..], e)
  }

  lemma MinusFirst(r: seq<LRUHandle>)
    requires |r| > 0
    ensures Minus(r, r[0]) == r[1..]
  {}

  lemma MinusRest(r: seq<LRUHandle>, e: LRUHandle)
    requires |r| > 0 && r[0] != e
    ensures Minus(r, e) == [r[0]] + Minus(r[1..], e)
  {}

  lemma WithoutRest(r: seq<LRUHandle>, k: nat)
    requires k < |r|
    ensures Without(r, k) == if k == 0 then r[1..] else [r[0]] + Without(r[1..], k - 1)
  {}

  lemma {:induction false} MinusIs(r: seq<LRUHandle>, k: nat)
    requires k < |r| && NoDuplicates(r)
    ensures Minus(r, r[k]) == Without(r, k)
    decreases |r|
  {
    hide Minus, Without;
    var t := r[1..];
    WithoutRest(r, k);
    if k == 0 {
      MinusFirst(r);
    } else {
      assert t[k - 1] == r[k];
      MinusIs(t, k - 1);
      MinusRest(r, r[k]);
    }
  }

  lemma RoundDistinct(head: LRUHandle, r: seq<LRUHandle>)
    requires NoDuplicates(r) && head !in r
    ensures forall i, j | 0 <= i < j < |r| + 1 :: Round(head, r)[i] != Round(head, r)[j]
    ensures forall i, j | 0 < i < j < |r| + 2 :: Round(head, r)[i] != Round(head, r)[j]
    ensures forall i | 0 <= i < |r| + 2 :: Round(head, r)[i] in Nodes(head, r)
  {}

  /** Place j of a round is bridged over. */
  lemma Bridged(n: seq<LRUHandle>, j: nat)
    requires 0 < j < |n| - 1
    requires forall i | 0 <= i < |n| - 1 && i != j && i != j - 1 :: n[i].next == n[i + 1] && n[i + 1].prev == n[i]
    requires n[j - 1].next == n[j + 1] && n[j + 1].prev == n[j - 1]
    ensures Linked(Without(n, j))
  {
    var d := Without(n, j);
    assert forall i | 0 <= i < |d| :: d[i] == if i < j then n[i] else n[i + 1];
  }

  lemma RoundWithout(head: LRUHandle, r: seq<LRUHandle>, k: nat)
    requires k < |r|
    ensures Without(Round(head, r), k + 1) == Round(head, Without(r, k))
  {}

  method Unlink(e: LRUHandle, ghost n: seq<LRUHandle>, ghost j: nat)
    requires 0 < j < |n| - 1 && n[j] == e && Linked(n)
    requires forall i, j | 0 <= i < j < |n| - 1 :: n[i] != n[j]
    requires forall i, j | 0 < i < j < |n| :: n[i] != n[j]
    modifies Members(n)`next, Members(n)`prev
    ensures Linked(Without(n, j))
  {
    hide Without;
    assert e.next == n[j + 1] && n[j - 1 + 1].prev == n[j - 1];
    e.next.prev := e.prev;
    e.prev.next := e.next;
    Bridged(n, j);
  }

  method LruRemove(e: LRUHandle, ghost head: LRUHandle, ghost r: seq<LRUHandle>)
    requires Ring(head, r) && e in r
    modifies Nodes(head, r)`next, Nodes(head, r)`prev
    ensures Ring(head, Minus(r, e))
  {
    hide Minus, Without, NoDuplicates, Nodes;
    ghost var k :| 0 <= k < |r| && r[k] == e;
    MinusIs(r, k);
    WithoutMembers(r, k);
    ghost var n := Round(head, r);
    ghost var j := k + 1;
    RoundDistinct(head, r);
    assert n[j] == e && n[j].next == n[j + 1] && n[j - 1 + 1].prev == n[j - 1];
    Unlink(e, n, j);
    RoundWithout(head, r, k);
  }

  method LruAppend(head: LRUHandle, e: LRUHandle, ghost r: seq<LRUHandle>)
    requires Ring(head, r) && e != head && e !in r
    modifies Nodes(head, r + [e])`next, Nodes(head, r + [e])`prev
    ensures Ring(head, r + [e])
  {
    ghost var n := Round(head, r);
    assert n[|n| - 2] in Nodes(head, r + [e]) && e in r + [e];
    assert n[|n| - 2 + 1].prev == n[|n| - 2];
    e.next := head;
    e.prev := head.prev;
    e.prev.next := e;
    e.next.prev := e;
    ghost var m := Round(head, r + [e]);
    assert forall i | 0 <= i < |n| - 1 :: m[i] == n[i];
    assert m[|n| - 1] == e && m[|n|] == head;
  }

  // ----- the shard -----

  lemma RingFacts(head: LRUHandle, r: seq<LRUHandle>)
    requires Ring(head, r)
    ensures NoDuplicates(r) && head !in r
  {}

  function Charge(r: seq<LRUHandle>): nat
    decreases |r|
  {
    if |r| == 0 then 0 else r[0].charge + Charge(r[1..])
  }

  lemma {:induction false} ChargeAppend(r: seq<LRUHandle>, e: LRUHandle)
    ensures Charge(r + [e]) == Charge(r) + e.charge
    decreases |r|
  {
    if |r| > 0 {
      assert (r + [e])[1..] == r[1..] + [e];
      ChargeAppend(r[1..], e);
    }
  }

  lemma {:induction false} ChargeMinus(r: seq<LRUHandle>, e: LRUHandle)
    requires e in r
    ensures Charge(Minus(r, e)) + e.charge == Charge(r)
    decreases |r|
  {
    if r[0] != e {
      ChargeMinus(r[1..], e);
      assert ([r[0]] + Minus(r[1..], e))[1..] == Minus(r[1..], e);
    }
  }

  lemma MinusMembers(r: seq<LRUHandle>, e: LRUHandle)
    requires NoDuplicates(r)
    ensures forall h :: h in Minus(r, e) <==> h in r && h != e
    ensures Members(Minus(r, e)) == Members(r) - {e}
    ensures e !in r ==> Minus(r, e) == r
  {
    hide Minus, NoDuplicates, Without;
    if e in r {
      var k :| 0 <= k < |r| && r[k] == e;
      MinusIs(r, k);
      WithoutMembers(r, k);
    } else {
      MinusNone(r, e);
    }
  }

  lemma {:induction false} MinusNone(r: seq<LRUHandle>, e: LRUHandle)
    requires e !in r
    ensures Minus(r, e) == r
    decreases |r|
  {
    if |r| > 0 {
      MinusNone(r[1..], e);
    }
  }

  /** The reference count is the clients' handles and the cache's own; idle entries are on one ring and used ones on the other;
      an entry is deleted once, when the last reference goes. */
  predicate Right(b: Book) {
    && b.refs == b.held + (if b.inCache then 1 else 0)
    && b.inCache == b.filed
    && b.idle == (b.inCache && b.refs == 1)
    && b.used == (b.inCache && b.refs >= 2)
    && b.deletions == (if b.refs == 0 then 1 else 0)
  }

  /** What is on record about one entry. */
  datatype Book = Book(refs: nat, inCache: bool, deletions: nat, held: nat, filed: bool, idle: bool, used: bool)

  lemma RightRef(b: Book)
    requires Right(b) && b.filed
    ensures b.idle == (b.inCache && b.refs == 1) && b.used == !b.idle
    ensures Right(Book(b.refs + 1, b.inCache, b.deletions, b.held + 1, b.filed, false, true))
  {}

  lemma RightNew(b: Book)
    requires b == Book(1, false, 0, 1, false, false, false)
    ensures Right(b)
  {}

  lemma Unfiled(b: Book)
    requires Right(b) && !b.filed
    ensures !b.inCache && !b.idle && !b.used && b.refs == b.held && (b.refs > 0 ==> b.deletions == 0)
  {}

  /** r without the replaced entry, if there is one. */
  function Kept(r: seq<LRUHandle>, replaced: LRUHandle?): seq<LRUHandle> {
    if replaced == null then r else Minus(r, replaced)
  }

  lemma RightCached(b: Book)
    requires b == Book(2, true, 0, 1, true, false, true)
    ensures Right(b)
  {}

  lemma RightUnref(b: Book)
    requires Right(b) && b.held > 0
    ensures b.refs > 0 && b.deletions == 0 && !b.idle && b.used == b.inCache == b.filed
    ensures b.refs == b.held + (if b.inCache then 1 else 0)
    ensures Right(Book(b.refs - 1, b.inCache, if b.refs == 1 then 1 else 0, b.held - 1, b.filed, b.inCache && b.refs == 2, b.inCache && b.refs > 2))
  {}

  /** The cache gives up its entry: its reference is nobody's until it is dropped. */
  lemma RightEvict(b: Book)
    requires Right(b) && b.filed
    ensures b.inCache && (b.idle || b.used)
    ensures Right(Book(b.refs, false, b.deletions, b.held + 1, false, false, false))
  {}

  lemma Moved(e: LRUHandle, idle: seq<LRUHandle>, used: seq<LRUHandle>, idleNow: seq<LRUHandle>,
          usedNow: seq<LRUHandle>, moves: bool)
    requires NoDuplicates(used)
    requires idleNow == idle + (if moves then [e] else []) && usedNow == if moves then Minus(used, e) else used
    ensures forall h | h != e :: h in idleNow <==> h in idle
    ensures forall h | h != e :: h in usedNow <==> h in used
    ensures e in idleNow <==> moves || e in idle
    ensures e in usedNow <==> !moves && e in used
  {
    MinusMembers(used, e);
  }

  class LRUCache {
    var capacity: nat
    var usage: nat
    const lru: LRUHandle
    const inUse: LRUHandle
    const table: HandleTable
    ghost var lruList: seq<LRUHandle>    // oldest first
    ghost var inUseList: seq<LRUHandle>
    ghost var entries: set<LRUHandle>    // all ever made
    ghost var clients: multiset<LRUHandle>  // the handles given out and not yet released

    ghost predicate Rings()
      reads `lruList, `inUseList, `entries, ({lru, inUse} + entries)`next, ({lru, inUse} + entries)`prev
    {
      && lru != inUse && lru !in entries && inUse !in entries
      && Members(lruList) <= entries && Members(inUseList) <= entries
      && Members(lruList) !! Members(inUseList)
      && Ring(lru, lruList) && Ring(inUse, inUseList)
    }

    /** The counts and flags of every entry are right; extra is out of the table but still counted as in the cache. */
    ghost predicate Booked(extra: set<LRUHandle>)
      reads `lruList, `inUseList, `entries, `clients, entries`refs, entries`inCache, entries`deletions, table`handles
    {
      && (forall h | h in entries :: Right(BookIn(h, extra)))
      && (forall h | h in clients :: h in entries)
    }

    ghost predicate Sound(extra: set<LRUHandle>)
      reads `lruList, `inUseList, `entries, `clients, `usage, lru, inUse, entries, table, table.list
    {
      && Rings()
      && table.handles <= entries && table.Valid()
      && extra <= entries && extra !! table.handles && Booked(extra)
      && usage == Charge(lruList) + Charge(inUseList)
    }

    ghost predicate Valid()
      reads `lruList, `inUseList, `entries, `clients, `usage, lru, inUse, entries, table, table.list
    {
      Sound({})
    }

    constructor ()
      ensures Valid() && table.handles == {} && clients == multiset{} && entries == {} && capacity == usage == 0
      ensures fresh(lru) && fresh(inUse) && fresh(table) && fresh(table.list)
    {
      capacity, usage := 0, 0;
      var idle := new LRUHandle("", 0, 0, 0);
      var used := new LRUHandle("", 0, 0, 0);
      idle.next, idle.prev, used.next, used.prev := idle, idle, used, used;
      lru, inUse := idle, used;
      table := new HandleTable();
      lruList, inUseList, entries, clients := [], [], {}, multiset{};
    }

    method SetCapacity(newCapacity: nat)
      requires Valid()
      modifies `capacity
      ensures Valid() && capacity == newCapacity
    {
      hide Sound;
      capacity := newCapacity;
    }

    lemma ListsAreApart()
      requires Rings()
      ensures NoDuplicates(lruList) && NoDuplicates(inUseList)
    {
      hide NoDuplicates, Linked;
    }

    lemma Open(extra: set<LRUHandle>)
      ensures Valid() <==> Sound({})
      ensures Sound(extra) ==> Rings() && Booked(extra) && table.handles <= entries && table.Valid()
      ensures Sound(extra) ==> usage == Charge(lruList) + Charge(inUseList) && extra <= entries && extra !! table.handles
    {
      hide Rings, Booked, HandleTable.Valid, Charge;
    }

    lemma Close(extra: set<LRUHandle>)
      requires Rings() && Booked(extra) && table.handles <= entries && table.Valid()
      requires usage == Charge(lruList) + Charge(inUseList) && extra <= entries && extra !! table.handles
      ensures Sound(extra) && (extra == {} ==> Valid())
    {
      hide Rings, Booked, HandleTable.Valid, Charge;
    }

    ghost function BookIn(h: LRUHandle, extra: set<LRUHandle>): Book
      reads `lruList, `inUseList, `clients, h`refs, h`inCache, h`deletions, table`handles
    {
      Book(h.refs, h.inCache, h.deletions, clients[h], h in table.handles + extra, h in lruList, h in inUseList)
    }

    lemma BookOf(e: LRUHandle, extra: set<LRUHandle>)
      requires Booked(extra) && e in entries
      ensures Right(BookIn(e, extra))
    {
      hide Right;
    }

    lemma ClientsAreEntries(extra: set<LRUHandle>, e: LRUHandle)
      requires Booked(extra) && clients[e] > 0
      ensures e in entries
    {
      hide Right;
    }

    method CountUp(e: LRUHandle)
      requires Rings() && table.Valid()
      modifies `clients, e`refs
      ensures Rings() && table.Valid()
      ensures e.refs == old(e.refs) + 1 && clients == old(clients) + multiset{e}
    {
      hide Rings, HandleTable.Valid;
      e.refs := e.refs + 1;
      clients := clients + multiset{e};
    }

    /** From the idle entries to the used ones. */
    method MoveToInUse(e: LRUHandle)
      requires Rings() && e in lruList && e !in inUseList
      modifies `lruList, `inUseList, ({lru, inUse} + entries)`next, ({lru, inUse} + entries)`prev
      ensures old(table.Valid()) ==> table.Valid()
      ensures Rings() && lruList == Minus(old(lruList), e) && inUseList == old(inUseList) + [e]
      ensures Charge(lruList) + Charge(inUseList) == old(Charge(lruList) + Charge(inUseList))
    {
      hide Ring, Charge, Minus, NoDuplicates, HandleTable.Valid;
      ghost var idle, used := lruList, inUseList;
      assert Nodes(lru, idle) !! Nodes(inUse, used);
      assert Members(used + [e]) == Members(used) + {e};
      RingFacts(lru, idle);
      RingFacts(inUse, used);
      MinusMembers(idle, e);
      ChargeMinus(idle, e);
      ChargeAppend(used, e);
      LruRemove(e, lru, idle);
      lruList := Minus(idle, e);
      assert Nodes(lru, lruList) !! Nodes(inUse, used + [e]);
      LruAppend(inUse, e, used);
      inUseList := used + [e];
    }

    /** Takes a reference on an entry of the cache for a client. */
    method Ref(e: LRUHandle)
      requires Valid() && e in table.handles
      modifies `lruList, `inUseList, `clients, e`refs, ({lru, inUse} + entries)`next, ({lru, inUse} + entries)`prev
      ensures Valid() && clients == old(clients) + multiset{e}
      ensures lruList == Minus(old(lruList), e)
      ensures inUseList == if e in old(lruList) then old(inUseList) + [e] else old(inUseList)
    {
      hide Rings, Ring, Charge, Minus, HandleTable.Valid, Members, NoDuplicates, Right, Valid, Sound;
      Open({});
      ListsAreApart();
      BookOf(e, {});
      RightRef(BookIn(e, {}));
      MinusMembers(lruList, e);
      if e.refs == 1 && e.inCache {
        MoveToInUse(e);
      }
      CountUp(e);
      Close({});
    }

    method Lookup(key: Key, hash: nat) returns (e: LRUHandle?)
      requires Valid()
      modifies `lruList, `inUseList, `clients, entries`refs
      modifies ({lru, inUse} + entries)`next, ({lru, inUse} + entries)`prev
      ensures Valid()
      ensures e == null ==> (forall h | h in table.handles :: !Matches(h, key, hash)) && clients == old(clients)
      ensures e != null ==> e in table.handles && Matches(e, key, hash) && clients == old(clients) + multiset{e}
      ensures e == null ==> lruList == old(lruList) && inUseList == old(inUseList)
      ensures e != null ==> lruList == Minus(old(lruList), e) && inUseList == if e in old(lruList) then old(inUseList) + [e] else old(inUseList)
    {
      hide Rings, Booked, Charge, Minus, HandleTable.Valid, Members, Matches;
      e := table.Lookup(key, hash);
      if e != null {
        Ref(e);
      }
    }

    /** From the used entries to the newest end of the idle ones. */
    method MoveToLru(e: LRUHandle)
      requires Rings() && e in inUseList && e !in lruList
      modifies `lruList, `inUseList, ({lru, inUse} + entries)`next, ({lru, inUse} + entries)`prev
      ensures old(table.Valid()) ==> table.Valid()
      ensures Rings() && inUseList == Minus(old(inUseList), e) && lruList == old(lruList) + [e]
      ensures Charge(lruList) + Charge(inUseList) == old(Charge(lruList) + Charge(inUseList))
    {
      hide Ring, Charge, Minus, NoDuplicates, HandleTable.Valid;
      ghost var idle, used := lruList, inUseList;
      assert Nodes(lru, idle) !! Nodes(inUse, used);
      assert Members(idle + [e]) == Members(idle) + {e};
      RingFacts(lru, idle);
      RingFacts(inUse, used);
      MinusMembers(used, e);
      ChargeMinus(used, e);
      ChargeAppend(idle, e);
      LruRemove(e, inUse, used);
      inUseList := Minus(used, e);
      assert Nodes(inUse, inUseList) !! Nodes(lru, idle + [e]);
      LruAppend(lru, e, idle);
      lruList := idle + [e];
    }

    /** The last reference deletes the entry; the last of the clients' makes it idle. */
    method DropReference(e: LRUHandle)
      requires Rings() && table.Valid() && e.refs > 0 && clients[e] > 0
      requires e.inCache ==> e.refs >= 2 && e in inUseList && e !in lruList
      modifies `lruList, `inUseList, `clients, e`refs, e`deletions
      modifies ({lru, inUse} + entries)`next, ({lru, inUse} + entries)`prev
      ensures Rings() && table.Valid() && Charge(lruList) + Charge(inUseList) == old(Charge(lruList) + Charge(inUseList))
      ensures e.refs == old(e.refs) - 1 && clients == old(clients) - multiset{e}
      ensures e.deletions == old(e.deletions) + if e.refs == 0 then 1 else 0
      ensures var idle := e.inCache && e.refs == 1; lruList == old(lruList) + if idle then [e] else []
      ensures var idle := e.inCache && e.refs == 1; inUseList == if idle then Minus(old(inUseList), e) else old(inUseList)
    {
      hide Rings, HandleTable.Valid, Charge, Minus;
      clients := clients - multiset{e};
      e.refs := e.refs - 1;
      if e.refs == 0 {
        e.deletions := e.deletions + 1;
      } else if e.inCache && e.refs == 1 {
        MoveToLru(e);
      }
    }

    method Unref(e: LRUHandle)
      requires Valid() && clients[e] > 0
      modifies `lruList, `inUseList, `clients, e`refs, e`deletions
      modifies ({lru, inUse} + entries)`next, ({lru, inUse} + entries)`prev
      ensures Valid() && clients == old(clients) - multiset{e}
      ensures e.deletions == if e.refs == 0 then 1 else 0
      ensures var idle := e.inCache && e.refs == 1; lruList == old(lruList) + if idle then [e] else []
      ensures var idle := e.inCache && e.refs == 1; inUseList == if idle then Minus(old(inUseList), e) else old(inUseList)
    {
      hide Rings, Ring, Charge, Minus, HandleTable.Valid, Members, NoDuplicates, Right, Valid, Sound;
      Open({});
      ListsAreApart();
      ClientsAreEntries({}, e);
      BookOf(e, {});
      RightUnref(BookIn(e, {}));
      ghost var idle, used := lruList, inUseList;
      DropReference(e);
      Moved(e, idle, used, lruList, inUseList, e.inCache && e.refs == 1);
      forall h | h in entries
        ensures Right(BookIn(h, {}))
      {
        assert h != e ==> old(Right(BookIn(h, {})));
      }
      Close({});
    }

    method Release(handle: LRUHandle)
      requires Valid() && clients[handle] > 0
      modifies `lruList, `inUseList, `clients, handle`refs, handle`deletions
      modifies ({lru, inUse} + entries)`next, ({lru, inUse} + entries)`prev
      ensures Valid() && clients == old(clients) - multiset{handle}
      ensures handle.deletions == if clients[handle] == 0 && handle !in table.handles then 1 else 0
      ensures var idle := handle in table.handles && clients[handle] == 0; lruList == old(lruList) + if idle then [handle] else []
      ensures var idle := handle in table.handles && clients[handle] == 0; inUseList == if idle then Minus(old(inUseList), handle) else old(inUseList)
    {
      hide Rings, Charge, Minus, HandleTable.Valid, Members, Booked;
      ClientsAreEntries({}, handle);
      Unref(handle);
      BookOf(handle, {});
    }

    /** Off whichever ring the entry is on. */
    method RemoveFromRing(e: LRUHandle)
      requires Rings() && (e in lruList || e in inUseList)
      modifies `lruList, `inUseList, ({lru, inUse} + entries)`next, ({lru, inUse} + entries)`prev
      ensures old(table.Valid()) ==> table.Valid()
      ensures Rings() && lruList == Minus(old(lruList), e) && inUseList == Minus(old(inUseList), e)
      ensures Charge(lruList) + Charge(inUseList) + e.charge == old(Charge(lruList) + Charge(inUseList))
      ensures e !in lruList && e !in inUseList
    {
      hide Ring, Charge, Minus, NoDuplicates, HandleTable.Valid;
      ghost var idle, used := lruList, inUseList;
      assert Nodes(lru, idle) !! Nodes(inUse, used);
      RingFacts(lru, idle);
      RingFacts(inUse, used);
      MinusMembers(idle, e);
      MinusMembers(used, e);
      ghost var onLru := e in idle;
      if onLru {
        ChargeMinus(idle, e);
      } else {
        ChargeMinus(used, e);
      }
      LruRemove(e, if onLru then lru else inUse, if onLru then idle else used);
      lruList := Minus(idle, e);
      inUseList := Minus(used, e);
    }

    /** Takes an entry that has left the table off its ring; the cache's reference becomes a loose one. */
    method Detach(e: LRUHandle)
      requires Sound({e})
      modifies `lruList, `inUseList, `clients, `usage, e`inCache
      modifies ({lru, inUse} + entries)`next, ({lru, inUse} + entries)`prev
      ensures Valid() && clients == old(clients) + multiset{e} && !e.inCache
      ensures lruList == Minus(old(lruList), e) && inUseList == Minus(old(inUseList), e)
      ensures usage == old(usage) - e.charge
    {
      hide Rings, Ring, Charge, Minus, HandleTable.Valid, Members, NoDuplicates, Right, Valid, Sound;
      Open({e});
      ListsAreApart();
      BookOf(e, {e});
      RightEvict(BookIn(e, {e}));
      MinusMembers(lruList, e);
      MinusMembers(inUseList, e);
      RemoveFromRing(e);
      LeaveCache(e);
      forall h | h in entries
        ensures Right(BookIn(h, {}))
      {
        assert h != e ==> old(Right(BookIn(h, {e})));
      }
      Close({});
    }

    method LeaveCache(e: LRUHandle)
      requires Rings() && table.Valid() && usage >= e.charge
      modifies `clients, `usage, e`inCache
      ensures Rings() && table.Valid() && !e.inCache && usage == old(usage) - e.charge
      ensures clients == old(clients) + multiset{e}
    {
      hide Rings, HandleTable.Valid;
      e.inCache := false;
      usage := usage - e.charge;
      clients := clients + multiset{e};
    }

    /** Finishes the removal of an entry that has left the table. */
    method FinishErase(e: LRUHandle?) returns (erased: bool)
      requires if e == null then Valid() else Sound({e})
      modifies `lruList, `inUseList, `clients, `usage, entries`refs, entries`deletions, entries`inCache
      modifies ({lru, inUse} + entries)`next, ({lru, inUse} + entries)`prev
      ensures Valid() && clients == old(clients) && erased == (e != null)
      ensures e == null ==> lruList == old(lruList) && inUseList == old(inUseList) && usage == old(usage)
      ensures e != null ==> lruList == Minus(old(lruList), e) && inUseList == Minus(old(inUseList), e) && usage == old(usage) - e.charge
    {
      hide Rings, Booked, Minus, HandleTable.Valid, Valid, Sound;
      if e != null {
        Open({e});
        Detach(e);
        Unref(e);
      }
      erased := e != null;
    }

    /** Takes an entry out of the table. */
    method Unfile(key: Key, hash: nat) returns (e: LRUHandle?)
      requires Valid()
      modifies table, table.list, entries`nextHash
      ensures table.list == old(table.list)
      ensures if e == null then Valid() else Sound({e})
      ensures e != null ==> e in old(table.handles) && Matches(e, key, hash)
      ensures e == null ==> forall h | h in old(table.handles) :: !Matches(h, key, hash)
      ensures table.handles == old(table.handles) - (if e == null then {} else {e})
    {
      hide Rings, Ring, Charge, HandleTable.Valid, Right, Valid, Sound, Matches;
      Open({});
      e := table.Remove(key, hash);
      ghost var extra := if e == null then {} else {e};
      forall h | h in entries
        ensures Right(BookIn(h, extra))
      {
        assert old(Right(BookIn(h, {})));
      }
      Close(extra);
    }

    method Erase(key: Key, hash: nat)
      requires Valid()
      modifies this, table, table.list, entries, {lru, inUse}
      ensures Valid() && clients == old(clients) && entries == old(entries) && capacity == old(capacity)
      ensures forall h :: h in table.handles <==> h in old(table.handles) && !Matches(h, key, hash)
      ensures forall h | h in old(table.handles) && Matches(h, key, hash) :: lruList == Minus(old(lruList), h) && inUseList == Minus(old(inUseList), h)
    {
      hide Rings, Booked, Minus, HandleTable.Valid, Valid, Sound;
      Open({});
      table.KeysAreUnique();
      var e := Unfile(key, hash);
      var _ := FinishErase(e);
    }

    lemma OldestIsNext()
      requires Rings()
      ensures lru.next == if |lruList| == 0 then lru else lruList[0]
      ensures |lruList| > 0 ==> lruList[0] != lru && lruList[0] in lruList
    {
      var n := Round(lru, lruList);
      assert n[0].next == n[1];
    }

    /** What one turn of the eviction loop does. */
    method EvictOldest()
      requires Valid() && |lruList| > 0
      modifies this`lruList, this`inUseList, this`clients, this`usage, table, table.list, entries, {lru, inUse}
      ensures Valid() && clients == old(clients) && table.list == old(table.list)
      ensures lruList == old(lruList)[1..] && inUseList == old(inUseList)
      ensures table.handles == old(table.handles) - {old(lruList)[0]} && usage == old(usage) - old(lruList)[0].charge
    {
      hide Rings, Booked, HandleTable.Valid, Valid, Sound, Right, Minus;
      Open({});
      ListsAreApart();
      OldestIsNext();
      var oldest: LRUHandle := lru.next;
      IdleIsFiled(oldest);
      table.KeysAreUnique();
      MinusFirst(lruList);
      MinusMembers(inUseList, oldest);
      var e := Unfile(oldest.key, oldest.hash);
      assert e == oldest;
      var erased := FinishErase(e);
    }

    lemma IdleIsFiled(e: LRUHandle)
      requires Rings() && Booked({}) && e in lruList
      ensures e in table.handles && e in entries && clients[e] == 0 && e !in inUseList
    {
      assert e in Members(lruList);
      BookOf(e, {});
    }

    method Prune()
      requires Valid()
      modifies this`lruList, this`inUseList, this`clients, this`usage, table, table.list, entries, {lru, inUse}
      ensures Valid() && clients == old(clients) && table.list == old(table.list)
      ensures lruList == [] && inUseList == old(inUseList)
      ensures table.handles == old(table.handles) - Members(old(lruList))
    {
      hide Rings, Booked, HandleTable.Valid, Valid, Sound, Right, Minus;
      Open({});
      OldestIsNext();
      ghost var idle := lruList;
      ghost var k: nat := 0;
      while lru.next != lru
        invariant Valid() && Rings() && clients == old(clients) && table.list == old(table.list)
        invariant lru.next == if |lruList| == 0 then lru else lruList[0]
        invariant |lruList| > 0 ==> lruList[0] != lru
        invariant k <= |idle| && lruList == idle[k..] && inUseList == old(inUseList)
        invariant table.handles == old(table.handles) - Members(idle[..k])
        decreases |lruList|
      {
        OneMoreMember(idle, k);
        EvictOldest();
        Open({});
        OldestIsNext();
        k := k + 1;
      }
      assert idle[..k] == idle;
    }

    /** A new entry, with one reference for the client. */
    method NewEntry(key: Key, hash: nat, value: int, charge: nat) returns (e: LRUHandle)
      requires Valid()
      modifies `entries, `clients
      ensures Valid() && fresh(e) && !e.inCache && e.refs == 1
      ensures e.key == key && e.hash == hash && e.value == value && e.charge == charge
      ensures entries == old(entries) + {e} && clients == old(clients) + multiset{e}
    {
      hide Rings, Ring, HandleTable.Valid, Valid, Sound, Charge, Right;
      Open({});
      NewIsNowhere();
      e := new LRUHandle(key, hash, value, charge);
      Enter(e);
      RightNew(BookIn(e, {}));
      forall h | h in entries
        ensures Right(BookIn(h, {}))
      {
        assert h != e ==> old(Right(BookIn(h, {})));
      }
      Close({});
    }

    lemma NewIsNowhere()
      requires Valid()
      ensures forall h | h in lruList :: h in entries
      ensures forall h | h in inUseList :: h in entries
    {
      hide Ring, HandleTable.Valid, Charge, Booked;
      assert forall h | h in lruList :: h in Members(lruList);
      assert forall h | h in inUseList :: h in Members(inUseList);
    }

    ghost method Enter(e: LRUHandle)
      requires Rings() && table.Valid() && e !in entries && e != lru && e != inUse
      modifies `entries, `clients
      ensures Rings() && table.Valid() && entries == old(entries) + {e} && clients == old(clients) + multiset{e}
    {
      hide Ring, HandleTable.Valid;
      entries := entries + {e};
      clients := clients + multiset{e};
    }

    method AppendToUsed(e: LRUHandle)
      requires Rings() && e in entries && e !in lruList && e !in inUseList
      modifies `inUseList, ({lru, inUse} + entries)`next, ({lru, inUse} + entries)`prev
      ensures Rings() && inUseList == old(inUseList) + [e]
      ensures Charge(inUseList) == Charge(old(inUseList)) + e.charge
      ensures old(table.Valid()) ==> table.Valid()
    {
      hide Ring, Charge, NoDuplicates, HandleTable.Valid;
      ghost var used := inUseList;
      assert Nodes(lru, lruList) !! Nodes(inUse, used + [e]);
      assert Members(used + [e]) == Members(used) + {e};
      ChargeAppend(used, e);
      LruAppend(inUse, e, used);
      inUseList := used + [e];
    }

    /** The cache's reference, and a place among the used entries. */
    method JoinUsed(e: LRUHandle)
      requires Rings() && table.Valid() && e in entries && e !in lruList && e !in inUseList
      modifies `inUseList, `usage, e`refs, e`inCache, ({lru, inUse} + entries)`next, ({lru, inUse} + entries)`prev
      ensures Rings() && table.Valid() && inUseList == old(inUseList) + [e]
      ensures Charge(inUseList) == Charge(old(inUseList)) + e.charge
      ensures e.refs == old(e.refs) + 1 && e.inCache && usage == old(usage) + e.charge
    {
      hide Rings, Charge, HandleTable.Valid;
      e.refs := e.refs + 1;
      e.inCache := true;
      AppendToUsed(e);
      usage := usage + e.charge;
    }

    /** Files a new entry, and takes the place of the one with its key. */
    method PutInCache(e: LRUHandle) returns (replaced: LRUHandle?)
      requires Valid() && e in entries && e !in table.handles && clients[e] == 1
      modifies `inUseList, `usage, e`refs, e`inCache, ({lru, inUse} + entries)`next, ({lru, inUse} + entries)`prev
      modifies table, table.list, entries`nextHash
      ensures table.list == old(table.list) || fresh(table.list)
      ensures if replaced == null then Valid() else Sound({replaced})
      ensures replaced != null ==> replaced in old(table.handles) && Matches(replaced, e.key, e.hash)
      ensures replaced == null ==> forall h | h in old(table.handles) :: !Matches(h, e.key, e.hash)
      ensures table.handles == old(table.handles) - (if replaced == null then {} else {replaced}) + {e}
      ensures inUseList == old(inUseList) + [e] && usage == old(usage) + e.charge
    {
      hide Rings, Ring, Charge, HandleTable.Valid, Right, Valid, Sound, Matches;
      Open({});
      BookOf(e, {});
      Unfiled(BookIn(e, {}));
      JoinUsed(e);
      replaced := table.Insert(e);
      ghost var extra := if replaced == null then {} else {replaced};
      RightCached(BookIn(e, extra));
      forall h | h in entries
        ensures Right(BookIn(h, extra))
      {
        assert h != e ==> old(Right(BookIn(h, {})));
      }
      Close(extra);
    }

    /** Evicts the oldest idle entries while usage is over capacity: with one fewer evicted it would still be. */
    method EvictToCapacity() returns (ghost evicted: nat)
      requires Valid()
      modifies this`lruList, this`inUseList, this`clients, this`usage, table, table.list, entries, {lru, inUse}
      ensures Valid() && clients == old(clients) && table.list == old(table.list) && inUseList == old(inUseList)
      ensures evicted <= |old(lruList)| && lruList == old(lruList)[evicted..]
      ensures evicted > 0 ==> Charge(old(lruList)[evicted - 1..]) + Charge(inUseList) > capacity
      ensures table.handles == old(table.handles) - Members(old(lruList)[..evicted])
      ensures usage <= capacity || lruList == []
    {
      hide Rings, Booked, HandleTable.Valid, Valid, Sound, Right, Charge, Matches, Members;
      Open({});
      OldestIsNext();
      ghost var idle := lruList;
      evicted := 0;
      NoMembers(idle);
      while usage > capacity && lru.next != lru
        invariant Valid() && Rings() && clients == old(clients) && table.list == old(table.list)
        invariant lru.next == if |lruList| == 0 then lru else lruList[0]
        invariant |lruList| > 0 ==> lruList[0] != lru
        invariant evicted <= |idle| && lruList == idle[evicted..] && inUseList == old(inUseList)
        invariant table.handles == old(table.handles) - Members(idle[..evicted])
        invariant evicted > 0 ==> Charge(idle[evicted - 1..]) + Charge(inUseList) > capacity
        decreases |lruList|
      {
        Open({});
        OneMoreMember(idle, evicted);
        EvictOldest();
        Open({});
        OldestIsNext();
        evicted := evicted + 1;
      }
      Open({});
      assert idle[evicted..] == lruList;
    }

    /** Makes an entry, caches it if the cache is on, and evicts, oldest first, no more idle entries than it takes. */
    method Insert(key: Key, hash: nat, value: int, charge: nat)
      returns (e: LRUHandle, ghost replaced: LRUHandle?, ghost evicted: nat)
      requires Valid()
      modifies this`lruList, this`inUseList, this`clients, this`usage, this`entries, table, table.list, entries, {lru, inUse}
      ensures Valid() && fresh(e) && (table.list == old(table.list) || fresh(table.list))
      ensures e.key == key && e.hash == hash && e.value == value && e.charge == charge
      ensures entries == old(entries) + {e} && clients == old(clients) + multiset{e}
      ensures replaced != null ==> capacity > 0 && replaced in old(table.handles) && Matches(replaced, key, hash)
      ensures replaced == null && capacity > 0 ==> forall h | h in old(table.handles) :: !Matches(h, key, hash)
      ensures inUseList == if capacity == 0 then old(inUseList) else Kept(old(inUseList) + [e], replaced)
      ensures var idle := Kept(old(lruList), replaced);
        && evicted <= |idle| && lruList == idle[evicted..]
        && (evicted > 0 ==> Charge(idle[evicted - 1..]) + Charge(inUseList) > capacity)
      ensures table.handles == old(table.handles) + (if capacity == 0 then {} else {e}) - (if replaced == null then {} else {replaced})
                               - Members(Kept(old(lruList), replaced)[..evicted])
      ensures usage <= capacity || lruList == []
    {
      hide Rings, Booked, HandleTable.Valid, Valid, Sound, Right, Minus, Charge, Matches, Members;
      Open({});
      e := NewEntry(key, hash, value, charge);
      replaced := null;
      if capacity > 0 {
        Open({});
        var previous := PutInCache(e);
        var _ := FinishErase(previous);
        replaced := previous;
      }
      Open({});
      evicted := EvictToCapacity();
    }

    /** Each entry is deleted exactly when the cache and every client have let it go, and was until then never deleted. */
    lemma DeletedWhenGone(e: LRUHandle)
      requires Valid() && e in entries
      ensures e.deletions == if e !in table.handles && clients[e] == 0 then 1 else 0
      ensures e.refs == clients[e] + if e in table.handles then 1 else 0
      ensures e in lruList <==> e in table.handles && clients[e] == 0
      ensures e in inUseList <==> e in table.handles && clients[e] > 0
    {
      hide Rings, HandleTable.Valid;
      BookOf(e, {});
    }
  }
}
