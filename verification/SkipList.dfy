/** The skip list: one writer, any number of readers without locks (db/skiplist.h).
    Every load and store of a link is one atomic step on the shared memory. */
module SkipList {
  import opened Common
  import opened InternalKeys

  const kMaxHeight: nat := 12
  const HEAD: nat := 0
  const NULL: nat := 0  // no link points to the head

  /** The nodes, numbered in the order of their allocation: keys and links. */
  datatype Memory = Memory(keys: seq<UserKey>, links: seq<seq<nat>>, maxHeight: nat) {
    predicate Has(x: nat, level: nat) {
      x < |links| == |keys| && level < |links[x]|
    }

    function Next(x: nat, level: nat): nat
      requires Has(x, level)
    {
      links[x][level]
    }

    function SetNext(x: nat, level: nat, y: nat): Memory
      requires Has(x, level)
    {
      var own: seq<nat> := links[x][level := y];
      this.(links := links[x := own])
    }

    function NewNode(key: UserKey, height: nat): Memory {
      this.(keys := keys + [key], links := links + [seq(height, _ => NULL)])
    }
  }

  // ----- the chains -----

  /** The nodes of one level, from the head on, in key order. */
  ghost predicate ChainOk(mem: Memory, level: nat, chain: seq<nat>) {
    && |chain| > 0 && chain[0] == HEAD
    && (forall i :: 0 <= i < |chain| ==> mem.Has(chain[i], level))
    && (forall i :: 0 <= i < |chain| ==> mem.Next(chain[i], level) == if i + 1 < |chain| then chain[i + 1] else NULL)
    && (forall i :: 0 < i < |chain| ==> chain[i] != HEAD)
    && (forall i, j :: 0 < i < j < |chain| ==> mem.keys[chain[i]] < mem.keys[chain[j]])
  }

  type Chains = seq<seq<nat>>

  /** Every level is a sorted chain, and holds only nodes of the level below. */
  ghost predicate Linked(mem: Memory, chains: Chains) {
    && |chains| == kMaxHeight && 1 <= mem.maxHeight <= kMaxHeight
    && |mem.links| == |mem.keys|
    && (forall l :: 0 <= l < kMaxHeight ==> ChainOk(mem, l, chains[l]))
    && (forall l :: 0 <= l < kMaxHeight ==> HoldsAbove(chains, l))
    && (forall l :: mem.maxHeight <= l < kMaxHeight ==> chains[l] == [HEAD])
  }

  ghost predicate HoldsAbove(chains: Chains, l: nat)
    requires l < |chains|
  {
    forall x :: l + 1 < |chains| && x in chains[l + 1] ==> x in chains[l]
  }

  /** What a reader may rely on while the writer works: keys are never changed, and
      nodes once linked stay linked. */
  ghost predicate Grows(mem: Memory, chains: Chains, mem': Memory, chains': Chains) {
    && mem.keys <= mem'.keys
    && |chains| == |chains'| == kMaxHeight
    && (forall l, x :: 0 <= l < kMaxHeight && x in chains[l] ==> x in chains'[l])
  }

  // ----- a link store -----

  /** Publishing node x at one level, after the p-th node of the chain. */
  function Insert1(chain: seq<nat>, p: nat, x: nat): seq<nat>
    requires p < |chain|
  {
    chain[..p + 1] + [x] + chain[p + 1..]
  }

  /** The two stores of one round of Insert: x's own link, then its predecessor's. */
  function Link(mem: Memory, x: nat, level: nat, prev: nat): Memory
    requires mem.Has(x, level) && mem.Has(prev, level)
  {
    mem.SetNext(x, level, mem.Next(prev, level)).SetNext(prev, level, x)
  }

  lemma OtherLevelsKept(mem: Memory, x: nat, level: nat, prev: nat, l: nat, chain: seq<nat>)
    requires mem.Has(x, level) && mem.Has(prev, level) && ChainOk(mem, l, chain) && l != level
    ensures ChainOk(Link(mem, x, level, prev), l, chain)
  {}

  /** Storing the unpublished node's own link changes no chain. */
  lemma OwnLinkInvisible(mem: Memory, x: nat, level: nat, y: nat, l: nat, chain: seq<nat>)
    requires mem.Has(x, level) && ChainOk(mem, l, chain) && (l == level ==> x !in chain)
    ensures ChainOk(mem.SetNext(x, level, y), l, chain)
  {}

  lemma LinkedNext(mem: Memory, x: nat, level: nat, prev: nat, y: nat)
    requires mem.Has(x, level) && mem.Has(prev, level) && mem.Has(y, level) && x != prev
    ensures var mem' := Link(mem, x, level, prev);
            mem'.Has(y, level) && mem'.Next(y, level) == if y == prev then x else if y == x then mem.Next(prev, level) else mem.Next(y, level)
  {}

  lemma LinkKeepsChain(mem: Memory, level: nat, chain: seq<nat>, p: nat, x: nat)
    requires ChainOk(mem, level, chain) && p < |chain| && mem.Has(x, level) && x != HEAD && x !in chain
    requires p > 0 ==> mem.keys[chain[p]] < mem.keys[x]
    requires p + 1 < |chain| ==> mem.keys[x] < mem.keys[chain[p + 1]]
    ensures ChainOk(Link(mem, x, level, chain[p]), level, Insert1(chain, p, x))
  {
    var mem' := Link(mem, x, level, chain[p]);
    var chain' := Insert1(chain, p, x);
    forall i | 0 <= i < |chain'|
      ensures mem'.Has(chain'[i], level) && (i > 0 ==> chain'[i] != HEAD)
      ensures mem'.Next(chain'[i], level) == if i + 1 < |chain'| then chain'[i + 1] else NULL
    {
      LinkedAt(mem, level, chain, p, x, i);
    }
    assert |chain'| > 0 && chain'[0] == HEAD;
    assert forall i :: 0 <= i < |chain'| ==> mem'.Has(chain'[i], level);
    assert forall i :: 0 <= i < |chain'| ==> mem'.Next(chain'[i], level) == if i + 1 < |chain'| then chain'[i + 1] else NULL;
    forall i, j | 0 < i < j < |chain'| ensures mem'.keys[chain'[i]] < mem'.keys[chain'[j]] {
      InsertedOrder(mem, chain, p, x, i, j);
    }
    assert ChainOk(mem', level, chain');
  }

  lemma LinkedAt(mem: Memory, level: nat, chain: seq<nat>, p: nat, x: nat, i: nat)
    requires ChainOk(mem, level, chain) && p < |chain| && mem.Has(x, level) && x != HEAD && x !in chain
    requires i < |chain| + 1
    ensures var mem' := Link(mem, x, level, chain[p]); var chain' := Insert1(chain, p, x);
            && mem'.Has(chain'[i], level) && (i > 0 ==> chain'[i] != HEAD)
            && mem'.Next(chain'[i], level) == if i + 1 < |chain'| then chain'[i + 1] else NULL
  {
    hide Link;
    DistinctNodes(mem, level, chain);
    var chain' := Insert1(chain, p, x);
    var k := if i <= p then i else i - 1;
    assert chain[k] in chain && chain[p] in chain;
    if i == p + 1 {
      assert chain'[i] == x;
      LinkedNext(mem, x, level, chain[p], x);
      assert i + 1 < |chain'| ==> chain'[i + 1] == chain[p + 1];
    } else {
      assert chain'[i] == chain[k] && chain[k] != x;
      LinkedNext(mem, x, level, chain[p], chain[k]);
      assert k != p ==> chain[k] != chain[p];
      assert mem.Next(chain[k], level) == if k + 1 < |chain| then chain[k + 1] else NULL;
      assert k == p <==> i == p;
      assert i + 1 < |chain'| ==> chain'[i + 1] == if i == p then x else chain[k + 1];
    }
  }

  lemma InsertedOrder(mem: Memory, chain: seq<nat>, p: nat, x: nat, i: nat, j: nat)
    requires p < |chain| && x < |mem.keys| && forall a :: 0 <= a < |chain| ==> chain[a] < |mem.keys|
    requires forall a, b :: 0 < a < b < |chain| ==> mem.keys[chain[a]] < mem.keys[chain[b]]
    requires p > 0 ==> mem.keys[chain[p]] < mem.keys[x]
    requires p + 1 < |chain| ==> mem.keys[x] < mem.keys[chain[p + 1]]
    requires 0 < i < j < |Insert1(chain, p, x)|
    ensures var chain' := Insert1(chain, p, x); mem.keys[chain'[i]] < mem.keys[chain'[j]]
  {
    var chain' := Insert1(chain, p, x);
    assert chain'[i] == if i <= p then chain[i] else if i == p + 1 then x else chain[i - 1];
    assert chain'[j] == if j <= p then chain[j] else if j == p + 1 then x else chain[j - 1];
  }

  lemma DistinctNodes(mem: Memory, level: nat, chain: seq<nat>)
    requires ChainOk(mem, level, chain)
    ensures forall i, j :: 0 <= i < j < |chain| ==> chain[i] != chain[j]
  {
    forall i, j | 0 <= i < j < |chain| ensures chain[i] != chain[j] {
      if i > 0 {
        assert mem.keys[chain[i]] < mem.keys[chain[j]];
      }
    }
  }

  // ----- readers -----

  /** The result of a search: the first node of the bottom chain at or past the target. */
  ghost predicate IsFirstAtLeast(mem: Memory, chain: seq<nat>, target: UserKey, r: nat) {
    exists i :: 0 <= i < |chain| && FirstAt(mem, chain, target, r, i)
  }

  ghost predicate FirstAt(mem: Memory, chain: seq<nat>, target: UserKey, r: nat, i: nat)
    requires i < |chain|
  {
    && (forall a :: 0 < a <= i ==> chain[a] < |mem.keys| && mem.keys[chain[a]] < target)
    && (forall a :: i < a < |chain| ==> chain[a] < |mem.keys| && mem.keys[chain[a]] >= target)
    && r == if i + 1 < |chain| then chain[i + 1] else NULL
  }

  /** prev is the last node of the chain before the key. */
  ghost predicate Precedes(mem: Memory, chain: seq<nat>, key: UserKey, prev: nat) {
    exists i :: 0 <= i < |chain| && PrecedesAt(mem, chain, key, prev, i)
  }

  ghost predicate PrecedesAt(mem: Memory, chain: seq<nat>, key: UserKey, prev: nat, i: nat)
    requires i < |chain|
  {
    && chain[i] == prev
    && (i > 0 ==> chain[i] < |mem.keys| && mem.keys[chain[i]] < key)
    && (i + 1 < |chain| ==> chain[i + 1] < |mem.keys| && mem.keys[chain[i + 1]] >= key)
  }

  /** A search rests on a node of its level that comes before the target. */
  ghost predicate ReaderOk(mem: Memory, chains: Chains, target: UserKey, x: nat, level: nat) {
    && level < |chains| && x in chains[level]
    && (x != HEAD ==> x < |mem.keys| && mem.keys[x] < target)
  }

  lemma ReaderUndisturbed(mem: Memory, chains: Chains, mem': Memory, chains': Chains, target: UserKey, x: nat, level: nat)
    requires ReaderOk(mem, chains, target, x, level) && Grows(mem, chains, mem', chains')
    ensures ReaderOk(mem', chains', target, x, level)
  {}

  lemma ReaderStep(mem: Memory, chains: Chains, target: UserKey, x: nat, level: nat)
    requires Linked(mem, chains) && ReaderOk(mem, chains, target, x, level)
    ensures mem.Has(x, level)
    ensures var next := mem.Next(x, level);
            && (next != NULL ==> next < |mem.keys|)
            && (if next != NULL && mem.keys[next] < target then ReaderOk(mem, chains, target, next, level)
                else if level > 0 then ReaderOk(mem, chains, target, x, level - 1)
                else IsFirstAtLeast(mem, chains[0], target, next) && Precedes(mem, chains[0], target, x))
  {
    var chain := chains[level];
    assert ChainOk(mem, level, chain);
    var i :| 0 <= i < |chain| && chain[i] == x;
    var next := mem.Next(x, level);
    assert level > 0 ==> HoldsAbove(chains, level - 1);
    Along(mem, chains, level, i);
    assert next != NULL ==> i + 1 < |chain| && chain[i + 1] == next;
    if !(next != NULL && mem.keys[next] < target) && level == 0 {
      forall a | 0 < a <= i ensures mem.Has(chain[a], 0) && mem.keys[chain[a]] < target {
        assert a < i ==> mem.keys[chain[a]] < mem.keys[chain[i]];
      }
      forall a | i < a < |chain| ensures mem.Has(chain[a], 0) && mem.keys[chain[a]] >= target {
        assert i + 1 < a ==> mem.keys[chain[i + 1]] < mem.keys[chain[a]];
      }
      assert FirstAt(mem, chain, target, next, i);
      assert PrecedesAt(mem, chain, target, x, i);
    }
  }

  // ----- a search among stores -----

  /** The shared memory over time, with the chains it holds. */
  type History = seq<(Memory, Chains)>

  /** The list is well linked at every moment, and only grows. */
  ghost predicate Evolves(h: History) {
    && (forall t :: 0 <= t < |h| ==> Linked(h[t].0, h[t].1))
    && (forall t :: 0 <= t < |h| - 1 ==> Grows(h[t].0, h[t].1, h[t + 1].0, h[t + 1].1))
  }

  /** One store to the shared memory: the height, a node nothing links to yet, or one link. */
  ghost predicate OneStore(mem: Memory, mem': Memory) {
    || mem' == mem.(maxHeight := mem'.maxHeight)
    || (exists key, height :: mem' == mem.NewNode(key, height))
    || (exists x, level, y :: mem.Has(x, level) && mem' == mem.SetNext(x, level, y))
  }

  /** Every store has its moment. */
  ghost predicate StoreByStore(h: History) {
    forall t :: 0 <= t < |h| - 1 ==> OneStore(h[t].0, h[t + 1].0)
  }

  /** What one insertion makes of the memory and what the next one does are one history. */
  lemma HistoriesJoin(h: History, next: History)
    requires Evolves(h) && StoreByStore(h) && Evolves(next) && StoreByStore(next)
    requires |h| > 0 && |next| > 0 && h[|h| - 1] == next[0]
    ensures Evolves(h + next[1..]) && StoreByStore(h + next[1..])
  {
    hide Linked, Grows, OneStore;
    var all, n := h + next[1..], |h| - 1;
    assert forall t :: 0 <= t < |all| ==> all[t] == if t < n then h[t] else next[t - n];
    forall t | 0 <= t < |all| - 1
      ensures Grows(all[t].0, all[t].1, all[t + 1].0, all[t + 1].1) && OneStore(all[t].0, all[t + 1].0)
    {
      if t < n {
        assert all[t] == h[t] && all[t + 1] == h[t + 1];
      } else {
        var u := t - n;
        assert all[t] == next[u] && all[t + 1] == next[u + 1];
      }
    }
  }

  /** Where a search ends: the node it rests on, the one after it, and the moment of the last load. */
  datatype Landing = Landing(prev: nat, next: nat, at: nat)

  /** FindGreaterOrEqual, which returns `next`, and FindLessThan, which returns `prev`, make the same loads:
      `times[i]` is when link i is loaded. */
  ghost function SearchAt(h: History, times: seq<nat>, target: UserKey, x: nat, level: nat): Option<Landing>
    decreases |times|
  {
    if |times| == 0 || times[0] >= |h| || !h[times[0]].0.Has(x, level) then None
    else
      var mem := h[times[0]].0;
      var next := mem.Next(x, level);
      if next != NULL && next < |mem.keys| && mem.keys[next] < target then SearchAt(h, times[1..], target, next, level)
      else if level > 0 then SearchAt(h, times[1..], target, x, level - 1)
      else Some(Landing(x, next, times[0]))
  }

  /** FindLast, which goes right as long as there is a node. */
  ghost function LastAt(h: History, times: seq<nat>, x: nat, level: nat): Option<(nat, nat)>
    decreases |times|
  {
    if |times| == 0 || times[0] >= |h| || !h[times[0]].0.Has(x, level) then None
    else
      var next := h[times[0]].0.Next(x, level);
      if next != NULL then LastAt(h, times[1..], next, level)
      else if level > 0 then LastAt(h, times[1..], x, level - 1)
      else Some((x, times[0]))
  }

  /** The landing is right for the bottom chain: its node is the last before the target, the next the first
      at or past it. */
  ghost predicate LandsRight(h: History, target: UserKey, r: Landing) {
    && r.at < |h| && |h[r.at].1| > 0
    && Precedes(h[r.at].0, h[r.at].1[0], target, r.prev) && IsFirstAtLeast(h[r.at].0, h[r.at].1[0], target, r.next)
  }

  lemma {:induction false} ReaderLater(h: History, t: nat, u: nat, target: UserKey, x: nat, level: nat)
    requires Evolves(h) && t <= u < |h| && ReaderOk(h[t].0, h[t].1, target, x, level)
    ensures ReaderOk(h[u].0, h[u].1, target, x, level)
    decreases u
  {
    if t < u {
      ReaderLater(h, t, u - 1, target, x, level);
      ReaderUndisturbed(h[u - 1].0, h[u - 1].1, h[u].0, h[u].1, target, x, level);
    }
  }

  /** A search interleaved with any stores lands where the target falls in the bottom chain as it is at the
      search's last load. */
  lemma {:induction false} InterleavedSearch(h: History, times: seq<nat>, now: nat, target: UserKey, x: nat, level: nat)
    requires Evolves(h) && now < |h| && ReaderOk(h[now].0, h[now].1, target, x, level)
    requires forall i, j :: 0 <= i < j < |times| ==> times[i] <= times[j]
    requires forall i :: 0 <= i < |times| ==> now <= times[i]
    ensures var r := SearchAt(h, times, target, x, level);
            r.Some? ==> now <= r.value.at && LandsRight(h, target, r.value)
    decreases |times|
  {
    hide Linked, Grows, ReaderOk, IsFirstAtLeast, Precedes;
    if |times| > 0 && times[0] < |h| {
      var t := times[0];
      ReaderLater(h, now, t, target, x, level);
      var mem := h[t].0;
      assert Linked(mem, h[t].1);
      ReaderStep(mem, h[t].1, target, x, level);
      var next := mem.Next(x, level);
      if next != NULL && mem.keys[next] < target {
        InterleavedSearch(h, times[1..], t, target, next, level);
      } else if level > 0 {
        InterleavedSearch(h, times[1..], t, target, x, level - 1);
      }
    }
  }

  /** How many of the first n nodes come after node x. */
  ghost function Ahead(keys: seq<UserKey>, x: nat, n: nat): nat
    requires n <= |keys|
  {
    if n <= 1 then 0
    else Ahead(keys, x, n - 1) + if x == HEAD || (x < |keys| && keys[x] < keys[n - 1]) then 1 else 0
  }

  /** A step to the right leaves fewer of them, since the node stepped to is none. */
  lemma {:induction false} FewerAhead(keys: seq<UserKey>, x: nat, y: nat, n: nat)
    requires n <= |keys| && HEAD < y < |keys| && (x != HEAD ==> x < |keys| && keys[x] < keys[y])
    ensures Ahead(keys, y, n) + (if y < n then 1 else 0) <= Ahead(keys, x, n)
  {
    if n > 1 {
      FewerAhead(keys, x, y, n - 1);
    }
  }

  lemma {:induction false} AheadBounded(keys: seq<UserKey>, x: nat, n: nat)
    requires n <= |keys|
    ensures Ahead(keys, x, n) <= if n > 0 then n - 1 else 0
  {
    if n > 1 {
      AheadBounded(keys, x, n - 1);
    }
  }

  lemma {:induction false} KeysStay(h: History, t: nat, u: nat)
    requires Evolves(h) && t <= u < |h|
    ensures h[t].0.keys <= h[u].0.keys
    decreases u
  {
    hide Linked;
    if t < u {
      KeysStay(h, t, u - 1);
      assert Grows(h[u - 1].0, h[u - 1].1, h[u].0, h[u].1);
    }
  }

  lemma NextIsAfter(mem: Memory, chains: Chains, target: UserKey, x: nat, level: nat)
    requires Linked(mem, chains) && ReaderOk(mem, chains, target, x, level) && mem.Has(x, level)
    ensures var next := mem.Next(x, level); next != NULL ==>
      next < |mem.keys| && (x != HEAD ==> x < |mem.keys| && mem.keys[x] < mem.keys[next])
  {
    var chain := chains[level];
    assert ChainOk(mem, level, chain);
    var i :| 0 <= i < |chain| && chain[i] == x;
    Along(mem, chains, level, i);
  }

  /** The search returns once it has had a load for every level and for every node still ahead of it in the end. */
  lemma {:induction false} SearchReturns(h: History, times: seq<nat>, now: nat, target: UserKey, x: nat, level: nat)
    requires Evolves(h) && now < |h| && ReaderOk(h[now].0, h[now].1, target, x, level)
    requires forall i, j :: 0 <= i < j < |times| ==> times[i] <= times[j]
    requires forall i :: 0 <= i < |times| ==> now <= times[i] < |h|
    requires var keys := h[|h| - 1].0.keys; |times| > level + Ahead(keys, x, |keys|)
    ensures SearchAt(h, times, target, x, level).Some?
    decreases |times|
  {
    hide Linked, Grows, ReaderOk, IsFirstAtLeast, Precedes, Ahead;
    var t, keys := times[0], h[|h| - 1].0.keys;
    ReaderLater(h, now, t, target, x, level);
    var mem := h[t].0;
    assert Linked(mem, h[t].1);
    ReaderStep(mem, h[t].1, target, x, level);
    NextIsAfter(mem, h[t].1, target, x, level);
    KeysStay(h, t, |h| - 1);
    var next := mem.Next(x, level);
    if next != NULL && mem.keys[next] < target {
      FewerAhead(keys, x, next, |keys|);
      SearchReturns(h, times[1..], t, target, next, level);
    } else if level > 0 {
      SearchReturns(h, times[1..], t, target, x, level - 1);
    }
  }

  // ----- the writer, and searches without interference -----

  ghost function KeysOf(mem: Memory, chain: seq<nat>): set<UserKey> {
    set i | 0 < i < |chain| && chain[i] < |mem.keys| :: mem.keys[chain[i]]
  }

  lemma PrecedingNext(mem: Memory, level: nat, chain: seq<nat>, key: UserKey, i: nat)
    requires ChainOk(mem, level, chain) && i < |chain| && PrecedesAt(mem, chain, key, chain[i], i)
    ensures level == 0 ==> IsFirstAtLeast(mem, chain, key, mem.Next(chain[i], level))
  {
    forall a | 0 < a <= i ensures mem.Has(chain[a], level) && mem.keys[chain[a]] < key {
      assert a < i ==> mem.keys[chain[a]] < mem.keys[chain[i]];
    }
    forall a | i < a < |chain| ensures mem.Has(chain[a], level) && mem.keys[chain[a]] >= key {
      assert i + 1 < a ==> mem.keys[chain[i + 1]] < mem.keys[chain[a]];
    }
    assert FirstAt(mem, chain, key, mem.Next(chain[i], level), i);
  }

  lemma Along(mem: Memory, chains: Chains, level: nat, i: nat)
    requires Linked(mem, chains) && level < kMaxHeight && i < |chains[level]|
    ensures mem.Has(chains[level][i], level) && (i > 0 ==> chains[level][i] != HEAD)
    ensures mem.Next(chains[level][i], level) == if i + 1 < |chains[level]| then chains[level][i + 1] else NULL
    ensures i + 1 < |chains[level]| ==> chains[level][i + 1] != NULL && chains[level][i + 1] < |mem.keys|
  {
    assert ChainOk(mem, level, chains[level]);
    assert i + 1 < |chains[level]| ==> mem.Has(chains[level][i + 1], level);
  }

  lemma Down(mem: Memory, chains: Chains, level: nat, i: nat) returns (j: nat)
    requires Linked(mem, chains) && 0 < level < kMaxHeight && i < |chains[level]|
    ensures j < |chains[level - 1]| && chains[level - 1][j] == chains[level][i] && (j > 0 ==> i > 0)
  {
    assert HoldsAbove(chains, level - 1);
    assert chains[level][i] in chains[level];
    var x := chains[level][i];
    assert x in chains[level - 1];
    j :| 0 <= j < |chains[level - 1]| && chains[level - 1][j] == x;
    assert ChainOk(mem, level, chains[level]) && ChainOk(mem, level - 1, chains[level - 1]);
  }

  class SkipList {
    var mem: Memory
    ghost var chains: Chains

    constructor ()
      ensures Valid() && chains[0] == [HEAD]
    {
      var none: seq<nat> := seq(kMaxHeight, _ => NULL);
      mem := Memory([0.0], [none], 1);
      chains := seq(kMaxHeight, _ => [HEAD]);
      new;
      forall l | 0 <= l < kMaxHeight ensures ChainOk(mem, l, chains[l]) && HoldsAbove(chains, l) {
        assert mem.Has(HEAD, l) && mem.Next(HEAD, l) == NULL;
        assert chains[l] == [HEAD];
      }
    }

    ghost predicate Valid()
      reads this
    {
      Linked(mem, chains)
    }

    /** Insert: links the new node level by level, from the bottom up.  `h` is the shared memory
        before and after every single store: at each moment the list is well linked, and it only grows. */
    method Insert(key: UserKey, height: nat) returns (ghost h: History)
      requires Valid() && key !in KeysOf(mem, chains[0]) && 1 <= height <= kMaxHeight
      modifies this
      ensures Valid() && KeysOf(mem, chains[0]) == old(KeysOf(mem, chains[0])) + {key}
      ensures Evolves(h) && StoreByStore(h)
      ensures |h| > 0 && h[0] == (old(mem), old(chains)) && h[|h| - 1] == (mem, chains)
      ensures forall l :: height <= l < kMaxHeight ==> chains[l] == old(chains[l])
      ensures mem.keys == old(mem.keys) + [key] && |mem.links| == |mem.keys| && |mem.links[|old(mem.keys)|]| == height
      ensures forall l :: 0 <= l < height ==> Gained(old(chains[l]), chains[l], |old(mem.keys)|)
    {
      hide Linked, Grows, Evolves, StoreByStore, OneStore, Precedes, ChainOk, KeysOf, Gained;
      h := [(mem, chains)];
      HistoryStart(mem, chains);
      NoLevelHas(mem, chains, key);
      Bounds(mem, chains);
      var node: nat, prev: seq<nat> := FindGreaterOrEqual(key);
      if height > mem.maxHeight {
        for l := mem.maxHeight to height
          invariant |prev| == kMaxHeight && mem == old(mem) && chains == old(chains)
          invariant forall m :: 0 <= m < l ==> Precedes(mem, chains[m], key, prev[m])
        {
          EmptyAbove(mem, chains, key, l);
          prev := prev[l := HEAD];
        }
        Heighten(mem, chains, height);
        HeightStored(mem, height);
        HistoryAppends(h, mem.(maxHeight := height), chains);
        mem := mem.(maxHeight := height);
        h := h + [(mem, chains)];
      }
      var x := |mem.keys|;
      Allocate(mem, chains, key, height);
      forall l | 0 <= l < height ensures Precedes(mem.NewNode(key, height), chains[l], key, prev[l]) {
        PrecedesStays(mem, chains, key, height, l, prev[l]);
      }
      NodeStored(mem, key, height);
      HistoryAppends(h, mem.NewNode(key, height), chains);
      mem := mem.NewNode(key, height);
      h := h + [(mem, chains)];
      ghost var start := (chains, KeysOf(mem, chains[0]));
      assert Ready(mem, chains, key, x, height, prev, 0, start.0, start.1);
      for i := 0 to height
        invariant Linked(mem, chains) && Evolves(h) && StoreByStore(h)
        invariant |h| > 0 && h[0] == old((mem, chains)) && h[|h| - 1] == (mem, chains)
        invariant Ready(mem, chains, key, x, height, prev, i, start.0, start.1)
        invariant mem.keys == old(mem.keys) + [key] && x < |mem.links| == |mem.keys| && |mem.links[x]| == height
      {
        hide Ready, Memory.SetNext;
        ghost var p := Round(mem, chains, key, x, height, prev, i, start.0, start.1);
        LinkStored(mem, x, i, mem.Next(prev[i], i));
        mem := mem.SetNext(x, i, mem.Next(prev[i], i));
        HistoryAppends(h, mem, chains);
        h := h + [(mem, chains)];
        LinkStored(mem, prev[i], i, x);
        mem := mem.SetNext(prev[i], i, x);
        chains := chains[i := Insert1(chains[i], p, x)];
        HistoryAppends(h, mem, chains);
        h := h + [(mem, chains)];
      }
    }

    /** First node at or past the key, and the nodes before it on every level in use. */
    method FindGreaterOrEqual(key: UserKey) returns (node: nat, prev: seq<nat>)
      requires Valid()
      ensures |prev| == kMaxHeight
      ensures forall l :: 0 <= l < mem.maxHeight ==> Precedes(mem, chains[l], key, prev[l])
      ensures IsFirstAtLeast(mem, chains[0], key, node)
    {
      hide IsFirstAtLeast, Precedes, ChainOk, HoldsAbove;
      prev := seq(kMaxHeight, _ => HEAD);
      var x := HEAD;
      var level := mem.maxHeight - 1;
      ghost var i: nat := 0;
      assert chains[level][0] == HEAD by { HeadFirst(mem, chains, level); }
      while true
        invariant 0 <= level < mem.maxHeight && |prev| == kMaxHeight
        invariant i < |chains[level]| && chains[level][i] == x
        invariant i > 0 ==> x < |mem.keys| && mem.keys[x] < key
        invariant forall l :: level < l < mem.maxHeight ==> Precedes(mem, chains[l], key, prev[l])
        decreases level, |chains[level]| - i
      {
        Along(mem, chains, level, i);
        var next := mem.Next(x, level);
        if next != NULL && mem.keys[next] < key {
          x := next;
          i := i + 1;
        } else {
          prev := prev[level := x];
          PrecedesHere(mem, chains[level], key, x, i);
          if level == 0 {
            Landed(i, key);
            return next, prev;
          } else {
            i := Down(mem, chains, level, i);
            level := level - 1;
          }
        }
      }
    }

    lemma Landed(i: nat, key: UserKey)
      requires Valid() && i < |chains[0]| && PrecedesAt(mem, chains[0], key, chains[0][i], i) && mem.Has(chains[0][i], 0)
      ensures IsFirstAtLeast(mem, chains[0], key, mem.Next(chains[0][i], 0))
    {
      assert ChainOk(mem, 0, chains[0]);
      PrecedingNext(mem, 0, chains[0], key, i);
    }

    lemma PrecedesHere(mem: Memory, chain: seq<nat>, key: UserKey, prev: nat, i: nat)
      requires i < |chain| && PrecedesAt(mem, chain, key, prev, i)
      ensures Precedes(mem, chain, key, prev)
    {}

    /** Last node before the key. */
    method FindLessThan(key: UserKey) returns (x: nat)
      requires Valid()
      ensures Precedes(mem, chains[0], key, x)
    {
      hide Precedes, ChainOk, HoldsAbove;
      x := HEAD;
      var level := mem.maxHeight - 1;
      ghost var i: nat := 0;
      assert chains[level][0] == HEAD by { HeadFirst(mem, chains, level); }
      while true
        invariant 0 <= level < mem.maxHeight
        invariant i < |chains[level]| && chains[level][i] == x
        invariant i > 0 ==> x < |mem.keys| && mem.keys[x] < key
        decreases level, |chains[level]| - i
      {
        Along(mem, chains, level, i);
        var next := mem.Next(x, level);
        if next == NULL || mem.keys[next] >= key {
          if level == 0 {
            PrecedesHere(mem, chains[0], key, x, i);
            return;
          } else {
            i := Down(mem, chains, level, i);
            level := level - 1;
          }
        } else {
          x := next;
          i := i + 1;
        }
      }
    }

    /** Last node of the list, or the head. */
    method FindLast() returns (x: nat)
      requires Valid()
      ensures |chains[0]| > 0 && x == chains[0][|chains[0]| - 1]
    {
      hide ChainOk, HoldsAbove;
      x := HEAD;
      var level := mem.maxHeight - 1;
      ghost var i: nat := 0;
      assert chains[level][0] == HEAD by { HeadFirst(mem, chains, level); }
      while true
        invariant 0 <= level < mem.maxHeight
        invariant i < |chains[level]| && chains[level][i] == x
        decreases level, |chains[level]| - i
      {
        Along(mem, chains, level, i);
        var next := mem.Next(x, level);
        if next == NULL {
          if level == 0 {
            return;
          } else {
            i := Down(mem, chains, level, i);
            level := level - 1;
          }
        } else {
          x := next;
          i := i + 1;
        }
      }
    }

    method Contains(key: UserKey) returns (found: bool)
      requires Valid()
      ensures found <==> key in KeysOf(mem, chains[0])
    {
      var x, prev := FindGreaterOrEqual(key);
      FirstDecides(mem, chains, key, x);
      found := x != NULL && mem.keys[x] == key;
    }
  }

  /** SkipList::Iterator. */
  class Iterator {
    const list: SkipList
    var node: nat  // NULL when not valid

    constructor (list: SkipList)
      ensures this.list == list && node == NULL
    {
      this.list := list;
      node := NULL;
    }

    /** The iterator is at entry i of the list; entry 0 is the head, standing for "not valid". */
    ghost predicate At(i: nat)
      reads this, list
    {
      list.Valid() && i < |list.chains[0]| && node == list.chains[0][i]
    }

    method Next(ghost i: nat)
      requires At(i) && node != NULL
      modifies this
      ensures At(if i + 1 < |list.chains[0]| then i + 1 else 0)
    {
      Along(list.mem, list.chains, 0, i);
      HeadFirst(list.mem, list.chains, 0);
      node := list.mem.Next(node, 0);
    }

    /** There are no back links: Prev searches for the last node before its own key. */
    method Prev(ghost i: nat)
      requires At(i) && node != NULL
      modifies this
      ensures At(i - 1)
    {
      var key := NodeKey(i);
      node := list.FindLessThan(key);
      PrecedesOwn(list.mem, list.chains, i, node);
      if node == HEAD {
        node := NULL;
      }
    }

    method NodeKey(ghost i: nat) returns (key: UserKey)
      requires At(i) && node != NULL
      ensures i > 0 && node < |list.mem.keys| && key == list.mem.keys[node]
    {
      Along(list.mem, list.chains, 0, i);
      HeadFirst(list.mem, list.chains, 0);
      key := list.mem.keys[node];
    }

    method Seek(target: UserKey)
      requires list.Valid()
      modifies this
      ensures IsFirstAtLeast(list.mem, list.chains[0], target, node)
    {
      var prev;
      node, prev := list.FindGreaterOrEqual(target);
    }

    method SeekToFirst()
      requires list.Valid()
      modifies this
      ensures At(if |list.chains[0]| > 1 then 1 else 0)
    {
      HeadFirst(list.mem, list.chains, 0);
      Along(list.mem, list.chains, 0, 0);
      node := list.mem.Next(HEAD, 0);
    }

    method SeekToLast()
      requires list.Valid()
      modifies this
      ensures |list.chains[0]| > 0 && At(|list.chains[0]| - 1)
    {
      HeadFirst(list.mem, list.chains, 0);
      node := list.FindLast();
      if node == HEAD {
        node := NULL;
      }
    }
  }

  lemma PrecedesOwn(mem: Memory, chains: Chains, i: nat, prev: nat)
    requires Linked(mem, chains) && 0 < i < |chains[0]| && chains[0][i] < |mem.keys|
    requires Precedes(mem, chains[0], mem.keys[chains[0][i]], prev)
    ensures prev == chains[0][i - 1]
  {
    var chain := chains[0];
    assert ChainOk(mem, 0, chain);
    var j :| 0 <= j < |chain| && PrecedesAt(mem, chain, mem.keys[chain[i]], prev, j);
    if j > 0 {
      KeyOrder(mem, 0, chain, i, j);
    }
    if j + 1 < |chain| {
      KeyOrder(mem, 0, chain, j + 1, i);
    }
  }

  lemma KeyOrder(mem: Memory, level: nat, chain: seq<nat>, a: nat, b: nat)
    requires ChainOk(mem, level, chain) && 0 < a < |chain| && 0 < b < |chain|
    ensures chain[a] < |mem.keys| && chain[b] < |mem.keys|
    ensures a < b <==> mem.keys[chain[a]] < mem.keys[chain[b]]
  {
    assert mem.Has(chain[a], level) && mem.Has(chain[b], level);
  }

  lemma FirstDecides(mem: Memory, chains: Chains, key: UserKey, x: nat)
    requires Linked(mem, chains) && IsFirstAtLeast(mem, chains[0], key, x)
    ensures x != NULL ==> x < |mem.keys|
    ensures key in KeysOf(mem, chains[0]) <==> x != NULL && mem.keys[x] == key
  {
    var chain := chains[0];
    assert ChainOk(mem, 0, chain);
    var i :| 0 <= i < |chain| && FirstAt(mem, chain, key, x, i);
    if key in KeysOf(mem, chain) {
      var a :| 0 < a < |chain| && chain[a] < |mem.keys| && mem.keys[chain[a]] == key;
      assert a > i;
      KeyOrder(mem, 0, chain, i + 1, a);
    }
    if i + 1 < |chain| {
      assert mem.keys[chain[i + 1]] in KeysOf(mem, chain);
    }
  }

  /** A search begun at any moment, at the height it happens to read, is answered from the
      list as it is at its last load. */
  lemma SearchIsLinearizable(h: History, times: seq<nat>, start: nat, target: UserKey, level: nat)
    requires Evolves(h) && start < |h| && level < kMaxHeight
    requires forall i, j :: 0 <= i < j < |times| ==> times[i] <= times[j]
    requires forall i :: 0 <= i < |times| ==> start <= times[i]
    ensures var r := SearchAt(h, times, target, HEAD, level);
            r.Some? ==> start <= r.value.at && LandsRight(h, target, r.value)
    ensures (forall i :: 0 <= i < |times| ==> times[i] < |h|) && |times| >= |h[|h| - 1].0.keys| + level ==>
      SearchAt(h, times, target, HEAD, level).Some?
  {
    HeadFirst(h[start].0, h[start].1, level);
    InterleavedSearch(h, times, start, target, HEAD, level);
    var keys := h[|h| - 1].0.keys;
    AheadBounded(keys, HEAD, |keys|);
    HasHead(h[|h| - 1].0, h[|h| - 1].1);
    if (forall i :: 0 <= i < |times| ==> times[i] < |h|) && |times| >= |keys| + level {
      SearchReturns(h, times, start, target, HEAD, level);
    }
  }

  ghost predicate AllBelow(keys: seq<UserKey>, target: UserKey) {
    forall i :: 0 <= i < |keys| ==> keys[i] < target
  }

  /** To FindLast the target is past every key there will be. */
  lemma {:induction false} LastIsSearch(h: History, times: seq<nat>, now: nat, target: UserKey, x: nat, level: nat)
    requires Evolves(h) && now < |h| && ReaderOk(h[now].0, h[now].1, target, x, level)
    requires forall i, j :: 0 <= i < j < |times| ==> times[i] <= times[j]
    requires forall i :: 0 <= i < |times| ==> now <= times[i]
    requires AllBelow(h[|h| - 1].0.keys, target)
    ensures LastAt(h, times, x, level) ==
      match SearchAt(h, times, target, x, level)
      case None => None
      case Some(r) => Some((r.prev, r.at))
    decreases |times|
  {
    hide Linked, Grows, ReaderOk, IsFirstAtLeast, Precedes;
    if |times| > 0 && times[0] < |h| {
      var t := times[0];
      ReaderLater(h, now, t, target, x, level);
      var mem := h[t].0;
      assert Linked(mem, h[t].1);
      ReaderStep(mem, h[t].1, target, x, level);
      KeysStay(h, t, |h| - 1);
      var next := mem.Next(x, level);
      assert next != NULL ==> mem.keys[next] == h[|h| - 1].0.keys[next];
      if next != NULL {
        LastIsSearch(h, times[1..], t, target, next, level);
      } else if level > 0 {
        LastIsSearch(h, times[1..], t, target, x, level - 1);
      }
    }
  }

  lemma {:induction false} PastAll(keys: seq<UserKey>) returns (target: UserKey)
    ensures AllBelow(keys, target)
  {
    if |keys| == 0 {
      target := 0.0;
    } else {
      var rest := PastAll(keys[1..]);
      target := if keys[0] < rest then rest else keys[0] + 1.0;
      assert keys == [keys[0]] + keys[1..];
    }
  }

  /** The search for the last node is answered from the list as it is at its last load too. */
  lemma LastIsLinearizable(h: History, times: seq<nat>, start: nat, level: nat)
    requires Evolves(h) && start < |h| && level < kMaxHeight
    requires forall i, j :: 0 <= i < j < |times| ==> times[i] <= times[j]
    requires forall i :: 0 <= i < |times| ==> start <= times[i]
    ensures var r := LastAt(h, times, HEAD, level);
            r.Some? ==> start <= r.value.1 < |h| && IsLast(h[r.value.1].1, r.value.0)
    ensures (forall i :: 0 <= i < |times| ==> times[i] < |h|) && |times| >= |h[|h| - 1].0.keys| + level ==>
      LastAt(h, times, HEAD, level).Some?
  {
    hide Grows, Precedes, IsFirstAtLeast;
    var target := PastAll(h[|h| - 1].0.keys);
    HeadFirst(h[start].0, h[start].1, level);
    LastIsSearch(h, times, start, target, HEAD, level);
    SearchIsLinearizable(h, times, start, target, level);
    var r := SearchAt(h, times, target, HEAD, level);
    if r.Some? {
      KeysStay(h, r.value.at, |h| - 1);
      LastBeforePast(h[r.value.at].0, h[r.value.at].1, target, r.value.prev);
    }
  }

  /** The last node of the bottom chain, or the head. */
  ghost predicate IsLast(chains: Chains, x: nat) {
    |chains| > 0 && |chains[0]| > 0 && x == chains[0][|chains[0]| - 1]
  }

  lemma LastBeforePast(mem: Memory, chains: Chains, target: UserKey, x: nat)
    requires Linked(mem, chains) && Precedes(mem, chains[0], target, x) && AllBelow(mem.keys, target)
    ensures IsLast(chains, x)
  {
    var i :| 0 <= i < |chains[0]| && PrecedesAt(mem, chains[0], target, x, i);
  }

  lemma HasHead(mem: Memory, chains: Chains)
    requires Linked(mem, chains)
    ensures |mem.keys| > 0
  {
    assert ChainOk(mem, 0, chains[0]) && mem.Has(chains[0][0], 0);
  }

  lemma HeadFirst(mem: Memory, chains: Chains, level: nat)
    requires Linked(mem, chains) && level < kMaxHeight
    ensures |chains[level]| > 0 && chains[level][0] == HEAD
  {
    assert ChainOk(mem, level, chains[level]);
  }

  lemma HistoryStart(mem: Memory, chains: Chains)
    requires Linked(mem, chains)
    ensures Evolves([(mem, chains)]) && StoreByStore([(mem, chains)])
  {}

  lemma HeightStored(mem: Memory, height: nat)
    ensures OneStore(mem, mem.(maxHeight := height))
  {}

  lemma NodeStored(mem: Memory, key: UserKey, height: nat)
    ensures OneStore(mem, mem.NewNode(key, height))
  {}

  lemma LinkStored(mem: Memory, x: nat, level: nat, y: nat)
    requires mem.Has(x, level)
    ensures OneStore(mem, mem.SetNext(x, level, y))
    ensures var mem' := mem.SetNext(x, level, y);
      mem'.keys == mem.keys && |mem'.links| == |mem.links| && forall z :: 0 <= z < |mem.links| ==> |mem'.links[z]| == |mem.links[z]|
  {}

  lemma HistoryAppends(h: History, mem: Memory, chains: Chains)
    requires Evolves(h) && |h| > 0 && Linked(mem, chains) && Grows(h[|h| - 1].0, h[|h| - 1].1, mem, chains)
    requires StoreByStore(h) && OneStore(h[|h| - 1].0, mem)
    ensures Evolves(h + [(mem, chains)]) && StoreByStore(h + [(mem, chains)])
  {
    hide Linked, Grows, OneStore;
    var h' := h + [(mem, chains)];
    forall t | 0 <= t < |h'| - 1
      ensures Grows(h'[t].0, h'[t].1, h'[t + 1].0, h'[t + 1].1) && OneStore(h'[t].0, h'[t + 1].0)
    {
      if t < |h| - 1 {
        assert h'[t] == h[t] && h'[t + 1] == h[t + 1];
      }
    }
  }

  lemma NoLevelHas(mem: Memory, chains: Chains, key: UserKey)
    requires Linked(mem, chains) && key !in KeysOf(mem, chains[0])
    ensures forall l :: 0 <= l < kMaxHeight ==> key !in KeysOf(mem, chains[l])
  {
    forall l | 0 <= l < kMaxHeight ensures key !in KeysOf(mem, chains[l]) {
      NotAbove(mem, chains, key, l);
    }
  }

  lemma {:induction false} NotAbove(mem: Memory, chains: Chains, key: UserKey, l: nat)
    requires Linked(mem, chains) && key !in KeysOf(mem, chains[0]) && l < kMaxHeight
    ensures key !in KeysOf(mem, chains[l])
  {
    if l > 0 {
      NotAbove(mem, chains, key, l - 1);
      assert HoldsAbove(chains, l - 1);
      forall i | 0 < i < |chains[l]| && chains[l][i] < |mem.keys| ensures mem.keys[chains[l][i]] != key {
        var x := chains[l][i];
        assert x in chains[l] && x in chains[l - 1];
        assert ChainOk(mem, l, chains[l]) && ChainOk(mem, l - 1, chains[l - 1]);
        var j :| 0 <= j < |chains[l - 1]| && chains[l - 1][j] == x;
        assert mem.keys[chains[l - 1][j]] in KeysOf(mem, chains[l - 1]);
      }
    }
  }

  lemma EmptyAbove(mem: Memory, chains: Chains, key: UserKey, l: nat)
    requires Linked(mem, chains) && mem.maxHeight <= l < kMaxHeight
    ensures Precedes(mem, chains[l], key, HEAD)
  {
    assert PrecedesAt(mem, chains[l], key, HEAD, 0);
  }

  /** Readers that see the new height early meet empty levels. */
  lemma Heighten(mem: Memory, chains: Chains, height: nat)
    requires Linked(mem, chains) && mem.maxHeight <= height <= kMaxHeight
    ensures Linked(mem.(maxHeight := height), chains) && Grows(mem, chains, mem.(maxHeight := height), chains)
    ensures forall chain :: KeysOf(mem.(maxHeight := height), chain) == KeysOf(mem, chain)
    ensures forall chain, key, prev ::
      Precedes(mem, chain, key, prev) ==> Precedes(mem.(maxHeight := height), chain, key, prev)
  {
    var mem' := mem.(maxHeight := height);
    forall l | 0 <= l < kMaxHeight ensures ChainOk(mem', l, chains[l]) {
      assert ChainOk(mem, l, chains[l]);
    }
    forall chain ensures KeysOf(mem', chain) == KeysOf(mem, chain) {
      SameKeys(mem, mem', chain);
    }
    forall chain, key, prev | Precedes(mem, chain, key, prev) ensures Precedes(mem', chain, key, prev) {
      KeysDecide(mem, mem', chain, key, prev);
    }
  }

  lemma Bounds(mem: Memory, chains: Chains)
    requires Linked(mem, chains)
    ensures |chains| == kMaxHeight && 1 <= mem.maxHeight <= kMaxHeight
  {}

  /** A node no link points to changes nothing for readers. */
  lemma Allocate(mem: Memory, chains: Chains, key: UserKey, height: nat)
    requires Linked(mem, chains) && 1 <= height
    ensures var mem' := mem.NewNode(key, height); var x := |mem.keys|;
            && Linked(mem', chains) && Grows(mem, chains, mem', chains)
            && mem'.keys[x] == key && x != HEAD && (forall l :: 0 <= l < height ==> mem'.Has(x, l))
            && (forall l :: 0 <= l < kMaxHeight ==> x !in chains[l] && KeysOf(mem', chains[l]) == KeysOf(mem, chains[l]))
  {
    var mem' := mem.NewNode(key, height);
    assert ChainOk(mem, 0, chains[0]) && mem.Has(chains[0][0], 0);
    forall l | 0 <= l < kMaxHeight
      ensures ChainOk(mem', l, chains[l]) && |mem.keys| !in chains[l] && KeysOf(mem', chains[l]) == KeysOf(mem, chains[l])
    {
      assert ChainOk(mem, l, chains[l]);
      forall i | 0 <= i < |chains[l]| ensures mem'.Has(chains[l][i], l) && mem'.Next(chains[l][i], l) == mem.Next(chains[l][i], l) {
        assert mem.Has(chains[l][i], l);
      }
      assert ChainOk(mem', l, chains[l]);
    }
  }

  lemma PrecedesStays(mem: Memory, chains: Chains, key: UserKey, height: nat, l: nat, prev: nat)
    requires l < |chains| && Precedes(mem, chains[l], key, prev)
    ensures Precedes(mem.NewNode(key, height), chains[l], key, prev)
  {
    var i :| 0 <= i < |chains[l]| && PrecedesAt(mem, chains[l], key, prev, i);
    assert PrecedesAt(mem.NewNode(key, height), chains[l], key, prev, i);
  }

  /** Links do not matter for what precedes a key. */
  lemma KeysDecide(mem: Memory, mem': Memory, chain: seq<nat>, key: UserKey, prev: nat)
    requires mem.keys == mem'.keys && Precedes(mem, chain, key, prev)
    ensures Precedes(mem', chain, key, prev)
  {
    var i :| 0 <= i < |chain| && PrecedesAt(mem, chain, key, prev, i);
    assert PrecedesAt(mem', chain, key, prev, i);
  }

  lemma SameKeys(mem: Memory, mem': Memory, chain: seq<nat>)
    requires mem.keys == mem'.keys
    ensures KeysOf(mem, chain) == KeysOf(mem', chain)
  {}

  /** Where in its level the predecessor stands. */
  lemma Place(mem: Memory, chains: Chains, key: UserKey, l: nat, prev: nat) returns (p: nat)
    requires Linked(mem, chains) && l < kMaxHeight && Precedes(mem, chains[l], key, prev)
    ensures p < |chains[l]| && chains[l][p] == prev && PrecedesAt(mem, chains[l], key, prev, p) && mem.Has(prev, l)
  {
    p :| 0 <= p < |chains[l]| && PrecedesAt(mem, chains[l], key, prev, p);
    assert ChainOk(mem, l, chains[l]);
  }

  lemma OwnLink(mem: Memory, chains: Chains, x: nat, i: nat, y: nat)
    requires Linked(mem, chains) && i < kMaxHeight && mem.Has(x, i) && x !in chains[i]
    ensures Linked(mem.SetNext(x, i, y), chains) && Grows(mem, chains, mem.SetNext(x, i, y), chains)
  {
    forall l | 0 <= l < kMaxHeight ensures ChainOk(mem.SetNext(x, i, y), l, chains[l]) {
      assert ChainOk(mem, l, chains[l]);
      OwnLinkInvisible(mem, x, i, y, l, chains[l]);
    }
  }

  /** Publishing the node on level i, already linked on the levels below. */
  lemma Publish(mem: Memory, chains: Chains, key: UserKey, x: nat, i: nat, p: nat)
    requires Linked(mem, chains) && i < mem.maxHeight && x < |mem.keys| && mem.keys[x] == key
    requires mem.Has(x, i) && x != HEAD && x !in chains[i] && (i > 0 ==> x in chains[i - 1])
    requires p < |chains[i]| && PrecedesAt(mem, chains[i], key, chains[i][p], p) && key !in KeysOf(mem, chains[i])
    requires mem.Has(chains[i][p], i)
    ensures var prev := chains[i][p]; var mem1 := mem.SetNext(x, i, mem.Next(prev, i));
            var mem2 := mem1.SetNext(prev, i, x); var chains' := chains[i := Insert1(chains[i], p, x)];
            && Linked(mem2, chains') && Grows(mem1, chains, mem2, chains')
            && KeysOf(mem2, chains'[i]) == KeysOf(mem, chains[i]) + {key} && x in chains'[i]
  {
    var prev := chains[i][p];
    var mem2 := Link(mem, x, i, prev);
    var chains' := chains[i := Insert1(chains[i], p, x)];
    assert ChainOk(mem, i, chains[i]);
    StrictlyPlaced(mem, chains, key, i, p);
    LinkKeepsChain(mem, i, chains[i], p, x);
    InsertedElements(chains[i], p, x);
    forall l | 0 <= l < kMaxHeight ensures ChainOk(mem2, l, chains'[l]) {
      assert ChainOk(mem, l, chains[l]);
      if l != i {
        OtherLevelsKept(mem, x, i, prev, l, chains[l]);
      }
    }
    forall l | 0 <= l < kMaxHeight ensures HoldsAbove(chains', l) {
      assert HoldsAbove(chains, l);
    }
    InsertedKeys(mem, mem2, chains[i], p, x);
  }

  /** Rounds 0..i of Insert are done: the node is on the levels below i and on no other. */
  /** The new node is the only one that came to the chain, and none left it. */
  ghost predicate Gained(before: seq<nat>, after: seq<nat>, x: nat) {
    forall y :: y in after <==> y in before || y == x
  }

  ghost predicate Ready(mem: Memory, chains: Chains, key: UserKey, x: nat, height: nat, prev: seq<nat>, i: nat,
                        chains0: Chains, keys0: set<UserKey>) {
    && |chains| == |chains0| == |prev| == kMaxHeight && i <= height <= mem.maxHeight <= kMaxHeight
    && x != HEAD && x < |mem.keys| && mem.keys[x] == key && (forall l :: 0 <= l < height ==> mem.Has(x, l))
    && (forall l :: i <= l < kMaxHeight ==> x !in chains[l] && key !in KeysOf(mem, chains[l]) && chains[l] == chains0[l])
    && (forall l :: i <= l < height ==> Precedes(mem, chains[l], key, prev[l]))
    && (i > 0 ==> x in chains[i - 1]) && (forall l :: 0 <= l < i ==> Gained(chains0[l], chains[l], x))
    && KeysOf(mem, chains[0]) == keys0 + (if i > 0 then {key} else {})
  }

  lemma InsertGains(chain: seq<nat>, p: nat, x: nat)
    requires p < |chain|
    ensures Gained(chain, Insert1(chain, p, x), x)
  {
    forall y ensures y in Insert1(chain, p, x) <==> y in chain || y == x {
      assert chain == chain[..p + 1] + chain[p + 1..];
    }
  }

  lemma Round(mem: Memory, chains: Chains, key: UserKey, x: nat, height: nat, prev: seq<nat>, i: nat,
              chains0: Chains, keys0: set<UserKey>) returns (p: nat)
    requires Linked(mem, chains) && i < height && Ready(mem, chains, key, x, height, prev, i, chains0, keys0)
    ensures i < |chains| && i < |prev| && mem.Has(x, i) && mem.Has(prev[i], i) && p < |chains[i]|
    ensures var mem1 := mem.SetNext(x, i, mem.Next(prev[i], i));
            && Linked(mem1, chains) && Grows(mem, chains, mem1, chains) && mem1.Has(prev[i], i)
    ensures var mem1 := mem.SetNext(x, i, mem.Next(prev[i], i)); var mem2 := mem1.SetNext(prev[i], i, x);
            var chains' := chains[i := Insert1(chains[i], p, x)];
            && Linked(mem2, chains') && Grows(mem1, chains, mem2, chains')
            && Ready(mem2, chains', key, x, height, prev, i + 1, chains0, keys0)
  {
    hide Linked, Grows, Precedes, KeysOf, Gained;
    p := Place(mem, chains, key, i, prev[i]);
    OwnLink(mem, chains, x, i, mem.Next(prev[i], i));
    Publish(mem, chains, key, x, i, p);
    var mem1 := mem.SetNext(x, i, mem.Next(prev[i], i));
    var mem2 := mem1.SetNext(prev[i], i, x);
    var chains' := chains[i := Insert1(chains[i], p, x)];
    InsertGains(chains[i], p, x);
    forall l | i < l < kMaxHeight
      ensures key !in KeysOf(mem2, chains'[l]) && (l < height ==> Precedes(mem2, chains'[l], key, prev[l]))
    {
      SameKeys(mem, mem2, chains[l]);
      if l < height {
        KeysDecide(mem, mem2, chains[l], key, prev[l]);
      }
    }
    if i > 0 {
      SameKeys(mem, mem2, chains[0]);
    }
    forall l | 0 <= l < height ensures mem2.Has(x, l) {
      assert mem.Has(x, l);
    }
  }

  lemma StrictlyPlaced(mem: Memory, chains: Chains, key: UserKey, i: nat, p: nat)
    requires Linked(mem, chains) && i < kMaxHeight && p < |chains[i]| && PrecedesAt(mem, chains[i], key, chains[i][p], p)
    requires key !in KeysOf(mem, chains[i])
    ensures p > 0 ==> mem.keys[chains[i][p]] < key
    ensures p + 1 < |chains[i]| ==> chains[i][p + 1] < |mem.keys| && mem.keys[chains[i][p + 1]] > key
  {
    assert ChainOk(mem, i, chains[i]);
    if p + 1 < |chains[i]| {
      assert mem.keys[chains[i][p + 1]] in KeysOf(mem, chains[i]);
    }
  }

  lemma InsertedElements(chain: seq<nat>, p: nat, x: nat)
    requires p < |chain|
    ensures forall y :: y in Insert1(chain, p, x) <==> y == x || y in chain
  {
    assert chain == chain[..p + 1] + chain[p + 1..];
  }

  lemma InsertedKeys(mem: Memory, mem': Memory, chain: seq<nat>, p: nat, x: nat)
    requires p < |chain| && mem.keys == mem'.keys && x < |mem.keys|
    ensures KeysOf(mem', Insert1(chain, p, x)) == KeysOf(mem, chain) + {mem.keys[x]}
  {
    var chain' := Insert1(chain, p, x);
    assert chain'[p + 1] == x;
    forall k ensures k in KeysOf(mem', chain') <==> k in KeysOf(mem, chain) + {mem.keys[x]} {
      if k in KeysOf(mem, chain) {
        var i :| 0 < i < |chain| && chain[i] < |mem.keys| && mem.keys[chain[i]] == k;
        assert chain'[if i <= p then i else i + 1] == chain[i];
      }
      if k in KeysOf(mem', chain') {
        var i :| 0 < i < |chain'| && chain'[i] < |mem.keys| && mem.keys[chain'[i]] == k;
        assert i != p + 1 ==> chain'[i] == chain[if i <= p then i else i - 1];
      }
    }
  }
}
