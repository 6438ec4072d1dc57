/** MergingIterator: one bidirectional iterator over several (table/merger.cc). */
module Merger {
  import opened Common
  import opened InternalKeys
  import opened Iterators

  // ----- places in the sorted union -----

  /** Where an entry of a child stands in the sorted union. */
  ghost function Rank(merged: seq<Entry>, e: Entry): (r: nat)
    requires e in merged
    ensures r < |merged| && merged[r] == e
  {
    var r :| 0 <= r < |merged| && merged[r] == e;
    r
  }

  lemma RankOrder(merged: seq<Entry>, a: Entry, b: Entry)
    requires Sorted(merged) && a in merged && b in merged
    ensures Less(a.IKey(), b.IKey()) <==> Rank(merged, a) < Rank(merged, b)
    ensures a.IKey() == b.IKey() <==> Rank(merged, a) == Rank(merged, b)
  {}

  ghost predicate Increasing(r: seq<nat>) {
    forall p, q :: 0 <= p < q < |r| ==> r[p] < r[q]
  }

  /** The children's ranks split 0..n among them. */
  ghost predicate Partition(ranks: seq<seq<nat>>, n: nat) {
    && (forall j :: 0 <= j < |ranks| ==> Increasing(ranks[j]))
    && (forall j, p :: 0 <= j < |ranks| && 0 <= p < |ranks[j]| ==> ranks[j][p] < n)
    && (forall i, j, p, q ::
          0 <= i < |ranks| && 0 <= j < |ranks| && 0 <= p < |ranks[i]| && 0 <= q < |ranks[j]| && ranks[i][p] == ranks[j][q] ==> i == j)
    && (forall m :: 0 <= m < n ==> Somewhere(ranks, m))
  }

  ghost predicate Somewhere(ranks: seq<seq<nat>>, m: nat) {
    exists j, p :: 0 <= j < |ranks| && 0 <= p < |ranks[j]| && ranks[j][p] == m
  }

  /** Ranks below m come before position pos, the others from there on. */
  ghost predicate CutAt(r: seq<nat>, pos: nat, m: nat) {
    && pos <= |r|
    && (forall p :: 0 <= p < pos ==> r[p] < m)
    && (forall p :: pos <= p < |r| ==> r[p] >= m)
  }

  /** With every child cut at m, some child waits at rank m and none before it. */
  lemma LeastWaiting(ranks: seq<seq<nat>>, n: nat, pos: seq<nat>, m: nat)
    requires Partition(ranks, n) && |pos| == |ranks| && m <= n
    requires forall j :: 0 <= j < |ranks| ==> CutAt(ranks[j], pos[j], m)
    ensures m < n <==> exists j :: 0 <= j < |ranks| && pos[j] < |ranks[j]|
    ensures m < n ==> exists j :: 0 <= j < |ranks| && pos[j] < |ranks[j]| && ranks[j][pos[j]] == m
    ensures forall j :: 0 <= j < |ranks| && pos[j] < |ranks[j]| ==> ranks[j][pos[j]] >= m
  {
    forall j | 0 <= j < |ranks| && pos[j] < |ranks[j]| ensures m <= ranks[j][pos[j]] < n {
      assert CutAt(ranks[j], pos[j], m);
    }
    if m < n {
      assert Somewhere(ranks, m);
      var j, p :| 0 <= j < |ranks| && 0 <= p < |ranks[j]| && ranks[j][p] == m;
      assert CutAt(ranks[j], pos[j], m) && Increasing(ranks[j]);
      assert pos[j] == p;
    }
  }

  lemma LastBelow(r: seq<nat>, left: nat, m: nat, p: nat)
    requires Increasing(r) && CutAt(r, left, m) && p < |r| && r[p] + 1 == m
    ensures left == p + 1
  {
    assert p + 1 < |r| ==> r[p] < r[p + 1];
  }

  /** The mirror image: the greatest rank just passed is m - 1. */
  lemma GreatestPassed(ranks: seq<seq<nat>>, n: nat, left: seq<nat>, m: nat)
    requires Partition(ranks, n) && |left| == |ranks| && m <= n
    requires forall j :: 0 <= j < |ranks| ==> CutAt(ranks[j], left[j], m)
    ensures 0 < m <==> exists j :: 0 <= j < |ranks| && 0 < left[j]
    ensures 0 < m ==> exists j :: 0 <= j < |ranks| && 0 < left[j] <= |ranks[j]| && ranks[j][left[j] - 1] == m - 1
    ensures forall j :: 0 <= j < |ranks| && 0 < left[j] <= |ranks[j]| ==> ranks[j][left[j] - 1] <= m - 1
  {
    forall j | 0 <= j < |ranks| && 0 < left[j] ensures left[j] <= |ranks[j]| && ranks[j][left[j] - 1] <= m - 1 {
      assert CutAt(ranks[j], left[j], m);
    }
    if 0 < m {
      assert Somewhere(ranks, m - 1);
      var j, p :| 0 <= j < |ranks| && 0 <= p < |ranks[j]| && ranks[j][p] == m - 1;
      LastBelow(ranks[j], left[j], m, p);
    }
  }

  /** A child without rank m is cut at m exactly where it is cut at m + 1. */
  lemma CutShifts(r: seq<nat>, pos: nat, m: nat)
    requires forall p :: 0 <= p < |r| ==> r[p] != m
    ensures CutAt(r, pos, m) <==> CutAt(r, pos, m + 1)
  {}

  /** The child holding rank m moves its cut past it. */
  lemma CutAdvances(r: seq<nat>, pos: nat, m: nat)
    requires Increasing(r) && pos < |r| && r[pos] == m
    ensures CutAt(r, pos, m) && CutAt(r, pos + 1, m + 1)
  {}

  ghost function RanksOf(merged: seq<Entry>, list: seq<Entry>): seq<nat>
    requires forall p :: 0 <= p < |list| ==> list[p] in merged
  {
    seq(|list|, p requires 0 <= p < |list| => Rank(merged, list[p]))
  }

  lemma SortedRanks(merged: seq<Entry>, list: seq<Entry>)
    requires Sorted(merged) && Sorted(list) && forall p :: 0 <= p < |list| ==> list[p] in merged
    ensures Increasing(RanksOf(merged, list))
  {
    forall p, q | 0 <= p < q < |list| ensures Rank(merged, list[p]) < Rank(merged, list[q]) {
      RankOrder(merged, list[p], list[q]);
    }
  }

  /** merged is the sorted union of the lists, and no key is in two of them. */
  ghost predicate IsMerge(lists: seq<seq<Entry>>, merged: seq<Entry>) {
    && Sorted(merged)
    && (forall j :: 0 <= j < |lists| ==> Sorted(lists[j]))
    && (forall j, p :: 0 <= j < |lists| && 0 <= p < |lists[j]| ==> lists[j][p] in merged)
    && (forall e :: e in merged ==> exists j :: 0 <= j < |lists| && e in lists[j])
    && (forall i, j, p, q ::
          0 <= i < |lists| && 0 <= j < |lists| && i != j && 0 <= p < |lists[i]| && 0 <= q < |lists[j]|
          ==> lists[i][p].IKey() != lists[j][q].IKey())
  }

  ghost function AllRanks(lists: seq<seq<Entry>>, merged: seq<Entry>): (r: seq<seq<nat>>)
    requires IsMerge(lists, merged)
    ensures |r| == |lists|
  {
    seq(|lists|, j requires 0 <= j < |lists| => RanksOf(merged, lists[j]))
  }

  lemma MergePartitions(lists: seq<seq<Entry>>, merged: seq<Entry>)
    requires IsMerge(lists, merged)
    ensures Partition(AllRanks(lists, merged), |merged|)
  {
    var ranks := AllRanks(lists, merged);
    forall j | 0 <= j < |ranks| ensures Increasing(ranks[j]) {
      SortedRanks(merged, lists[j]);
    }
    forall m | 0 <= m < |merged| ensures Somewhere(ranks, m) {
      var e := merged[m];
      assert e in merged;
      var j :| 0 <= j < |lists| && e in lists[j];
      var p :| 0 <= p < |lists[j]| && lists[j][p] == e;
      assert merged[Rank(merged, e)] == e;
      RankIs(merged, m);
      assert ranks[j][p] == m;
    }
  }

  lemma RankIs(merged: seq<Entry>, m: nat)
    requires Sorted(merged) && m < |merged|
    ensures merged[m] in merged && Rank(merged, merged[m]) == m
  {
    var r := Rank(merged, merged[m]);
    assert r < m ==> Less(merged[r].IKey(), merged[m].IKey());
    assert m < r ==> Less(merged[m].IKey(), merged[r].IKey());
  }

  /** Seek(target) cuts a sorted list where the target falls in the union. */
  ghost predicate SplitsAt(merged: seq<Entry>, target: InternalKey, m: nat) {
    && m <= |merged|
    && (forall x :: 0 <= x < m ==> Less(merged[x].IKey(), target))
    && (forall x :: m <= x < |merged| ==> !Less(merged[x].IKey(), target))
  }

  lemma {:induction false} SplitExists(merged: seq<Entry>, target: InternalKey) returns (m: nat)
    requires Sorted(merged)
    ensures SplitsAt(merged, target, m)
  {
    m := 0;
    while m < |merged| && Less(merged[m].IKey(), target)
      invariant m <= |merged| && forall x :: 0 <= x < m ==> Less(merged[x].IKey(), target)
    {
      m := m + 1;
    }
    forall x | m <= x < |merged| ensures !Less(merged[x].IKey(), target) {
      assert m < x ==> Less(merged[m].IKey(), merged[x].IKey());
    }
  }

  class MergingIterator {
    const children: seq<ListIterator>
    var current: Option<nat>          // index of the child yielding the entry
    var direction: Direction
    ghost const merged: seq<Entry>    // the sorted union
    ghost const ranks: seq<seq<nat>>  // where each child's entries stand in it
    ghost var at: nat                 // where the iterator stands in it

    constructor (children: seq<ListIterator>, ghost merged: seq<Entry>)
      requires forall i, j :: 0 <= i < j < |children| ==> children[i] != children[j]
      requires forall j :: 0 <= j < |children| ==> children[j].InRange()
      requires IsMerge(seq(|children|, j requires 0 <= j < |children| => children[j].entries), merged)
      ensures this.children == children && this.merged == merged
      ensures Ok() && Inside() && Pos() == |merged|
    {
      var lists := seq(|children|, j requires 0 <= j < |children| => children[j].entries);
      MergePartitions(lists, merged);
      this.children := children;
      this.merged := merged;
      this.ranks := AllRanks(lists, merged);
      current, direction, at := None, Forward, |merged|;
      new;
      forall j, p | 0 <= j < |children| && 0 <= p < |ranks[j]|
        ensures ranks[j][p] < |merged| && merged[ranks[j][p]] == children[j].entries[p]
      {
        assert lists[j][p] == children[j].entries[p];
      }
      forall j | 0 <= j < |children| ensures Sorted(children[j].entries) && |ranks[j]| == |children[j].entries| {
        assert lists[j] == children[j].entries;
      }
    }

    /** The children's entries, which never change, make up the union. */
    ghost predicate Fixed() {
      && Sorted(merged) && |ranks| == |children| && Partition(ranks, |merged|)
      && (forall i, j :: 0 <= i < j < |children| ==> children[i] != children[j])
      && (forall j :: 0 <= j < |children| ==> Sorted(children[j].entries) && |ranks[j]| == |children[j].entries|)
      && (forall j, p :: 0 <= j < |children| && 0 <= p < |ranks[j]| ==>
            ranks[j][p] < |merged| && merged[ranks[j][p]] == children[j].entries[p])
    }

    ghost predicate InRange()
      reads children
    {
      forall j :: 0 <= j < |children| ==> children[j].InRange()
    }

    ghost predicate CutBefore(j: nat, m: nat)
      requires j < |children| == |ranks|
      reads children[j]
    {
      CutAt(ranks[j], children[j].pos, m)
    }

    /** Child j stands at its last entry before m. */
    ghost predicate CutBehind(j: nat, m: nat)
      requires j < |children| == |ranks|
      reads children[j]
    {
      CutAt(ranks[j], Left(|ranks[j]|, children[j].pos), m)
    }

    /** Moving forward every child waits at its first entry not before the current one;
        moving backwards every other child rests at its last entry before it. */
    ghost predicate Ok()
      reads this, children
    {
      && Fixed() && InRange()
      && (current.Some? ==>
           && current.value < |children| && at < |merged|
           && children[current.value].pos < |ranks[current.value]| && ranks[current.value][children[current.value].pos] == at
           && CutBefore(current.value, at)
           && (direction == Forward ==> forall j :: 0 <= j < |children| ==> CutBefore(j, at))
           && (direction == Reverse ==> forall j :: 0 <= j < |children| && j != current.value ==> CutBehind(j, at)))
    }

    ghost function Positions(n: nat): (s: seq<nat>)
      requires n <= |children|
      reads children
      ensures |s| == n && forall j :: 0 <= j < n ==> s[j] == children[j].pos
    {
      if n == 0 then [] else Positions(n - 1) + [children[n - 1].pos]
    }

    ghost function Lefts(n: nat): (s: seq<nat>)
      requires n <= |children| == |ranks|
      reads children
      ensures |s| == n && forall j :: 0 <= j < n ==> s[j] == Left(|ranks[j]|, children[j].pos)
    {
      if n == 0 then [] else Lefts(n - 1) + [Left(|ranks[n - 1]|, children[n - 1].pos)]
    }

    /** The position as an iterator over the sorted union. */
    ghost function Pos(): nat
      reads this
    {
      if current.Some? then at else |merged|
    }

    predicate Valid()
      reads this
    {
      current.Some?
    }

    /** The position is the end just when the iterator is not valid. */
    ghost predicate Inside()
      reads this
    {
      Pos() <= |merged| && (Valid() <==> Pos() < |merged|)
    }

    function Entry(): (e: Entry)
      requires Ok() && Valid()
      reads this, children
      ensures Pos() < |merged| && e == merged[Pos()]
    {
      children[current.value].Entry()
    }

    lemma CompareRanks(i: nat, p: nat, j: nat, q: nat)
      requires Fixed() && i < |children| && j < |children| && p < |ranks[i]| && q < |ranks[j]|
      ensures Compare(children[i].entries[p].IKey(), children[j].entries[q].IKey()) < 0 <==> ranks[i][p] < ranks[j][q]
      ensures Compare(children[i].entries[p].IKey(), children[j].entries[q].IKey()) > 0 <==> ranks[i][p] > ranks[j][q]
    {
      var a, b := children[i].entries[p], children[j].entries[q];
      CompareIsLess(a.IKey(), b.IKey());
      var x, y := ranks[i][p], ranks[j][q];
      assert merged[x] == a && merged[y] == b;
      assert x < y ==> Less(merged[x].IKey(), merged[y].IKey());
      assert y < x ==> Less(merged[y].IKey(), merged[x].IKey());
    }

    method FindSmallest(ghost m: nat)
      requires Fixed() && InRange() && m <= |merged|
      requires forall j :: 0 <= j < |children| ==> CutBefore(j, m)
      modifies this`current, this`at
      ensures at == m && (current.Some? <==> m < |merged|)
      ensures current.Some? ==> current.value < |children| && children[current.value].pos < |ranks[current.value]|
                                && ranks[current.value][children[current.value].pos] == m
    {
      hide Compare, Sorted, Partition;
      ghost var pos := Positions(|children|);
      forall j | 0 <= j < |ranks| ensures CutAt(ranks[j], pos[j], m) {
        assert CutBefore(j, m);
      }
      LeastWaiting(ranks, |merged|, pos, m);
      var smallest: Option<nat> := None;
      for i := 0 to |children|
        invariant smallest.Some? ==> smallest.value < i && children[smallest.value].Valid()
        invariant smallest.None? ==> forall j :: 0 <= j < i ==> !children[j].Valid()
        invariant smallest.Some? ==> forall j :: 0 <= j < i && children[j].Valid() ==>
          ranks[smallest.value][children[smallest.value].pos] <= ranks[j][children[j].pos]
      {
        if children[i].Valid() {
          if smallest.None? {
            smallest := Some(i);
          } else {
            CompareRanks(i, children[i].pos, smallest.value, children[smallest.value].pos);
            if Compare(children[i].Entry().IKey(), children[smallest.value].Entry().IKey()) < 0 {
              smallest := Some(i);
            }
          }
        }
      }
      current := smallest;
      at := m;
    }

    method FindLargest(ghost m: nat)
      requires Fixed() && InRange() && m <= |merged|
      requires forall j :: 0 <= j < |children| ==> CutBehind(j, m)
      modifies this`current, this`at
      ensures current.Some? <==> 0 < m
      ensures current.Some? ==> at == m - 1 && current.value < |children| && children[current.value].pos < |ranks[current.value]|
                                && ranks[current.value][children[current.value].pos] == at
    {
      hide Compare, Sorted, Partition, CutAt;
      ghost var left := Lefts(|children|);
      forall j | 0 <= j < |ranks| ensures CutAt(ranks[j], left[j], m) {
        assert CutBehind(j, m);
      }
      GreatestPassed(ranks, |merged|, left, m);
      var largest: Option<nat> := None;
      for i := |children| downto 0
        invariant largest.Some? ==> i <= largest.value < |children| && children[largest.value].Valid()
        invariant largest.None? ==> forall j :: i <= j < |children| ==> !children[j].Valid()
        invariant largest.Some? ==> forall j :: i <= j < |children| && children[j].Valid() ==>
          ranks[j][children[j].pos] <= ranks[largest.value][children[largest.value].pos]
      {
        if children[i].Valid() {
          if largest.None? {
            largest := Some(i);
          } else {
            CompareRanks(i, children[i].pos, largest.value, children[largest.value].pos);
            if Compare(children[i].Entry().IKey(), children[largest.value].Entry().IKey()) > 0 {
              largest := Some(i);
            }
          }
        }
      }
      current := largest;
      at := if m > 0 then m - 1 else |merged|;
    }

    method SeekToFirst()
      requires Ok()
      modifies this, children
      ensures Ok() && Inside() && Pos() == 0
    {
      for i := 0 to |children|
        invariant InRange() && forall j :: 0 <= j < i ==> children[j].pos == 0
      {
        children[i].SeekToFirst();
      }
      assert forall j :: 0 <= j < |children| ==> CutBefore(j, 0);
      FindSmallest(0);
      direction := Forward;
    }

    method SeekToLast()
      requires Ok()
      modifies this, children
      ensures Ok() && Inside() && Pos() == if |merged| == 0 then 0 else |merged| - 1
    {
      for i := 0 to |children|
        invariant InRange()
        invariant forall j :: 0 <= j < i ==> Left(|ranks[j]|, children[j].pos) == |ranks[j]|
      {
        children[i].SeekToLast();
      }
      assert forall j :: 0 <= j < |children| ==> CutBehind(j, |merged|);
      FindLargest(|merged|);
      direction := Reverse;
      BackIsOk(|merged|);
    }

    method Seek(target: InternalKey)
      requires Ok()
      modifies this, children
      ensures Ok() && Inside() && SplitsAt(merged, target, Pos())
    {
      ghost var m := SplitExists(merged, target);
      for i := 0 to |children|
        invariant InRange() && forall j :: 0 <= j < i ==> CutBefore(j, m)
      {
        children[i].Seek(target);
        SeekCuts(i, target, m);
      }
      FindSmallest(m);
      direction := Forward;
    }

    /** A child positioned by Seek is cut where the target splits the union. */
    lemma SeekCuts(i: nat, target: InternalKey, m: nat)
      requires Fixed() && i < |children| && SplitsAt(merged, target, m) && children[i].InRange()
      requires forall p :: 0 <= p < children[i].pos ==> Less(children[i].entries[p].IKey(), target)
      requires forall p :: children[i].pos <= p < |children[i].entries| ==> !Less(children[i].entries[p].IKey(), target)
      ensures CutBefore(i, m)
    {
      var r := ranks[i];
      forall p | 0 <= p < |r| ensures r[p] < m <==> Less(children[i].entries[p].IKey(), target) {
        assert merged[r[p]] == children[i].entries[p];
      }
    }

    /** After FindLargest below cut m the invariant for moving backwards holds. */
    lemma BackIsOk(m: nat)
      requires Fixed() && InRange() && m <= |merged| && direction == Reverse
      requires forall j :: 0 <= j < |children| ==> CutBehind(j, m)
      requires current.Some? ==> m > 0 && at == m - 1 && current.value < |children|
      requires current.Some? ==> var c := current.value;
        children[c].pos < |ranks[c]| && ranks[c][children[c].pos] == at
      ensures Ok()
    {
      if current.Some? {
        var c := current.value;
        CutAdvances(ranks[c], children[c].pos, at);
        forall j | 0 <= j < |children| && j != c ensures CutBehind(j, at) {
          assert CutBehind(j, m);
          CutShifts(ranks[j], Left(|ranks[j]|, children[j].pos), at);
        }
      }
    }

    lemma OthersLack(c: nat, j: nat)
      requires Fixed() && c < |children| && j < |children| && j != c && children[c].pos < |ranks[c]|
      ensures forall p :: 0 <= p < |ranks[j]| ==> ranks[j][p] != ranks[c][children[c].pos]
    {}

    /** No other child has the key of child c. */
    lemma NotSameKey(c: nat, i: nat, p: nat)
      requires Fixed() && c < |children| && i < |children| && i != c && children[c].Valid() && p < |children[i].entries|
      ensures Compare(children[c].Entry().IKey(), children[i].entries[p].IKey()) != 0
    {
      OthersLack(c, i);
      CompareRanks(c, children[c].pos, i, p);
    }

    /** Next, when moving backwards: positions the other children after the current key. */
    method TurnForward(c: nat, ghost m: nat)
      requires Ok() && current == Some(c) && at == m
      modifies set j | 0 <= j < |children| && j != c :: children[j]
      ensures InRange() && forall j :: 0 <= j < |children| ==> CutBefore(j, m)
    {
      hide Sorted, Partition, CutAt, ListIterator.InRange, SplitsAt;
      var key := children[c].Entry().IKey();
      SplitAtOwn(c);
      for i := 0 to |children|
        invariant InRange()
        invariant forall j :: 0 <= j < i ==> CutBefore(j, m)
      {
        assert forall j :: 0 <= j < |children| && j != i ==> children[j] != children[i];
        if i != c {
          children[i].Seek(key);
          SeekCuts(i, key, m);
          if children[i].Valid() {
            ghost var p := children[i].pos;
            if Compare(key, children[i].Entry().IKey()) == 0 {
              children[i].Next();
            }
            NotSameKey(c, i, p);
          }
        }
      }
    }

    method Next()
      requires Ok() && current.Some?
      modifies this, children
      ensures Ok() && Inside() && Pos() == old(Pos()) + 1
    {
      hide Sorted, Partition, CutAt;
      ghost var m := at;
      var c := current.value;
      if direction != Forward {
        TurnForward(c, m);
        direction := Forward;
      }
      ghost var next := m + 1;
      forall j | 0 <= j < |children| && j != c ensures CutBefore(j, next) {
        assert CutBefore(j, m);
        OthersLack(c, j);
        CutShifts(ranks[j], children[j].pos, m);
      }
      CurrentAdvances(c, m);
      children[c].Next();
      FindSmallest(next);
    }

    lemma CurrentAdvances(c: nat, m: nat)
      requires Fixed() && c < |children| && children[c].pos < |ranks[c]| && ranks[c][children[c].pos] == m
      ensures CutAt(ranks[c], children[c].pos, m) && CutAt(ranks[c], children[c].pos + 1, m + 1)
    {
      CutAdvances(ranks[c], children[c].pos, m);
    }

    /** The current key splits the union at its own rank. */
    lemma SplitAtOwn(c: nat)
      requires Fixed() && c < |children| && children[c].Valid()
      ensures SplitsAt(merged, children[c].Entry().IKey(), ranks[c][children[c].pos])
    {
      var m := ranks[c][children[c].pos];
      assert merged[m] == children[c].Entry();
      forall x | m <= x < |merged| ensures !Less(merged[x].IKey(), merged[m].IKey()) {
        assert m < x ==> Less(merged[m].IKey(), merged[x].IKey());
      }
    }

    /** Prev, when moving forward: positions the other children before the current key. */
    method TurnReverse(c: nat, ghost m: nat)
      requires Ok() && current == Some(c) && at == m
      modifies set j | 0 <= j < |children| && j != c :: children[j]
      ensures InRange() && forall j :: 0 <= j < |children| && j != c ==> CutBehind(j, m)
    {
      hide Sorted, Partition, CutAt, SplitsAt;
      var key := children[c].Entry().IKey();
      SplitAtOwn(c);
      for i := 0 to |children|
        invariant InRange()
        invariant forall j :: 0 <= j < i && j != c ==> CutBehind(j, m)
      {
        assert forall j :: 0 <= j < |children| && j != i ==> children[j] != children[i];
        if i != c {
          children[i].Seek(key);
          SeekCuts(i, key, m);
          if children[i].Valid() {
            children[i].Prev();
          } else {
            children[i].SeekToLast();
          }
        }
      }
    }

    method Prev()
      requires Ok() && current.Some?
      modifies this, children
      ensures Ok() && Inside() && Pos() == if old(Pos()) == 0 then |merged| else old(Pos()) - 1
    {
      hide Sorted, Partition, CutAt;
      ghost var m := at;
      var c := current.value;
      if direction != Reverse {
        TurnReverse(c, m);
        direction := Reverse;
      }
      children[c].Prev();
      assert CutBehind(c, m);
      FindLargest(m);
      BackIsOk(m);
    }
  }
}
