/** DBIter: the user's bidirectional cursor over an internal iterator (db/db_iter.cc). */
module DbIter {
  import opened Common
  import opened InternalKeys
  import opened Iterators
  import opened Merger

  // ----- what the cursor ranges over -----

  predicate Visible(entries: seq<Entry>, s: nat, p: nat)
    requires p < |entries|
  {
    entries[p].sn <= s
  }

  /** Entry p is the newest of its user key at sequence s, and is a value. */
  ghost predicate Current(entries: seq<Entry>, s: nat, p: nat)
    requires p < |entries|
  {
    && Visible(entries, s, p) && entries[p].kind == Value
    && forall q :: 0 <= q < p && entries[q].user == entries[p].user ==> !Visible(entries, s, q)
  }

  /** The user keys with their values at sequence s, among the first n entries. */
  ghost function View(entries: seq<Entry>, s: nat, n: nat): seq<(UserKey, Bytes)>
    requires n <= |entries|
  {
    if n == 0 then []
    else View(entries, s, n - 1) +
         (if Current(entries, s, n - 1) then [(entries[n - 1].user, entries[n - 1].value)] else [])
  }

  ghost function Map(entries: seq<Entry>, s: nat): seq<(UserKey, Bytes)> {
    View(entries, s, |entries|)
  }

  lemma {:induction false} ViewPrefix(entries: seq<Entry>, s: nat, m: nat, n: nat)
    requires m <= n <= |entries|
    ensures View(entries, s, m) <= View(entries, s, n)
  {
    if m < n {
      ViewPrefix(entries, s, m, n - 1);
    }
  }

  lemma {:induction false} ViewStretch(entries: seq<Entry>, s: nat, m: nat, n: nat)
    requires m <= n <= |entries|
    requires forall p :: m <= p < n ==> !Current(entries, s, p)
    ensures View(entries, s, m) == View(entries, s, n)
  {
    if m < n {
      ViewStretch(entries, s, m, n - 1);
    }
  }

  /** A current entry sits in the map at the number of current entries before it. */
  lemma CurrentAt(entries: seq<Entry>, s: nat, p: nat)
    requires p < |entries| && Current(entries, s, p)
    ensures var c := |View(entries, s, p)|;
            c < |Map(entries, s)| && Map(entries, s)[c] == (entries[p].user, entries[p].value)
  {
    ViewPrefix(entries, s, p + 1, |entries|);
  }

  lemma {:induction false} ViewSource(entries: seq<Entry>, s: nat, n: nat, c: nat) returns (p: nat)
    requires n <= |entries| && c < |View(entries, s, n)|
    ensures p < n && Current(entries, s, p) && |View(entries, s, p)| == c
    decreases n
  {
    if c < |View(entries, s, n - 1)| {
      p := ViewSource(entries, s, n - 1, c);
    } else {
      p := n - 1;
    }
  }

  /** The map is sorted by user key and holds exactly what point reads at s return. */
  lemma MapIsTheDatabase(entries: seq<Entry>, s: nat)
    requires Sorted(entries) && Unique(Elements(entries))
    ensures forall a, b :: 0 <= a < b < |Map(entries, s)| ==> Map(entries, s)[a].0 < Map(entries, s)[b].0
    ensures forall k, v :: (k, v) in Map(entries, s) <==> Lookup(Elements(entries), k, s) == Some(v)
  {
    var map0 := Map(entries, s);
    forall a, b | 0 <= a < b < |map0| ensures map0[a].0 < map0[b].0 {
      var p := ViewSource(entries, s, |entries|, a);
      var q := ViewSource(entries, s, |entries|, b);
      CurrentAt(entries, s, p);
      CurrentAt(entries, s, q);
      if q <= p {
        ViewPrefix(entries, s, q, p);
      }
      assert Less(entries[p].IKey(), entries[q].IKey());
    }
    forall k, v ensures (k, v) in map0 <==> Lookup(Elements(entries), k, s) == Some(v) {
      if (k, v) in map0 {
        var c :| 0 <= c < |map0| && map0[c] == (k, v);
        var p := ViewSource(entries, s, |entries|, c);
        CurrentAt(entries, s, p);
        CurrentIsNewest(entries, s, p);
        NewestIsUnique(Elements(entries), k, s, Some(entries[p]));
      }
      if Lookup(Elements(entries), k, s) == Some(v) {
        var n := Newest(Elements(entries), k, s);
        var p :| 0 <= p < |entries| && entries[p] == n.value;
        NewestIsCurrent(entries, s, p);
        CurrentAt(entries, s, p);
      }
    }
  }

  lemma CurrentIsNewest(entries: seq<Entry>, s: nat, p: nat)
    requires Sorted(entries) && p < |entries| && Current(entries, s, p)
    ensures IsNewest(Elements(entries), entries[p].user, s, Some(entries[p]))
  {
    forall e | e in Elements(entries) && Sees(e, entries[p].user, s) ensures e.sn <= entries[p].sn {
      var q :| 0 <= q < |entries| && entries[q] == e;
      assert Visible(entries, s, q);
      assert p < q ==> Less(entries[p].IKey(), entries[q].IKey());
    }
  }

  lemma NewestIsCurrent(entries: seq<Entry>, s: nat, p: nat)
    requires Sorted(entries) && Unique(Elements(entries)) && p < |entries| && entries[p].kind == Value
    requires IsNewest(Elements(entries), entries[p].user, s, Some(entries[p]))
    ensures Current(entries, s, p)
  {
    forall q | 0 <= q < p && entries[q].user == entries[p].user ensures !Visible(entries, s, q) {
      assert Less(entries[q].IKey(), entries[p].IKey());
      assert entries[q] in Elements(entries) && entries[p] in Elements(entries);
    }
  }

  // ----- the cursor -----

  /** No current entry in [from, to). */
  ghost predicate NoneCurrent(entries: seq<Entry>, s: nat, from: nat, to: nat)
    requires to <= |entries|
  {
    forall p :: from <= p < to ==> !Current(entries, s, p)
  }

  class Cursor {
    const iter: MergingIterator
    const sequence: nat
    var direction: Direction
    var valid: bool
    var savedKey: Option<UserKey>  // None when cleared
    var savedValue: Bytes
    ghost var at: nat              // the entry yielded, when valid

    constructor (iter: MergingIterator, sequence: nat)
      requires Sorted(iter.merged) && Unique(Elements(iter.merged)) && iter.Ok() && iter.Inside()
      ensures this.iter == iter && this.sequence == sequence
      ensures Ok() && !valid
    {
      this.iter := iter;
      this.sequence := sequence;
      direction, valid, savedKey, savedValue := Forward, false, None, [];
    }

    /** Moving forward the iterator is at the entry yielded.  Moving backwards it is left
        of it, with nothing visible in between except what the entry's own key hides. */
    ghost predicate Ok()
      reads this, iter, iter.children
    {
      var entries := iter.merged;
      && Sorted(entries) && Unique(Elements(entries)) && iter.Ok() && iter.Inside()
      && (valid ==>
           && at < |entries| && Current(entries, sequence, at)
           && (direction == Forward ==> iter.Pos() == at)
           && (direction == Reverse ==>
                 && savedKey == Some(entries[at].user) && savedValue == entries[at].value
                 && Behind(entries, sequence, Left(|entries|, iter.Pos()), at)))
    }

    ghost function Contents(): seq<(UserKey, Bytes)> {
      Map(iter.merged, sequence)
    }

    /** Index in the map of the entry yielded. */
    ghost function Index(): Option<nat>
      requires Ok()
      reads this, iter, iter.children
    {
      if valid then Some(|View(iter.merged, sequence, at)|) else None
    }

    method GetKey() returns (k: UserKey)
      requires Ok() && valid
      ensures Index().value < |Contents()| && k == Contents()[Index().value].0
    {
      CurrentAt(iter.merged, sequence, at);
      k := if direction == Forward then iter.Entry().user else savedKey.value;
    }

    method GetValue() returns (v: Bytes)
      requires Ok() && valid
      ensures Index().value < |Contents()| && v == Contents()[Index().value].1
    {
      CurrentAt(iter.merged, sequence, at);
      v := if direction == Forward then iter.Entry().value else savedValue;
    }

    /** Moves on to the first current entry that is not skipped; everything current from
        `floor` (exclusive) up to it has been ruled out. */
    method FindNextUserEntry(skipping0: bool, ghost floor: int)
      requires Sorted(iter.merged) && Unique(Elements(iter.merged)) && direction == Forward
      requires iter.Ok() && iter.Inside() && iter.Valid()
      requires Skips(iter.merged, sequence, iter.Pos(), floor, skipping0, savedKey)
      modifies this, iter, iter.children
      ensures Ok() && direction == Forward
      ensures old(iter.Pos()) <= iter.Pos() && (valid ==> at > floor)
      ensures forall p :: old(iter.Pos()) <= p < iter.Pos() && p > floor ==> !Current(iter.merged, sequence, p)
      ensures !valid ==> iter.Pos() == |iter.merged|
    {
      hide MergingIterator.Ok, Skips, Sorted, Unique, Current;
      ghost var entries := iter.merged;
      var skipping := skipping0;
      while true
        invariant iter.Ok() && iter.Inside() && iter.Valid() && direction == Forward && old(iter.Pos()) <= iter.Pos()
        invariant Skips(entries, sequence, iter.Pos(), floor, skipping, savedKey)
        invariant forall p :: old(iter.Pos()) <= p < iter.Pos() && p > floor ==> !Current(entries, sequence, p)
        decreases |entries| - iter.Pos()
      {
        var e := iter.Entry();
        SkipStep(entries, sequence, iter.Pos(), floor, skipping, savedKey);
        if e.sn <= sequence {
          match e.kind
          case Deletion =>
            savedKey := Some(e.user);
            skipping := true;
          case Value =>
            if skipping && e.user <= savedKey.value {
            } else {
              valid := true;
              at := iter.Pos();
              savedKey := None;
              return;
            }
        }
        iter.Next();
        if !iter.Valid() {
          break;
        }
      }
      savedKey := None;
      valid := false;
    }

    /** Moves back to the last current entry before the iterator, or at it. */
    method FindPrevUserEntry()
      requires Sorted(iter.merged) && Unique(Elements(iter.merged)) && iter.Ok() && iter.Inside() && direction == Reverse
      modifies this, iter, iter.children
      ensures Ok()
      ensures valid ==> direction == Reverse && at < old(Left(|iter.merged|, iter.Pos()))
      ensures NoneCurrent(iter.merged, sequence, if valid then at + 1 else 0, old(Left(|iter.merged|, iter.Pos())))
    {
      hide MergingIterator.Ok, Sorted, Unique, Current, ScansBack;
      ghost var entries := iter.merged;
      ghost var from := Left(|entries|, iter.Pos());
      var valueType := Deletion;
      ghost var pending: Option<nat> := None;
      NothingScanned(entries, sequence, from);
      if iter.Valid() {
        while true
          invariant iter.Ok() && iter.Inside() && iter.Valid() && direction == Reverse && iter.Pos() < from
          invariant ScansBack(entries, sequence, iter.Pos() + 1, from, pending)
          invariant pending.Some? <==> valueType == Value
          invariant pending.Some? ==> pending.value < |entries| && savedKey == Some(entries[pending.value].user)
          invariant pending.Some? ==> savedValue == entries[pending.value].value
          decreases iter.Pos()
        {
          var e := iter.Entry();
          BackStep(entries, sequence, iter.Pos(), from, pending);
          if e.sn <= sequence {
            if valueType != Deletion && e.user < savedKey.value {
              break;
            }
            valueType := e.kind;
            if valueType == Deletion {
              savedKey, savedValue, pending := None, [], None;
            } else {
              savedKey, savedValue, pending := Some(e.user), e.value, Some(iter.Pos());
            }
          }
          ghost var here := iter.Pos();
          iter.Prev();
          assert Left(|entries|, iter.Pos()) == here;
          if !iter.Valid() {
            break;
          }
        }
      }
      BackDone(entries, sequence, iter.Pos(), from, pending);
      if valueType == Deletion {
        valid := false;
        savedKey, savedValue := None, [];
        direction := Forward;
      } else {
        valid := true;
        at := pending.value;
      }
    }

    method Next()
      requires Ok() && valid
      modifies this, iter, iter.children
      ensures Ok() && Index() == Moved(Contents(), old(Index()), StepNext)
      ensures var c := old(Index()).value; Index() == if c + 1 < |Contents()| then Some(c + 1) else None
    {
      hide MergingIterator.Ok, Sorted, Unique, Current, Skips;
      ghost var entries := iter.merged;
      ghost var from := at;
      if direction == Reverse {
        direction := Forward;
        SkipsFromBehind(entries, sequence, Left(|entries|, iter.Pos()), from);
        if !iter.Valid() {
          iter.SeekToFirst();
        } else {
          iter.Next();
        }
      } else {
        SkipsPast(entries, sequence, from);
        savedKey := Some(iter.Entry().user);
        iter.Next();
      }
      if !iter.Valid() {
        valid := false;
        savedKey := None;
        IndexAfter(entries, sequence, from, |entries|);
        return;
      }
      FindNextUserEntry(true, from);
      IndexAfter(entries, sequence, from, if valid then at else |entries|);
    }

    method Prev()
      requires Ok() && valid
      modifies this, iter, iter.children
      ensures Ok() && Index() == Moved(Contents(), old(Index()), StepPrev)
      ensures var c := old(Index()).value; Index() == if c > 0 then Some(c - 1) else None
      ensures valid ==> direction == Reverse
    {
      hide MergingIterator.Ok, Unique, Current, NoneCurrent;
      ghost var entries := iter.merged;
      ghost var from := at;
      if direction == Forward {
        savedKey := Some(iter.Entry().user);
        while true
          invariant iter.Ok() && iter.Inside() && iter.Valid() && iter.Pos() <= from && direction == Forward && at == from
          invariant savedKey == Some(entries[from].user)
          invariant forall q :: iter.Pos() <= q < from ==> entries[q].user == entries[from].user
          decreases iter.Pos()
        {
          ghost var here := iter.Pos();
          iter.Prev();
          if !iter.Valid() {
            valid := false;
            savedKey, savedValue := None, [];
            SameKeyNotCurrent(entries, sequence, 0, from);
            IndexBefore(entries, sequence, from, None);
            return;
          }
          assert Less(entries[iter.Pos()].IKey(), entries[here].IKey());
          if iter.Entry().user < savedKey.value {
            break;
          }
        }
        SameKeyNotCurrent(entries, sequence, iter.Pos() + 1, from);
        direction := Reverse;
      } else {
        InvisibleNotCurrent(entries, sequence, Left(|entries|, iter.Pos()), from);
      }
      ghost var left := Left(|entries|, iter.Pos());
      FindPrevUserEntry();
      NoneCurrentJoin(entries, sequence, if valid then at + 1 else 0, left, from);
      IndexBefore(entries, sequence, from, if valid then Some(at) else None);
    }

    method Seek(target: UserKey)
      requires Ok()
      modifies this, iter, iter.children
      ensures Ok() && Index() == Moved(Contents(), old(Index()), SeekTo(target))
      ensures Index().None? ==> forall c :: 0 <= c < |Contents()| ==> Contents()[c].0 < target
      ensures Index().Some? ==> Index().value < |Contents()| && Contents()[Index().value].0 >= target
      ensures Index().Some? ==> forall c :: 0 <= c < Index().value ==> Contents()[c].0 < target
    {
      hide MergingIterator.Ok, Unique, Current, NoneCurrent, Skips;
      ghost var entries := iter.merged;
      direction := Forward;
      savedKey, savedValue := None, [];
      iter.Seek(InternalKey(target, sequence, Value));
      ghost var pos := iter.Pos();
      if iter.Valid() {
        SkipsFromSeek(entries, sequence, target, pos);
        FindNextUserEntry(false, pos as int - 1);
      } else {
        valid := false;
      }
      SeekLands(entries, sequence, target, pos, if valid then at else |entries|);
      LowerBoundSplits(Contents(), target, 0);
    }

    method SeekToFirst()
      requires Ok()
      modifies this, iter, iter.children
      ensures Ok() && Index() == Moved(Contents(), old(Index()), ToFirst)
      ensures Index() == if |Contents()| > 0 then Some(0) else None
    {
      hide MergingIterator.Ok, Unique, Current, NoneCurrent, Sorted, Skips;
      ghost var entries := iter.merged;
      direction := Forward;
      savedKey, savedValue := None, [];
      iter.SeekToFirst();
      if iter.Valid() {
        SkipsFromFirst(entries, sequence);
        FindNextUserEntry(false, -1);
      } else {
        valid := false;
      }
      FirstLands(entries, sequence, if valid then at else |entries|);
    }

    method SeekToLast()
      requires Ok()
      modifies this, iter, iter.children
      ensures Ok() && Index() == Moved(Contents(), old(Index()), ToLast)
      ensures Index() == if |Contents()| > 0 then Some(|Contents()| - 1) else None
      ensures valid ==> direction == Reverse
    {
      hide MergingIterator.Ok, Unique, Current, NoneCurrent, Sorted;
      ghost var entries := iter.merged;
      direction := Reverse;
      savedValue := [];
      iter.SeekToLast();
      FindPrevUserEntry();
      LastLands(entries, sequence, if valid then Some(at) else None);
    }
  }

  // ----- where the iterator rests when moving backwards -----

  /** The first entry with the user key of entry p. */
  ghost function FirstOfKey(entries: seq<Entry>, p: nat): (g: nat)
    requires p < |entries|
    ensures g <= p && entries[g].user == entries[p].user
    ensures forall q :: g <= q <= p ==> entries[q].user == entries[p].user
    ensures g > 0 ==> entries[g - 1].user != entries[p].user
  {
    if p > 0 && entries[p - 1].user == entries[p].user then FirstOfKey(entries, p - 1) else p
  }

  /** It rests just before the entries of the current key exactly when there is nothing before them, or the
      entry there is one the cursor sees. */
  lemma RestsBeforeKeyIff(cursor: Cursor)
    requires cursor.Ok() && cursor.valid && cursor.direction == Reverse
    ensures var entries, first := cursor.iter.merged, FirstOfKey(cursor.iter.merged, cursor.at);
      Left(|entries|, cursor.iter.Pos()) == first <==> first == 0 || entries[first - 1].sn <= cursor.sequence
  {
    hide Sorted, Unique, Current;
    var entries, at := cursor.iter.merged, cursor.at;
    var left, first := Left(|entries|, cursor.iter.Pos()), FirstOfKey(entries, at);
    assert Behind(entries, cursor.sequence, left, at);
    assert left > 0 ==> entries[left - 1].user != entries[at].user;
    assert left < first ==> !Visible(entries, cursor.sequence, first - 1);
  }

  const Overwritten: seq<Entry> := [Entry(0.0, 1, Value, []), Entry(1.0, 9, Value, []), Entry(2.0, 2, Value, [])]

  /** Seeking to the last key at sequence 5 steps over a key written later, to the entry before it. */
  method RestFurtherLeft() returns (cursor: Cursor)
    ensures cursor.Ok() && cursor.iter.merged == Overwritten && cursor.sequence == 5
    ensures cursor.valid && cursor.direction == Reverse && cursor.at == 2
    ensures Left(|Overwritten|, cursor.iter.Pos()) == 1 && FirstOfKey(Overwritten, cursor.at) == 2
  {
    hide MergingIterator.Ok, IsMerge, Current, Map, View;
    var list := new ListIterator(Overwritten);
    OverwrittenIsMerge();
    assert seq(1, j requires 0 <= j < 1 => [list][j].entries) == [Overwritten];
    var iter := new MergingIterator([list], Overwritten);
    cursor := new Cursor(iter, 5);
    OverwrittenMap();
    cursor.SeekToLast();
    OverwrittenLast(cursor.at);
    RestsBeforeKeyIff(cursor);
  }

  lemma OverwrittenIsMerge()
    ensures IsMerge([Overwritten], Overwritten)
  {
    assert forall e :: e in Overwritten ==> e in [Overwritten][0];
  }

  lemma OverwrittenMap()
    ensures Current(Overwritten, 5, 0) && !Current(Overwritten, 5, 1) && Current(Overwritten, 5, 2)
    ensures |View(Overwritten, 5, 0)| == 0 && |View(Overwritten, 5, 2)| == 1 && |Map(Overwritten, 5)| == 2
  {
    assert View(Overwritten, 5, 1) == [(0.0, [])];
    assert View(Overwritten, 5, 2) == [(0.0, [])];
  }

  lemma OverwrittenLast(at: nat)
    requires at < 3 && Current(Overwritten, 5, at) && |View(Overwritten, 5, at)| == 1
    ensures at == 2 && FirstOfKey(Overwritten, at) == 2
  {
    OverwrittenMap();
  }

  // ----- the plain cursor it must equal -----

  datatype Move = ToFirst | ToLast | SeekTo(key: UserKey) | StepNext | StepPrev

  function LowerBound(m: seq<(UserKey, Bytes)>, k: UserKey, i: nat): Option<nat>
    decreases |m| - i
  {
    if i >= |m| then None else if m[i].0 >= k then Some(i) else LowerBound(m, k, i + 1)
  }

  lemma {:induction false} LowerBoundSplits(m: seq<(UserKey, Bytes)>, k: UserKey, i: nat)
    ensures var r := LowerBound(m, k, i);
      && (r.None? ==> forall c :: i <= c < |m| ==> m[c].0 < k)
      && (r.Some? ==> r.value < |m| && m[r.value].0 >= k && forall c :: i <= c < r.value ==> m[c].0 < k)
    decreases |m| - i
  {
    if i < |m| && m[i].0 < k {
      LowerBoundSplits(m, k, i + 1);
    }
  }

  /** A cursor over a sorted list, as an index into it. */
  function Moved(m: seq<(UserKey, Bytes)>, c: Option<nat>, move: Move): Option<nat> {
    match move
    case ToFirst => if |m| > 0 then Some(0) else None
    case ToLast => if |m| > 0 then Some(|m| - 1) else None
    case SeekTo(k) => LowerBound(m, k, 0)
    case StepNext => if c.Some? && c.value + 1 < |m| then Some(c.value + 1) else None
    case StepPrev => if c.Some? && c.value > 0 then Some(c.value - 1) else None
  }

  lemma {:induction false} LowerBoundIs(m: seq<(UserKey, Bytes)>, k: UserKey, i: nat, r: nat)
    requires i <= r <= |m| && forall a :: i <= a < r ==> m[a].0 < k
    requires r < |m| ==> m[r].0 >= k
    ensures LowerBound(m, k, i) == if r < |m| then Some(r) else None
    decreases |m| - i
  {
    if i < r {
      LowerBoundIs(m, k, i + 1, r);
    }
  }

  lemma SkipsFromBehind(entries: seq<Entry>, s: nat, left: nat, at: nat)
    requires Sorted(entries) && at < |entries| && Current(entries, s, at) && Behind(entries, s, left, at)
    ensures Skips(entries, s, left, at, true, Some(entries[at].user))
  {
    forall q | 0 <= q < left ensures entries[q].user <= entries[at].user {
      assert q < left - 1 ==> Less(entries[q].IKey(), entries[left - 1].IKey());
    }
    LaterNotCurrent(entries, s, at);
  }

  lemma LaterNotCurrent(entries: seq<Entry>, s: nat, at: nat)
    requires Sorted(entries) && at < |entries| && Visible(entries, s, at)
    ensures forall q :: at < q < |entries| && entries[q].user <= entries[at].user ==> !Current(entries, s, q)
  {
    forall q | at < q < |entries| && entries[q].user <= entries[at].user ensures !Current(entries, s, q) {
      assert Less(entries[at].IKey(), entries[q].IKey());
    }
  }

  lemma SkipsPast(entries: seq<Entry>, s: nat, at: nat)
    requires Sorted(entries) && at < |entries| && Current(entries, s, at)
    ensures Skips(entries, s, at + 1, at, true, Some(entries[at].user))
  {
    forall q | 0 <= q < at ensures entries[q].user <= entries[at].user {
      assert Less(entries[q].IKey(), entries[at].IKey());
    }
    LaterNotCurrent(entries, s, at);
  }

  lemma SkipsFromSeek(entries: seq<Entry>, s: nat, k: UserKey, pos: nat)
    requires Sorted(entries) && pos < |entries|
    requires forall p :: 0 <= p < pos ==> Less(entries[p].IKey(), InternalKey(k, s, Value))
    requires forall p :: pos <= p < |entries| ==> !Less(entries[p].IKey(), InternalKey(k, s, Value))
    ensures Skips(entries, s, pos, pos - 1, false, None)
  {
    hide Sorted;
    assert !Less(entries[pos].IKey(), InternalKey(k, s, Value));
    forall q | 0 <= q < pos && Visible(entries, s, q) ensures entries[q].user < entries[pos].user {
      assert Less(entries[q].IKey(), InternalKey(k, s, Value));
    }
  }

  lemma SkipsFromFirst(entries: seq<Entry>, s: nat)
    ensures Skips(entries, s, 0, -1, false, None)
  {}

  /** The next current entry is one further in the map. */
  lemma IndexAfter(entries: seq<Entry>, s: nat, from: nat, to: nat)
    requires from < to <= |entries| && Current(entries, s, from) && (to < |entries| ==> Current(entries, s, to))
    requires forall p :: from < p < to ==> !Current(entries, s, p)
    ensures var m := Map(entries, s); var c := |View(entries, s, from)|;
            if to < |entries| then c + 1 < |m| && |View(entries, s, to)| == c + 1 else c + 1 == |m|
  {
    ViewStretch(entries, s, from + 1, to);
    if to < |entries| {
      CurrentAt(entries, s, to);
    }
  }

  lemma IndexBefore(entries: seq<Entry>, s: nat, from: nat, to: Option<nat>)
    requires from < |entries| && Current(entries, s, from)
    requires to.Some? ==> to.value < from && Current(entries, s, to.value)
    requires NoneCurrent(entries, s, if to.Some? then to.value + 1 else 0, from)
    ensures if to.Some? then |View(entries, s, to.value)| == |View(entries, s, from)| - 1
            else |View(entries, s, from)| == 0
  {
    ViewStretch(entries, s, if to.Some? then to.value + 1 else 0, from);
  }

  /** Entries of the same key before the current one are invisible. */
  lemma SameKeyNotCurrent(entries: seq<Entry>, s: nat, lo: nat, at: nat)
    requires at < |entries| && Current(entries, s, at)
    requires forall q :: lo <= q < at ==> entries[q].user == entries[at].user
    ensures NoneCurrent(entries, s, lo, at)
  {}

  lemma InvisibleNotCurrent(entries: seq<Entry>, s: nat, lo: nat, at: nat)
    requires at < |entries| && forall q :: lo <= q < at ==> !Visible(entries, s, q)
    ensures NoneCurrent(entries, s, lo, at)
  {}

  lemma NoneCurrentJoin(entries: seq<Entry>, s: nat, a: nat, b: nat, c: nat)
    requires b <= |entries| && c <= |entries| && NoneCurrent(entries, s, a, b) && NoneCurrent(entries, s, b, c)
    ensures NoneCurrent(entries, s, a, c)
  {}

  lemma SeekLands(entries: seq<Entry>, s: nat, k: UserKey, pos: nat, to: nat)
    requires Sorted(entries) && pos <= to <= |entries| && (to < |entries| ==> Current(entries, s, to))
    requires forall p :: 0 <= p < pos ==> Less(entries[p].IKey(), InternalKey(k, s, Value))
    requires forall p :: pos <= p < |entries| ==> !Less(entries[p].IKey(), InternalKey(k, s, Value))
    requires forall p :: pos <= p < to ==> !Current(entries, s, p)
    ensures LowerBound(Map(entries, s), k, 0) == if to < |entries| then Some(|View(entries, s, to)|) else None
  {
    hide Sorted;
    var m, r := Map(entries, s), |View(entries, s, to)|;
    ViewPrefix(entries, s, to, |entries|);
    forall a | 0 <= a < r ensures m[a].0 < k {
      var p := ViewSource(entries, s, to, a);
      CurrentAt(entries, s, p);
      assert p < pos && Less(entries[p].IKey(), InternalKey(k, s, Value));
    }
    if to < |entries| {
      CurrentAt(entries, s, to);
      assert !Less(entries[to].IKey(), InternalKey(k, s, Value));
    }
    LowerBoundIs(m, k, 0, r);
  }

  lemma FirstLands(entries: seq<Entry>, s: nat, to: nat)
    requires to <= |entries| && (to < |entries| ==> Current(entries, s, to))
    requires forall p :: 0 <= p < to ==> !Current(entries, s, p)
    ensures if to < |entries| then |Map(entries, s)| > 0 && |View(entries, s, to)| == 0 else |Map(entries, s)| == 0
  {
    ViewStretch(entries, s, 0, to);
    if to < |entries| {
      CurrentAt(entries, s, to);
    }
  }

  lemma LastLands(entries: seq<Entry>, s: nat, to: Option<nat>)
    requires to.Some? ==> to.value < |entries| && Current(entries, s, to.value)
    requires NoneCurrent(entries, s, if to.Some? then to.value + 1 else 0, |entries|)
    ensures if to.Some? then |View(entries, s, to.value)| == |Map(entries, s)| - 1 else |Map(entries, s)| == 0
  {
    ViewStretch(entries, s, if to.Some? then to.value + 1 else 0, |entries|);
  }

  /** Entries [left, p) are invisible, and the one before them is visible and of a smaller key. */
  ghost predicate Behind(entries: seq<Entry>, s: nat, left: nat, p: nat) {
    && left <= p < |entries|
    && (forall q :: left <= q < p ==> !Visible(entries, s, q))
    && (left > 0 ==> Visible(entries, s, left - 1) && entries[left - 1].user < entries[p].user)
  }

  /** Entries [left, from) have been scanned backwards; `pending` is the newest visible
      one of the key being scanned, if it is a value, and nothing else there is current. */
  ghost predicate ScansBack(entries: seq<Entry>, s: nat, left: nat, from: nat, pending: Option<nat>) {
    && left <= from <= |entries|
    && (pending.None? ==> NoneCurrent(entries, s, left, from))
    && (pending.Some? ==>
          && left <= pending.value < from && Visible(entries, s, pending.value) && entries[pending.value].kind == Value
          && (forall q :: left <= q < pending.value ==> !Visible(entries, s, q))
          && NoneCurrent(entries, s, pending.value + 1, from))
  }

  lemma NothingScanned(entries: seq<Entry>, s: nat, from: nat)
    requires from <= |entries|
    ensures ScansBack(entries, s, from, from, None)
  {}

  lemma BackStep(entries: seq<Entry>, s: nat, pos: nat, from: nat, pending: Option<nat>)
    requires Sorted(entries) && pos < |entries| && ScansBack(entries, s, pos + 1, from, pending)
    ensures pending.Some? ==> pos < pending.value < |entries| && entries[pos].user <= entries[pending.value].user
    ensures !Visible(entries, s, pos) ==> ScansBack(entries, s, pos, from, pending)
    ensures Visible(entries, s, pos) && (pending.Some? ==> entries[pos].user == entries[pending.value].user) ==>
      ScansBack(entries, s, pos, from, if entries[pos].kind == Value then Some(pos) else None)
  {
    if pending.Some? {
      assert Less(entries[pos].IKey(), entries[pending.value].IKey());
    }
  }

  /** The scan ended: the iterator ran off the front, or reached a visible smaller key. */
  lemma BackDone(entries: seq<Entry>, s: nat, pos: nat, from: nat, pending: Option<nat>)
    requires Sorted(entries) && pos <= |entries|
    requires ScansBack(entries, s, Left(|entries|, pos), from, pending)
    requires pos < |entries| ==>
      Visible(entries, s, pos) && pending.Some? && entries[pos].user < entries[pending.value].user
    ensures pending.None? ==> NoneCurrent(entries, s, 0, from)
    ensures pending.Some? ==>
      && pending.value < from <= |entries| && Current(entries, s, pending.value)
      && NoneCurrent(entries, s, pending.value + 1, from)
      && Behind(entries, s, Left(|entries|, pos), pending.value)
  {
    if pending.Some? {
      forall q | 0 <= q < Left(|entries|, pos) ensures entries[q].user < entries[pending.value].user {
        assert q < pos ==> Less(entries[q].IKey(), entries[pos].IKey());
      }
    }
  }

  /** Before position pos everything visible is skipped or of a smaller key, and what
      skipping passes over from pos on is not current, save the entry `floor` being left. */
  ghost predicate Skips(entries: seq<Entry>, s: nat, pos: nat, floor: int, skipping: bool, skip: Option<UserKey>) {
    && (skipping ==> skip.Some?)
    && (pos < |entries| ==> forall q :: 0 <= q < pos && Visible(entries, s, q) ==>
          (skipping && entries[q].user <= skip.value) || entries[q].user < entries[pos].user)
    && (forall q :: 0 <= q < |entries| && pos <= q < floor ==> !Visible(entries, s, q))
    && (pos <= floor < |entries| ==> entries[floor].kind == Value && skipping && entries[floor].user <= skip.value)
    && (skipping ==>
          forall q :: 0 <= q < |entries| && pos <= q && floor < q && entries[q].user <= skip.value ==> !Current(entries, s, q))
  }

  /** One step of the skip loop at entry pos. */
  lemma SkipStep(entries: seq<Entry>, s: nat, pos: nat, floor: int, skipping: bool, skip: Option<UserKey>)
    requires Sorted(entries) && pos < |entries| && Skips(entries, s, pos, floor, skipping, skip)
    ensures skipping ==> skip.Some?
    ensures var e := entries[pos];
            if !Visible(entries, s, pos) || (e.kind == Value && skipping && e.user <= skip.value) then
              Skips(entries, s, pos + 1, floor, skipping, skip) && (pos > floor ==> !Current(entries, s, pos))
            else if e.kind == Deletion then
              Skips(entries, s, pos + 1, floor, true, Some(e.user)) && !Current(entries, s, pos)
            else
              Current(entries, s, pos) && pos > floor
  {
    assert pos + 1 < |entries| ==> Less(entries[pos].IKey(), entries[pos + 1].IKey());
    forall q | pos < q < |entries| ensures Less(entries[pos].IKey(), entries[q].IKey()) {}
    forall q | 0 <= q < pos ensures Less(entries[q].IKey(), entries[pos].IKey()) {}
    hide Sorted;
    if Visible(entries, s, pos) && entries[pos].kind == Deletion {
      forall q | pos < q < |entries| && entries[q].user <= entries[pos].user ensures !Current(entries, s, q) {
        assert entries[q].user == entries[pos].user;
      }
    }
  }

  // ----- any sequence of moves -----

  /** Next and Prev are asked of a valid cursor only. */
  ghost predicate Legal(m: seq<(UserKey, Bytes)>, c: Option<nat>, moves: seq<Move>)
    decreases |moves|
  {
    |moves| == 0 ||
    ((moves[0].StepNext? || moves[0].StepPrev? ==> c.Some?) && Legal(m, Moved(m, c, moves[0]), moves[1..]))
  }

  /** What a cursor over the list m shows after each move. */
  ghost function Shown(m: seq<(UserKey, Bytes)>, c: Option<nat>, moves: seq<Move>): seq<Option<(UserKey, Bytes)>>
    decreases |moves|
  {
    if |moves| == 0 then []
    else
      var c' := Moved(m, c, moves[0]);
      [if c'.Some? && c'.value < |m| then Some(m[c'.value]) else None] + Shown(m, c', moves[1..])
  }

  /** One item for each move: the list's at the place the plain cursor has moved to, if it is on the list. */
  lemma {:induction false} ShownFollows(m: seq<(UserKey, Bytes)>, c: Option<nat>, moves: seq<Move>)
    returns (path: seq<Option<nat>>)
    ensures |path| == |moves| + 1 && path[0] == c && |Shown(m, c, moves)| == |moves|
    ensures forall i :: 0 <= i < |moves| ==> path[i + 1] == Moved(m, path[i], moves[i])
    ensures forall i :: 0 <= i < |moves| ==>
      Shown(m, c, moves)[i] == match path[i + 1] case Some(p) => (if p < |m| then Some(m[p]) else None) case None => None
    decreases |moves|
  {
    path := [c];
    if |moves| > 0 {
      var rest := ShownFollows(m, Moved(m, c, moves[0]), moves[1..]);
      path := [c] + rest;
      assert forall i :: 0 < i < |moves| ==> moves[i] == moves[1..][i - 1] && path[i] == rest[i - 1];
    }
  }

  /** Whatever moves are made, in whatever order, the cursor shows what a plain cursor
      over the sorted map shows. */
  method Drive(cursor: Cursor, moves: seq<Move>) returns (shown: seq<Option<(UserKey, Bytes)>>)
    requires cursor.Ok() && Legal(cursor.Contents(), cursor.Index(), moves)
    modifies cursor, cursor.iter, cursor.iter.children
    ensures cursor.Ok()
    ensures shown == Shown(cursor.Contents(), old(cursor.Index()), moves)
    decreases |moves|
  {
    hide MergingIterator.Ok, Sorted, Unique, Current, LowerBound, Map;
    if |moves| == 0 {
      return [];
    }
    match moves[0] {
      case ToFirst => cursor.SeekToFirst();
      case ToLast => cursor.SeekToLast();
      case SeekTo(k) => cursor.Seek(k);
      case StepNext => cursor.Next();
      case StepPrev => cursor.Prev();
    }
    var here: Option<(UserKey, Bytes)> := None;
    if cursor.valid {
      var k := cursor.GetKey();
      var v := cursor.GetValue();
      here := Some((k, v));
    }
    var rest := Drive(cursor, moves[1..]);
    shown := [here] + rest;
  }
}
