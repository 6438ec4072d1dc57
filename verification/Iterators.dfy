/** The iterator interface over a sorted list of entries (include/leveldb/iterator.h),
    as memtables, tables and merged views provide it. */
module Iterators {
  import opened Common
  import opened InternalKeys

  datatype Direction = Forward | Reverse

  /** Number of entries at or before an iterator position. */
  function Left(n: nat, pos: nat): nat {
    if pos < n then pos + 1 else 0
  }

  class ListIterator {
    const entries: seq<Entry>
    var pos: nat  // |entries| when not valid

    constructor (entries: seq<Entry>)
      ensures this.entries == entries && !Valid() && InRange()
    {
      this.entries := entries;
      this.pos := |entries|;
    }

    ghost predicate InRange()
      reads this
    {
      pos <= |entries|
    }

    predicate Valid()
      reads this
    {
      pos < |entries|
    }

    function Entry(): Entry
      requires Valid()
      reads this
    {
      entries[pos]
    }

    method SeekToFirst()
      modifies this
      ensures InRange() && pos == 0
    {
      pos := 0;
    }

    method SeekToLast()
      modifies this
      ensures InRange() && pos == if |entries| == 0 then 0 else |entries| - 1
    {
      pos := if |entries| == 0 then 0 else |entries| - 1;
    }

    /** First entry at or past the target. */
    method Seek(target: InternalKey)
      requires Sorted(entries)
      modifies this
      ensures InRange()
      ensures forall p :: 0 <= p < pos ==> Less(entries[p].IKey(), target)
      ensures forall p :: pos <= p < |entries| ==> !Less(entries[p].IKey(), target)
    {
      pos := 0;
      while pos < |entries| && Less(entries[pos].IKey(), target)
        invariant pos <= |entries|
        invariant forall p :: 0 <= p < pos ==> Less(entries[p].IKey(), target)
      {
        pos := pos + 1;
      }
      forall p | pos <= p < |entries| ensures !Less(entries[p].IKey(), target) {
        assert pos < p ==> Less(entries[pos].IKey(), entries[p].IKey());
      }
    }

    method Next()
      requires Valid()
      modifies this
      ensures InRange() && pos == old(pos) + 1
    {
      pos := pos + 1;
    }

    method Prev()
      requires Valid()
      modifies this
      ensures InRange() && pos == if old(pos) == 0 then |entries| else old(pos) - 1
    {
      pos := if pos == 0 then |entries| else pos - 1;
    }
  }
}
