/** Byte strings in order, and the shortened keys of an index
    (util/comparator.cc, and FindShortestSeparator and FindShortSuccessor of db/dbformat.cc). */
module Separators {
  import opened Coding
  import opened Common

  type Bytes = seq<Byte>

  // ----- the bytewise order -----

  predicate Less(a: Bytes, b: Bytes)
    decreases |a|
  {
    |b| > 0 && (|a| == 0 || a[0] < b[0] || (a[0] == b[0] && Less(a[1..], b[1..])))
  }

  predicate AtMost(a: Bytes, b: Bytes) {
    a == b || Less(a, b)
  }

  lemma {:induction false} LessTotal(a: Bytes, b: Bytes)
    ensures a == b || Less(a, b) || Less(b, a)
    ensures !(Less(a, b) && Less(b, a)) && (a == b ==> !Less(a, b))
    decreases |a|
  {
    if |a| > 0 && |b| > 0 {
      LessTotal(a[1..], b[1..]);
      assert a == [a[0]] + a[1..] && b == [b[0]] + b[1..];
    }
  }

  lemma {:induction false} LessTransitive(a: Bytes, b: Bytes, c: Bytes)
    requires Less(a, b) && Less(b, c)
    ensures Less(a, c)
    decreases |a|
  {
    if |a| > 0 && a[0] == b[0] == c[0] {
      LessTransitive(a[1..], b[1..], c[1..]);
    }
  }

  /** Strings that part at byte n are ordered by it. */
  lemma {:induction false} PartAt(a: Bytes, b: Bytes, n: nat)
    requires n < |a| && n < |b| && a[..n] == b[..n] && a[n] < b[n]
    ensures Less(a, b)
    decreases n
  {
    if n > 0 {
      assert a[0] == a[..n][0] && b[0] == b[..n][0];
      assert a[1..][..n - 1] == a[..n][1..] && b[1..][..n - 1] == b[..n][1..];
      PartAt(a[1..], b[1..], n - 1);
    }
  }

  /** The strings have their first d bytes in common and no more. */
  predicate PartsAt(a: Bytes, b: Bytes, d: nat) {
    d <= |a| && d <= |b| && a[..d] == b[..d] && (d < |a| && d < |b| ==> a[d] != b[d])
  }

  /** The byte where the strings part may grow by one and stay below the other's. */
  predicate HasRoom(a: Bytes, b: Bytes, d: nat) {
    d < |a| && d < |b| && a[d] < 0xff && a[d] + 1 < b[d]
  }

  /** If start is below limit the result is a key from start on and still below limit: start itself, or shorter. */
  method FindShortestSeparator(start: Bytes, limit: Bytes) returns (r: Bytes, ghost d: nat)
    ensures PartsAt(start, limit, d) && r == if HasRoom(start, limit, d) then start[..d] + [start[d] + 1] else start
    ensures r == start || (|r| <= |start| && Less(start, r) && Less(r, limit))
  {
    hide Less;
    var minLength := if |start| < |limit| then |start| else |limit|;
    var diffIndex := 0;
    while diffIndex < minLength && start[diffIndex] == limit[diffIndex]
      invariant diffIndex <= minLength && start[..diffIndex] == limit[..diffIndex]
    {
      diffIndex := diffIndex + 1;
    }
    r, d := start, diffIndex;
    if diffIndex < minLength {
      var diffByte := start[diffIndex];
      if diffByte < 0xff && diffByte + 1 < limit[diffIndex] {
        r := start[..diffIndex] + [diffByte + 1];
        RaisedIsBetween(start, limit, d);
      }
    }
  }

  lemma RaisedIsBetween(start: Bytes, limit: Bytes, d: nat)
    requires PartsAt(start, limit, d) && HasRoom(start, limit, d)
    ensures var r := start[..d] + [start[d] + 1]; Less(start, r) && Less(r, limit)
  {
    hide Less;
    var r := start[..d] + [start[d] + 1];
    NextByte(start[d]);
    assert r[..d] == start[..d];
    PartAt(start, r, d);
    PartAt(r, limit, d);
  }

  lemma NextByte(b: Byte)
    requires b < 0xff
    ensures b < b + 1
  {}

  /** A key not below the given one, no longer than it. */
  method FindShortSuccessor(key: Bytes) returns (r: Bytes, ghost n: nat)
    ensures TopBytes(key, n)
    ensures r == if n < |key| then key[..n] + [key[n] + 1] else key
    ensures r == key || (|r| <= |key| && Less(key, r))
    ensures r == key <==> forall i | 0 <= i < |key| :: key[i] == 0xff
  {
    for i := 0 to |key|
      invariant forall j | 0 <= j < i :: key[j] == 0xff
    {
      var byte := key[i];
      if byte != 0xff {
        r, n := key[..i] + [byte + 1], i;
        NextByte(byte);
        assert r[..i] == key[..i];
        PartAt(key, r, i);
        LessTotal(key, r);
        return;
      }
    }
    r, n := key, |key|;
  }

  // ----- internal keys -----

  /** A user key and the packed sequence number and type. */
  datatype IKey = IKey(user: Bytes, tag: nat)

  const kMaxTag: nat := kMaxSequenceNumber * 256 + 1

  predicate Below(a: IKey, b: IKey) {
    Less(a.user, b.user) || (a.user == b.user && a.tag > b.tag)
  }

  lemma BelowTotal(a: IKey, b: IKey)
    ensures a == b || Below(a, b) || Below(b, a)
    ensures !(Below(a, b) && Below(b, a)) && (a == b ==> !Below(a, b))
  {
    hide Less;
    LessTotal(a.user, b.user);
  }

  lemma BelowTransitive(a: IKey, b: IKey, c: IKey)
    requires Below(a, b) && Below(b, c)
    ensures Below(a, c)
  {
    hide Less;
    if Less(a.user, b.user) && Less(b.user, c.user) {
      LessTransitive(a.user, b.user, c.user);
    }
  }

  /** The user key of start is cut after the first byte that differs from limit's, and this byte raised by one: where
      it has room and the key gets shorter, and then with the earliest tag.  If not, start stays. */
  ghost predicate IsShortened(start: IKey, r: IKey, limit: IKey) {
    exists d: nat | PartsAt(start.user, limit.user, d) ::
      r == if HasRoom(start.user, limit.user, d) && d + 1 < |start.user|
        then IKey(start.user[..d] + [start.user[d] + 1], kMaxTag) else start
  }

  /** start itself, or a key of a user key strictly between those of start and limit; the one the rule gives. */
  ghost predicate Separates(start: IKey, r: IKey, limit: IKey) {
    && (r == start || (Less(start.user, r.user) && Less(r.user, limit.user)))
    && IsShortened(start, r, limit)
  }

  method FindShortestInternalSeparator(start: IKey, limit: IKey) returns (r: IKey)
    ensures Separates(start, r, limit)
    ensures r != start ==> |r.user| < |start.user| && r.tag == kMaxTag
    ensures Below(start, limit) ==> !Below(r, start) && Below(r, limit)
  {
    hide Less;
    var tmp, d := FindShortestSeparator(start.user, limit.user);
    BelowTotal(start, start);
    r := start;
    if |tmp| < |start.user| && Less(start.user, tmp) {
      r := IKey(tmp, kMaxTag);
      LessTotal(start.user, tmp);
    }
  }

  /** The key starts with n bytes 0xff and no more. */
  predicate TopBytes(key: Bytes, n: nat) {
    n <= |key| && (forall i | 0 <= i < n :: key[i] == 0xff) && (n < |key| ==> key[n] != 0xff)
  }

  /** The user key is cut after the first byte that is not 0xff, and this byte raised by one, if it gets shorter. */
  ghost predicate IsSuccessor(key: IKey, r: IKey) {
    exists n: nat | TopBytes(key.user, n) ::
      r == if n + 1 < |key.user| then IKey(key.user[..n] + [key.user[n] + 1], kMaxTag) else key
  }

  method FindShortInternalSuccessor(key: IKey) returns (r: IKey)
    ensures IsSuccessor(key, r)
    ensures r == key || (Less(key.user, r.user) && |r.user| < |key.user| && r.tag == kMaxTag)
    ensures !Below(r, key)
  {
    hide Less;
    var tmp, n := FindShortSuccessor(key.user);
    assert TopBytes(key.user, n);
    BelowTotal(key, key);
    r := key;
    if |tmp| < |key.user| && Less(key.user, tmp) {
      r := IKey(tmp, kMaxTag);
      LessTotal(key.user, tmp);
    }
  }
}
