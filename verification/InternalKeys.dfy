/** Internal keys and their order (db/dbformat.h, db/dbformat.cc). */
module InternalKeys {
  import opened Common

  /** A user key is represented by its place in the user comparator's order.
      Keys are finite byte strings, so there are countably many of them, and every
      total order on a countable set embeds in the rationals.  Nothing below uses
      more of the reals than that `<` is a total order. */
  type UserKey = real

  type Bytes = seq<bv8>

  datatype ValueType = Deletion | Value

  datatype InternalKey = InternalKey(user: UserKey, sn: nat, kind: ValueType)

  /** One (user key, sequence, type) => value record of a memtable or table. */
  datatype Entry = Entry(user: UserKey, sn: nat, kind: ValueType, value: Bytes) {
    function IKey(): InternalKey {
      InternalKey(user, sn, kind)
    }
  }

  const kMaxMemCompactLevel: nat := 2

  /** (sequence << 8) | type */
  function PackSequenceAndType(k: InternalKey): nat {
    k.sn * 256 + if k.kind == Value then 1 else 0
  }

  /** InternalKeyComparator::Compare: user key ascending, packed tag descending. */
  function Compare(a: InternalKey, b: InternalKey): int {
    if a.user < b.user then -1
    else if a.user > b.user then 1
    else if PackSequenceAndType(a) > PackSequenceAndType(b) then -1
    else if PackSequenceAndType(a) < PackSequenceAndType(b) then 1
    else 0
  }

  predicate Less(a: InternalKey, b: InternalKey) {
    a.user < b.user ||
    (a.user == b.user && (a.sn > b.sn || (a.sn == b.sn && a.kind == Value && b.kind == Deletion)))
  }

  predicate AtMost(a: InternalKey, b: InternalKey) {
    a == b || Less(a, b)
  }

  /** Comparing packed tags is the lexicographic order on (user, sequence, type),
      and keys that compare equal are the same key. */
  lemma CompareIsLess(a: InternalKey, b: InternalKey)
    ensures Compare(a, b) < 0 <==> Less(a, b)
    ensures Compare(a, b) > 0 <==> Less(b, a)
    ensures Compare(a, b) == 0 <==> a == b
  {
    if a.user == b.user && a.sn != b.sn {
      if a.sn > b.sn {
        assert a.sn * 256 >= b.sn * 256 + 256;
      } else {
        assert b.sn * 256 >= a.sn * 256 + 256;
      }
    }
  }

  ghost predicate Sorted(entries: seq<Entry>) {
    forall i, j :: 0 <= i < j < |entries| ==> Less(entries[i].IKey(), entries[j].IKey())
  }

  ghost function Elements(entries: seq<Entry>): set<Entry> {
    set e | e in entries
  }

  // ----- what a read at a snapshot means -----

  ghost predicate Sees(e: Entry, k: UserKey, s: nat) {
    e.user == k && e.sn <= s
  }

  /** r is the entry of greatest sequence <= s for key k in S, if there is one. */
  ghost predicate IsNewest(S: set<Entry>, k: UserKey, s: nat, r: Option<Entry>) {
    match r
    case None => forall e :: e in S ==> !Sees(e, k, s)
    case Some(n) => n in S && Sees(n, k, s) && forall e :: e in S && Sees(e, k, s) ==> e.sn <= n.sn
  }

  lemma NewestExists(S: set<Entry>, k: UserKey, s: nat)
    ensures exists r :: IsNewest(S, k, s, r)
    decreases S
  {
    if e :| e in S && Sees(e, k, s) {
      NewestExists(S - {e}, k, s);
      var n :| IsNewest(S - {e}, k, s, n);
      if n.None? || n.value.sn <= e.sn {
        assert IsNewest(S, k, s, Some(e));
      } else {
        assert IsNewest(S, k, s, n);
      }
    } else {
      assert IsNewest(S, k, s, None);
    }
  }

  ghost function Newest(S: set<Entry>, k: UserKey, s: nat): (r: Option<Entry>)
    ensures IsNewest(S, k, s, r)
  {
    NewestExists(S, k, s);
    var n :| IsNewest(S, k, s, n);
    n
  }

  /** The value a get of k at snapshot s returns: a deletion marker reads as absent. */
  ghost function Lookup(S: set<Entry>, k: UserKey, s: nat): Option<Bytes> {
    var n := Newest(S, k, s);
    if n.Some? && n.value.kind == Value then Some(n.value.value) else None
  }

  /** No two different entries carry the same user key and sequence. */
  ghost predicate Unique(S: set<Entry>) {
    forall a, b :: a in S && b in S && a.user == b.user && a.sn == b.sn ==> a == b
  }

  lemma NewestIsUnique(S: set<Entry>, k: UserKey, s: nat, r: Option<Entry>)
    requires Unique(S) && IsNewest(S, k, s, r)
    ensures Newest(S, k, s) == r
  {
    var n := Newest(S, k, s);
    if n.Some? && r.Some? {
      assert n.value.sn == r.value.sn;
    }
  }

  lemma FirstExists(S: set<Entry>) returns (m: Entry)
    requires S != {} && Unique(S)
    ensures m in S && forall e :: e in S && e != m ==> Less(m.IKey(), e.IKey())
    decreases S
  {
    var x :| x in S;
    if S == {x} {
      m := x;
    } else {
      var rest := S - {x};
      var r := FirstExists(rest);
      m := if Less(x.IKey(), r.IKey()) then x else r;
    }
  }

  /** Every set of entries with unique sequences can be written out as a table. */
  lemma TableExists(S: set<Entry>) returns (t: seq<Entry>)
    requires Unique(S)
    ensures Sorted(t) && Elements(t) == S && (S != {} ==> |t| > 0)
    decreases S
  {
    if S == {} {
      t := [];
    } else {
      var m := FirstExists(S);
      var rest := TableExists(S - {m});
      t := [m] + rest;
      forall i, j | 0 <= i < j < |t| ensures Less(t[i].IKey(), t[j].IKey()) {
        assert t[j] == rest[j - 1] && rest[j - 1] in Elements(rest);
      }
      forall e ensures e in t <==> e in S {
        assert e in t <==> e == m || e in rest;
        assert e in rest <==> e in Elements(rest);
      }
    }
  }
}
