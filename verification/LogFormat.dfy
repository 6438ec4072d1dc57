/** The log's block format, its writer and its reader (db/log_format.h, db/log_writer.cc, db/log_reader.cc). */
module LogFormat {
  import opened Coding
  import opened Crc32c

  const kBlockSize: nat := 32768
  const kHeaderSize: nat := 7
  const kZeroType: nat := 0
  const kFullType: nat := 1
  const kFirstType: nat := 2
  const kMiddleType: nat := 3
  const kLastType: nat := 4
  const kMaxRecordType: nat := 4
  const kEof: nat := 5
  const kBadRecord: nat := 6

  // ----- bytes and numbers -----

  function EncodeFixed32(w: Word): (s: seq<Byte>)
    ensures |s| == 4
  {
    [(w & 0xFF) as Byte, ((w >> 8) & 0xFF) as Byte, ((w >> 16) & 0xFF) as Byte, (w >> 24) as Byte]
  }

  lemma FixedRoundTrip(w: Word)
    ensures ReadUint32LE((w & 0xFF) as Byte, ((w >> 8) & 0xFF) as Byte, ((w >> 16) & 0xFF) as Byte, (w >> 24) as Byte) == w
  {}

  function DecodeFixed32(s: seq<Byte>): Word
    requires |s| >= 4
  {
    ReadUint32LE(s[0], s[1], s[2], s[3])
  }

  lemma DecodeOfEncode(w: Word, s: seq<Byte>)
    requires |s| >= 4 && s[..4] == EncodeFixed32(w)
    ensures DecodeFixed32(s) == w
  {
    hide ReadUint32LE;
    FixedRoundTrip(w);
    assert s[0] == s[..4][0] && s[1] == s[..4][1] && s[2] == s[..4][2] && s[3] == s[..4][3];
  }

  lemma FixedRoundTripBack(s: seq<Byte>)
    requires |s| == 4
    ensures EncodeFixed32(ReadUint32LE(s[0], s[1], s[2], s[3])) == s
  {}

  lemma LengthRoundTrip(n: nat)
    requires n <= 0xFFFF
    ensures n / 256 < 256 && NumberOf(ByteOf(n % 256)) + 256 * NumberOf(ByteOf(n / 256)) == n
  {
    hide ByteOf, NumberOf;
    ByteRoundTrip(n % 256);
    ByteRoundTrip(n / 256);
  }

  // ----- the format -----

  function Checksum(t: nat, payload: seq<Byte>): Word
    requires t < 256
  {
    Mask(Crc(0, [ByteOf(t)] + payload))
  }

  function Header(t: nat, payload: seq<Byte>): (h: seq<Byte>)
    requires t < 256 && |payload| <= 0xFFFF
    ensures |h| == kHeaderSize
  {
    EncodeFixed32(Checksum(t, payload)) + [ByteOf(|payload| % 256), ByteOf(|payload| / 256), ByteOf(t)]
  }

  function Physical(t: nat, payload: seq<Byte>): (s: seq<Byte>)
    requires t < 256 && |payload| <= 0xFFFF
    ensures |s| == kHeaderSize + |payload|
  {
    Header(t, payload) + payload
  }

  function Zeros(n: nat): (s: seq<Byte>)
    ensures |s| == n
  {
    seq(n, i => 0)
  }

  function Type(begin: bool, end: bool): nat {
    if begin && end then kFullType else if begin then kFirstType else if end then kLastType else kMiddleType
  }

  /** The bytes left in the block of file offset q. */
  function Leftover(q: nat): (n: nat)
    ensures 0 < n <= kBlockSize && (q + n) % kBlockSize == 0
  {
    kBlockSize - q % kBlockSize
  }

  lemma LeftoverAfter(q: nat, n: nat)
    requires n <= Leftover(q)
    ensures Leftover(q + n) == if n == Leftover(q) then kBlockSize else Leftover(q) - n
  {
    var k := q / kBlockSize;
    assert q == k * kBlockSize + q % kBlockSize;
    if n < Leftover(q) {
      assert (q + n) / kBlockSize == k;
    }
  }

  /** o is the offset in its block of file offset q, the end of a block counting as in the block or not. */
  predicate InBlock(o: nat, q: nat) {
    o + Leftover(q) == kBlockSize || (o == kBlockSize && Leftover(q) == kBlockSize)
  }

  /** How much of data fits in the block at q, after a header. */
  function Fit(q: nat, data: seq<Byte>): (n: nat)
    requires Leftover(q) >= kHeaderSize
    ensures n <= |data| && n <= 0xFFFF && kHeaderSize + n <= Leftover(q)
    ensures n < |data| ==> kHeaderSize + n == Leftover(q)
  {
    if |data| < Leftover(q) - kHeaderSize then |data| else Leftover(q) - kHeaderSize
  }

  /** What the rest of a record puts in the file from offset q on. */
  function Emitted(q: nat, data: seq<Byte>, begin: bool): (s: seq<Byte>)
    ensures |s| >= kHeaderSize
    decreases |data|, if Leftover(q) <= kHeaderSize then 1 else 0
  {
    if Leftover(q) < kHeaderSize then
      Zeros(Leftover(q)) + Emitted(q + Leftover(q), data, begin)
    else
      var n := Fit(q, data);
      var end := n == |data|;
      Physical(Type(begin, end), data[..n]) + (if end then [] else Emitted(q + kHeaderSize + n, data[n..], false))
  }

  /** What the records put in the file from offset q on. */
  function LogFrom(q: nat, records: seq<seq<Byte>>): seq<Byte>
    decreases |records|
  {
    if |records| == 0 then []
    else
      var first := Emitted(q, records[0], true);
      first + LogFrom(q + |first|, records[1..])
  }

  function Log(records: seq<seq<Byte>>): seq<Byte> {
    LogFrom(0, records)
  }

  lemma Regroup(a: seq<Byte>, b: seq<Byte>, c: seq<Byte>)
    ensures (a + b) + c == a + (b + c)
  {}

  lemma LogOfNone(q: nat, records: seq<seq<Byte>>)
    requires |records| == 0
    ensures LogFrom(q, records) == []
  {}

  lemma LogOfFirst(q: nat, first: seq<Byte>, more: seq<seq<Byte>>)
    ensures LogFrom(q, [first] + more) == Emitted(q, first, true) + LogFrom(q + |Emitted(q, first, true)|, more)
  {
    hide Emitted;
    assert ([first] + more)[1..] == more;
  }

  lemma {:induction false} LogFromAppend(q: nat, a: seq<seq<Byte>>, b: seq<seq<Byte>>)
    ensures LogFrom(q, a + b) == LogFrom(q, a) + LogFrom(q + |LogFrom(q, a)|, b)
    decreases |a|
  {
    hide Emitted, LogFrom;
    if |a| == 0 {
      assert a + b == b;
      LogOfNone(q, a);
    } else {
      var first := Emitted(q, a[0], true);
      var next := q + |first|;
      LogFromAppend(next, a[1..], b);
      LogOfFirst(q, a[0], a[1..]);
      LogOfFirst(q, a[0], a[1..] + b);
      assert [a[0]] + a[1..] == a && [a[0]] + (a[1..] + b) == a + b;
      Regroup(first, LogFrom(next, a[1..]), LogFrom(next + |LogFrom(next, a[1..])|, b));
    }
  }

  lemma LogOfOneMore(records: seq<seq<Byte>>, record: seq<Byte>)
    ensures Log(records + [record]) == Log(records) + Emitted(|Log(records)|, record, true)
  {
    hide Emitted, LogFrom;
    LogFromAppend(0, records, [record]);
    LogOfOne(|Log(records)|, record);
  }

  lemma LogOfOne(q: nat, record: seq<Byte>)
    ensures LogFrom(q, [record]) == Emitted(q, record, true)
  {
    hide Emitted;
    assert [record][1..] == [];
  }

  lemma SkipTrailer(dest: seq<Byte>, data: seq<Byte>, begin: bool)
    requires Leftover(|dest|) < kHeaderSize
    ensures var padded := dest + Zeros(Leftover(|dest|)); padded + Emitted(|padded|, data, begin) == dest + Emitted(|dest|, data, begin)
  {
    hide Emitted, Zeros, Leftover;
    EmittedAfterTrailer(|dest|, data, begin);
    Regroup(dest, Zeros(Leftover(|dest|)), Emitted(|dest| + Leftover(|dest|), data, begin));
  }

  lemma EmittedAfterTrailer(q: nat, data: seq<Byte>, begin: bool)
    requires Leftover(q) < kHeaderSize
    ensures Emitted(q, data, begin) == Zeros(Leftover(q)) + Emitted(q + Leftover(q), data, begin)
  {
    hide Zeros, Leftover;
  }

  lemma EmittedFragment(q: nat, data: seq<Byte>, begin: bool, n: nat)
    requires Leftover(q) >= kHeaderSize && n == Fit(q, data)
    ensures n == |data| ==> Emitted(q, data, begin) == Physical(Type(begin, true), data)
    ensures n < |data| ==> Emitted(q, data, begin) == Physical(Type(begin, false), data[..n]) + Emitted(q + kHeaderSize + n, data[n..], false)
  {
    hide Physical, Leftover;
    assert data[..|data|] == data;
  }

  lemma OneFragment(dest: seq<Byte>, data: seq<Byte>, begin: bool, n: nat)
    requires Leftover(|dest|) >= kHeaderSize && n == Fit(|dest|, data)
    ensures n == |data| ==> dest + Physical(Type(begin, true), data) == dest + Emitted(|dest|, data, begin)
    ensures n < |data| ==>
      var next := dest + Physical(Type(begin, false), data[..n]);
      next + Emitted(|next|, data[n..], false) == dest + Emitted(|dest|, data, begin)
  {
    hide Physical, Emitted, Leftover;
    EmittedFragment(|dest|, data, begin, n);
    if n < |data| {
      var first := Physical(Type(begin, false), data[..n]);
      assert |dest + first| == |dest| + kHeaderSize + n;
      Regroup(dest, first, Emitted(|dest| + kHeaderSize + n, data[n..], false));
    }
  }

  lemma PhysicalParts(t: nat, payload: seq<Byte>)
    requires t < 256 && |payload| <= 0xFFFF
    ensures Physical(t, payload)[..4] == EncodeFixed32(Checksum(t, payload))
    ensures Physical(t, payload)[4] == ByteOf(|payload| % 256)
    ensures Physical(t, payload)[5] == ByteOf(|payload| / 256)
    ensures Physical(t, payload)[6] == ByteOf(t)
    ensures Physical(t, payload)[kHeaderSize..] == payload
    ensures Physical(t, payload)[6..] == [ByteOf(t)] + payload
  {
    hide ByteOf, EncodeFixed32, Checksum;
  }

  // ----- what a record looks like in the file -----

  /** A fragment: the file offset of its header, its type and its bytes. */
  datatype Piece = Piece(at: nat, t: nat, payload: seq<Byte>) {
    function End(): nat {
      at + 7 + |payload|
    }
  }

  function Payloads(ps: seq<Piece>): seq<Byte>
    decreases |ps|
  {
    if |ps| == 0 then [] else ps[0].payload + Payloads(ps[1..])
  }

  /** The bytes s, which begin at file offset q, hold the fragment, and it does not cross the end of a block. */
  ghost predicate Holds(s: seq<Byte>, q: nat, p: Piece) {
    && q <= p.at && p.End() <= q + |s| && p.at % 32768 + 7 + |p.payload| <= 32768 && p.t < 256
    && s[p.at - q..p.End() - q] == Physical(p.t, p.payload)
  }

  /** Fragment i of n: a whole record is of type 1, a first part 2, a middle one 3, a last one 4. */
  function TypeOf(begin: bool, i: nat, n: nat): nat {
    if i == 0 && begin then (if n == 1 then 1 else 2) else if i + 1 == n then 4 else 3
  }

  /** The fragments follow one another, each but the last filling its block. */
  ghost predicate InOrder(ps: seq<Piece>) {
    forall i | 0 < i < |ps| :: ps[i].at == ps[i - 1].End() && ps[i].at % 32768 == 0
  }

  /** A record in the file: its bytes cut into fragments, in order and without gaps, after less than a header's length of
      zeros when the block has no room for a header. */
  ghost predicate IsCut(s: seq<Byte>, q: nat, data: seq<Byte>, begin: bool, ps: seq<Piece>) {
    && |ps| > 0 && Payloads(ps) == data && InOrder(ps)
    && ps[0].at == (if q % 32768 > 32768 - 7 then q + 32768 - q % 32768 else q)
    && ps[|ps| - 1].End() == q + |s|
    && (forall k | 0 <= k < ps[0].at - q && k < |s| :: s[k] == 0)
    && (forall i | 0 <= i < |ps| :: ps[i].t == TypeOf(begin, i, |ps|) && Holds(s, q, ps[i]))
  }

  lemma {:induction false} EmittedPieces(q: nat, data: seq<Byte>, begin: bool) returns (ps: seq<Piece>)
    ensures IsCut(Emitted(q, data, begin), q, data, begin, ps)
    decreases |data|, if Leftover(q) <= kHeaderSize then 1 else 0
  {
    hide Physical, Emitted, IsCut;
    if Leftover(q) < kHeaderSize {
      EmittedAfterTrailer(q, data, begin);
      ps := EmittedPieces(q + Leftover(q), data, begin);
      CutAfterTrailer(q, Emitted(q + Leftover(q), data, begin), data, begin, ps);
    } else {
      var n := Fit(q, data);
      var first := Piece(q, Type(begin, n == |data|), data[..n]);
      EmittedFragment(q, data, begin, n);
      if n == |data| {
        assert data[..|data|] == data;
        ps := [first];
        CutOfOne(q, data, begin);
      } else {
        var rest := EmittedPieces(q + kHeaderSize + n, data[n..], false);
        ps := [first] + rest;
        CutOfMore(q, data, begin, n, Emitted(q + kHeaderSize + n, data[n..], false), rest);
      }
    }
  }

  lemma CutOfOne(q: nat, data: seq<Byte>, begin: bool)
    requires kHeaderSize + |data| <= Leftover(q)
    ensures var t := Type(begin, true); IsCut(Physical(t, data), q, data, begin, [Piece(q, t, data)])
  {
    hide Physical;
    var ps := [Piece(q, Type(begin, true), data)];
    assert Payloads(ps) == data + Payloads([]);
  }

  lemma CutOfMore(q: nat, data: seq<Byte>, begin: bool, n: nat, more: seq<Byte>, rest: seq<Piece>)
    requires n < |data| && kHeaderSize + n == Leftover(q) && IsCut(more, q + kHeaderSize + n, data[n..], false, rest)
    ensures var t := Type(begin, false);
      IsCut(Physical(t, data[..n]) + more, q, data, begin, [Piece(q, t, data[..n])] + rest)
  {
    hide Physical, Holds;
    var first := Piece(q, Type(begin, false), data[..n]);
    var s, ps := Physical(first.t, first.payload) + more, [first] + rest;
    HoldAfter(Physical(first.t, first.payload), more, q, rest);
    HoldFirst(Physical(first.t, first.payload), more, q, first);
    assert ps[1..] == rest && data == data[..n] + data[n..];
    forall i | 0 <= i < |ps| ensures ps[i].t == TypeOf(begin, i, |ps|) && Holds(s, q, ps[i]) {
      assert i > 0 ==> rest[i - 1] == ps[i] && rest[i - 1].t == TypeOf(false, i - 1, |rest|) && Holds(s, q, rest[i - 1]);
    }
    forall i | 0 < i < |ps| ensures ps[i].at == ps[i - 1].End() && ps[i].at % 32768 == 0 {
      assert i > 1 ==> rest[i - 1].at == rest[i - 2].End() && rest[i - 1].at % 32768 == 0;
    }
  }

  lemma CutAfterTrailer(q: nat, s: seq<Byte>, data: seq<Byte>, begin: bool, ps: seq<Piece>)
    requires Leftover(q) < kHeaderSize && IsCut(s, q + Leftover(q), data, begin, ps)
    ensures IsCut(Zeros(Leftover(q)) + s, q, data, begin, ps)
  {
    hide Holds, TypeOf, InOrder;
    HoldAfter(Zeros(Leftover(q)), s, q, ps);
  }

  lemma HoldFirst(a: seq<Byte>, b: seq<Byte>, q: nat, p: Piece)
    requires p.t < 256 && p.at == q && |p.payload| <= 0xFFFF && a == Physical(p.t, p.payload)
    requires kHeaderSize + |p.payload| <= Leftover(q)
    ensures Holds(a + b, q, p)
  {
    hide Physical;
    assert (a + b)[..|a|] == a;
  }

  lemma HoldAfter(a: seq<Byte>, b: seq<Byte>, q: nat, ps: seq<Piece>)
    requires forall i | 0 <= i < |ps| :: Holds(b, q + |a|, ps[i])
    ensures forall i | 0 <= i < |ps| :: Holds(a + b, q, ps[i])
  {
    hide Physical;
    forall i | 0 <= i < |ps| ensures Holds(a + b, q, ps[i]) {
      var p := ps[i];
      assert Holds(b, q + |a|, p);
      assert (a + b)[p.at - q..p.End() - q] == b[p.at - q - |a|..p.End() - q - |a|];
    }
  }

  // ----- the writer -----

  class Writer {
    var dest: seq<Byte>
    var blockOffset: nat
    const typeCrc: seq<Word>

    ghost predicate Valid()
      reads this
    {
      && InBlock(blockOffset, |dest|)
      && |typeCrc| == kMaxRecordType + 1
      && forall t | 0 <= t <= kMaxRecordType :: typeCrc[t] == Crc(0, [ByteOf(t)])
    }

    constructor ()
      ensures Valid() && dest == []
    {
      dest := [];
      blockOffset := 0;
      typeCrc := seq(kMaxRecordType + 1, t requires 0 <= t <= kMaxRecordType => Crc(0, [ByteOf(t)]));
    }

    /** Appends to a file that already holds something. */
    constructor Reopen(contents: seq<Byte>)
      ensures Valid() && dest == contents
    {
      dest := contents;
      blockOffset := |contents| % kBlockSize;
      typeCrc := seq(kMaxRecordType + 1, t requires 0 <= t <= kMaxRecordType => Crc(0, [ByteOf(t)]));
    }

    method EmitPhysicalRecord(t: nat, payload: seq<Byte>)
      requires Valid() && t <= kMaxRecordType
      requires |payload| <= 0xFFFF && blockOffset + kHeaderSize + |payload| <= kBlockSize
      modifies this
      ensures Valid() && dest == old(dest) + Physical(t, payload)
      ensures blockOffset == old(blockOffset) + kHeaderSize + |payload|
    {
      hide ByteOf, EncodeFixed32, Crc, Mask, Leftover;
      LeftoverAfter(|dest|, kHeaderSize + |payload|);
      var crc := Crc(typeCrc[t], payload);
      ExtendChains(0, [ByteOf(t)], payload);
      crc := Mask(crc);
      var header := EncodeFixed32(crc) + [ByteOf(|payload| % 256), ByteOf(|payload| / 256), ByteOf(t)];
      dest := dest + header;
      dest := dest + payload;
      blockOffset := blockOffset + kHeaderSize + |payload|;
    }

    method AddRecord(slice: seq<Byte>)
      requires Valid()
      modifies this
      ensures Valid() && dest == old(dest) + Emitted(|old(dest)|, slice, true)
    {
      hide ByteOf, EncodeFixed32, Crc, Mask, Physical, Emitted, Zeros, Leftover;
      ghost var target := dest + Emitted(|dest|, slice, true);
      var ptr := 0;
      var begin, more := true, true;
      assert slice[0..] == slice;
      while more
        invariant Valid() && ptr <= |slice|
        invariant more ==> dest + Emitted(|dest|, slice[ptr..], begin) == target
        invariant !more ==> dest == target
        decreases more, |slice| - ptr, if Leftover(|dest|) <= kHeaderSize then 1 else 0
      {
        ghost var data := slice[ptr..];
        var leftover := kBlockSize - blockOffset;
        if leftover < kHeaderSize {
          if leftover > 0 {
            SkipTrailer(dest, data, begin);
            LeftoverAfter(|dest|, leftover);
            dest := dest + Zeros(leftover);
          }
          blockOffset := 0;
        }
        assert dest + Emitted(|dest|, data, begin) == target;
        var avail := kBlockSize - blockOffset - kHeaderSize;
        var left := |slice| - ptr;
        var n := if left < avail then left else avail;
        OneFragment(dest, data, begin, n);
        assert data[..n] == slice[ptr..ptr + n] && data[n..] == slice[ptr + n..];
        assert n == left ==> data[..n] == data;
        EmitPhysicalRecord(Type(begin, left == n), slice[ptr..ptr + n]);
        ptr := ptr + n;
        begin := false;
        more := ptr < |slice|;
      }
    }
  }

  /** A writer reopened on an intact file goes on as the first would have. */
  method WriteReopened(first: seq<seq<Byte>>, second: seq<seq<Byte>>) returns (dest: seq<Byte>)
    ensures dest == Log(first + second)
  {
    hide Emitted, LogFrom, Log;
    var w := new Writer();
    EmptyLog(first);
    for i := 0 to |first|
      invariant w.Valid() && fresh(w) && w.dest == Log(first[..i])
    {
      LogOfOneMore(first[..i], first[i]);
      assert first[..i + 1] == first[..i] + [first[i]];
      w.AddRecord(first[i]);
    }
    assert first[..|first|] == first;
    w := new Writer.Reopen(w.dest);
    assert first + second[..0] == first;
    for i := 0 to |second|
      invariant w.Valid() && fresh(w) && w.dest == Log(first + second[..i])
    {
      LogOfOneMore(first + second[..i], second[i]);
      assert first + second[..i + 1] == first + second[..i] + [second[i]];
      w.AddRecord(second[i]);
    }
    assert first + second[..|second|] == first + second;
    dest := w.dest;
  }

  lemma EmptyLog(records: seq<seq<Byte>>)
    ensures Log(records[..0]) == []
  {}

  // ----- what a file cut from a log still shows -----

  /** At q the file goes on, as far as it reaches, with the rest of a record and then tail. */
  predicate Continues(file: seq<Byte>, q: nat, part: seq<Byte>, begin: bool, tail: seq<Byte>) {
    q <= |file| && file[q..] <= Emitted(q, part, begin) + tail
  }

  lemma TrailerAhead(file: seq<Byte>, q: nat, part: seq<Byte>, begin: bool, tail: seq<Byte>)
    requires Continues(file, q, part, begin, tail)
    requires Leftover(q) < kHeaderSize && q + Leftover(q) <= |file|
    ensures Continues(file, q + Leftover(q), part, begin, tail)
    ensures |Emitted(q, part, begin)| == Leftover(q) + |Emitted(q + Leftover(q), part, begin)|
  {
    hide Emitted, Leftover, Zeros;
    EmittedAfterTrailer(q, part, begin);
    Regroup(Zeros(Leftover(q)), Emitted(q + Leftover(q), part, begin), tail);
    DropBoth(file[q..], Zeros(Leftover(q)), Emitted(q + Leftover(q), part, begin) + tail);
    assert file[q..][Leftover(q)..] == file[q + Leftover(q)..];
  }

  lemma DropBoth(s: seq<Byte>, a: seq<Byte>, b: seq<Byte>)
    requires s <= a + b && |a| <= |s|
    ensures s[..|a|] == a && s[|a|..] <= b
  {
    assert (a + b)[..|a|] == a && (a + b)[|a|..] == b;
    assert s[..|a|] == (a + b)[..|a|];
  }

  /** What follows the next fragment. */
  predicate Beyond(file: seq<Byte>, q: nat, part: seq<Byte>, n: nat, tail: seq<Byte>)
    requires n <= |part|
  {
    if n == |part| then q <= |file| && file[q..] <= tail else Continues(file, q, part[n..], false, tail)
  }

  function Rest(q: nat, part: seq<Byte>, n: nat): nat
    requires n <= |part|
  {
    if n == |part| then 0 else |Emitted(q, part[n..], false)|
  }

  /** The next fragment's header, when all of it is there. */
  lemma HeaderAhead(file: seq<Byte>, q: nat, part: seq<Byte>, begin: bool, tail: seq<Byte>, n: nat)
    requires Continues(file, q, part, begin, tail)
    requires Leftover(q) >= kHeaderSize && n == Fit(q, part) && q + kHeaderSize <= |file|
    ensures NumberOf(file[q + 4]) + 256 * NumberOf(file[q + 5]) == n
    ensures NumberOf(file[q + 6]) == Type(begin, n == |part|)
    ensures |Emitted(q, part, begin)| == kHeaderSize + n + Rest(q + kHeaderSize + n, part, n)
  {
    hide Emitted, Leftover, Physical, ByteOf, NumberOf;
    var t := Type(begin, n == |part|);
    EmittedFragment(q, part, begin, n);
    assert n == |part| ==> part[..n] == part;
    PhysicalParts(t, part[..n]);
    assert Emitted(q, part, begin)[4] == Physical(t, part[..n])[4];
    assert Emitted(q, part, begin)[5] == Physical(t, part[..n])[5];
    assert Emitted(q, part, begin)[6] == Physical(t, part[..n])[6];
    assert file[q..][4] == file[q + 4] && file[q..][5] == file[q + 5] && file[q..][6] == file[q + 6];
    LengthRoundTrip(n);
    ByteRoundTrip(t);
  }

  lemma FragmentAhead(file: seq<Byte>, q: nat, part: seq<Byte>, begin: bool, tail: seq<Byte>, n: nat)
    requires Continues(file, q, part, begin, tail)
    requires Leftover(q) >= kHeaderSize && n == Fit(q, part) && q + kHeaderSize + n <= |file|
    ensures file[q..q + kHeaderSize + n] == Physical(Type(begin, n == |part|), part[..n])
    ensures Beyond(file, q + kHeaderSize + n, part, n, tail)
  {
    hide Emitted, Leftover, Physical;
    var t := Type(begin, n == |part|);
    EmittedFragment(q, part, begin, n);
    assert n == |part| ==> part[..n] == part;
    var first := Physical(t, part[..n]);
    var more := if n == |part| then [] else Emitted(q + kHeaderSize + n, part[n..], false);
    assert Emitted(q, part, begin) == first + more;
    Regroup(first, more, tail);
    DropBoth(file[q..], first, more + tail);
    assert file[q..][..kHeaderSize + n] == file[q..q + kHeaderSize + n];
    assert file[q..][kHeaderSize + n..] == file[q + kHeaderSize + n..];
    assert n == |part| ==> more + tail == tail;
  }

  /** The reader's test of the fragment at the start of its buffer. */
  predicate Passes(buffer: seq<Byte>, length: nat)
    requires kHeaderSize + length <= |buffer|
  {
    Crc(0, buffer[6..kHeaderSize + length]) == Unmask(DecodeFixed32(buffer))
  }

  /** The test passes what the writer wrote. */
  lemma WrittenPasses(buffer: seq<Byte>, t: nat, payload: seq<Byte>)
    requires t < 256 && kHeaderSize + |payload| <= |buffer| && |payload| <= 0xFFFF
    requires buffer[..kHeaderSize + |payload|] == Physical(t, payload)
    ensures Passes(buffer, |payload|) && buffer[kHeaderSize..kHeaderSize + |payload|] == payload
  {
    hide Physical, EncodeFixed32, Mask, Unmask, Crc, ByteOf;
    var s := buffer[..kHeaderSize + |payload|];
    PhysicalParts(t, payload);
    DecodeOfEncode(Checksum(t, payload), s);
    MaskRoundTrip(Crc(0, s[6..]));
    assert s[6..] == buffer[6..kHeaderSize + |payload|];
  }

  /** And nothing else. */
  lemma PassesOnlyWritten(buffer: seq<Byte>, t: nat, length: nat)
    requires length <= 0xFFFF && kHeaderSize + length <= |buffer|
    requires NumberOf(buffer[4]) + 256 * NumberOf(buffer[5]) == length && NumberOf(buffer[6]) == t
    requires Passes(buffer, length)
    ensures buffer[..kHeaderSize + length] == Physical(t, buffer[kHeaderSize..kHeaderSize + length])
  {
    hide Crc, Mask, Unmask, ReadUint32LE, EncodeFixed32, ByteOf, NumberOf;
    var payload := buffer[kHeaderSize..kHeaderSize + length];
    NumberBack(buffer[4]);
    NumberBack(buffer[5]);
    NumberBack(buffer[6]);
    assert length % 256 == NumberOf(buffer[4]) && length / 256 == NumberOf(buffer[5]);
    assert buffer[6..kHeaderSize + length] == [ByteOf(t)] + payload;
    MaskRoundTrip(DecodeFixed32(buffer));
    assert DecodeFixed32(buffer) == Checksum(t, payload);
    FixedRoundTripBack(buffer[..4]);
    assert buffer[..4] == EncodeFixed32(Checksum(t, payload));
    assert buffer[..kHeaderSize + length] == buffer[..4] + buffer[4..7] + payload;
  }

  // ----- the reader -----

  datatype Drop = Drop(bytes: nat, reason: string)

  class Reader {
    const file: seq<Byte>
    const checksum: bool
    var position: nat  // file offset just past buffer
    var buffer: seq<Byte>
    var eof: bool
    var drops: seq<Drop>

    ghost predicate Valid()
      reads `position, `buffer, `eof
    {
      && |buffer| <= position <= |file|
      && buffer == file[At()..position]
      && (eof ==> position == |file|)
      && (!eof ==> Leftover(position) == kBlockSize)
      && (|buffer| > 0 ==> if eof then |buffer| < Leftover(At()) else |buffer| == Leftover(At()))
    }

    /** File offset of the next byte to interpret. */
    ghost function At(): nat
      reads `position, `buffer
    {
      if |buffer| <= position then position - |buffer| else 0
    }

    constructor (contents: seq<Byte>, check: bool)
      ensures Valid() && file == contents && checksum == check && At() == 0 && drops == []
    {
      file, checksum := contents, check;
      position, buffer, eof, drops := 0, [], false, [];
    }

    /** Reads the next block, or what there is of it. */
    method Refill()
      requires Valid() && !eof && |buffer| == 0
      modifies this`position, this`buffer, this`eof
      ensures Valid() && At() == old(At())
      ensures |file| - position < |file| - old(position) || eof
    {
      hide Leftover;
      var n := if |file| - position < kBlockSize then |file| - position else kBlockSize;
      buffer := file[position..position + n];
      LeftoverAfter(position, n);
      position := position + n;
      if n < kBlockSize {
        eof := true;
      }
    }

    /** Skips to a whole header, if there is one: the head of ReadPhysicalRecord's loop. */
    method FindHeader(ghost part: seq<Byte>, ghost begin: bool, ghost tail: seq<Byte>) returns (found: bool)
      requires Valid()
      modifies this`position, this`buffer, this`eof
      ensures Valid() && At() >= old(At())
      ensures found <==> |buffer| >= kHeaderSize
      ensures Continues(file, old(At()), part, begin, tail) && found ==> Continues(file, At(), part, begin, tail)
      ensures Continues(file, old(At()), part, begin, tail) && found ==> old(At()) + |Emitted(old(At()), part, begin)| == At() + |Emitted(At(), part, begin)|
      ensures Continues(file, old(At()), part, begin, tail) && !found ==> old(At()) + |Emitted(old(At()), part, begin)| > |file|
    {
      hide Leftover, Emitted;
      ghost var start := At();
      ghost var onTrack := Continues(file, start, part, begin, tail);
      while |buffer| < kHeaderSize
        invariant Valid() && At() >= start
        invariant onTrack ==> Continues(file, At(), part, begin, tail)
        invariant onTrack ==> start + |Emitted(start, part, begin)| == At() + |Emitted(At(), part, begin)|
        decreases |file| - position, if eof then 0 else 1
      {
        if eof {
          buffer := [];
          return false;
        }
        if |buffer| > 0 && onTrack {
          TrailerAhead(file, At(), part, begin, tail);
        }
        buffer := [];
        Refill();
      }
      found := true;
    }

    /** On track, the header says what the writer meant, and a fragment that is not all there is the end. */
    lemma HeaderSeen(part: seq<Byte>, begin: bool, tail: seq<Byte>, n: nat)
      requires Valid() && |buffer| >= kHeaderSize && Leftover(At()) >= kHeaderSize
      requires Continues(file, At(), part, begin, tail) && n == Fit(At(), part)
      ensures NumberOf(buffer[4]) + 256 * NumberOf(buffer[5]) == n
      ensures NumberOf(buffer[6]) == Type(begin, n == |part|)
      ensures kHeaderSize + n > |buffer| ==> eof && At() + |Emitted(At(), part, begin)| > |file|
      ensures |Emitted(At(), part, begin)| == kHeaderSize + n + Rest(At() + kHeaderSize + n, part, n)
    {
      hide Leftover, Emitted, NumberOf, Continues, Rest;
      HeaderAhead(file, At(), part, begin, tail, n);
      assert buffer[4] == file[At() + 4] && buffer[5] == file[At() + 5] && buffer[6] == file[At() + 6];
    }

    lemma FragmentSeen(part: seq<Byte>, begin: bool, tail: seq<Byte>, n: nat)
      requires Valid() && kHeaderSize + n <= |buffer| && Leftover(At()) >= kHeaderSize
      requires Continues(file, At(), part, begin, tail) && n == Fit(At(), part)
      ensures Passes(buffer, n) && buffer[kHeaderSize..kHeaderSize + n] == part[..n]
      ensures Beyond(file, At() + kHeaderSize + n, part, n, tail)
    {
      hide Leftover, Emitted, Physical, Passes, Continues, Beyond;
      FragmentAhead(file, At(), part, begin, tail, n);
      assert buffer[..kHeaderSize + n] == file[At()..At() + kHeaderSize + n];
      WrittenPasses(buffer, Type(begin, n == |part|), part[..n]);
    }

    /** Drops what is left of the buffer. */
    method Discard() returns (dropSize: nat)
      requires Valid()
      modifies this`buffer
      ensures Valid() && dropSize == old(|buffer|) && At() == old(At()) + dropSize
    {
      dropSize := |buffer|;
      buffer := [];
    }

    lemma RoomForHeader()
      requires Valid() && |buffer| >= kHeaderSize
      ensures Leftover(At()) >= kHeaderSize
    {
      hide Leftover;
    }

    /** In a file cut from a log the next call gives the next fragment, or the end if the record is not all there. */
    method ReadPhysicalRecord(ghost part: seq<Byte>, ghost begin: bool, ghost tail: seq<Byte>)
      returns (t: nat, result: seq<Byte>)
      requires Valid()
      modifies this`position, this`buffer, this`eof, this`drops
      ensures Valid() && At() >= old(At()) && (t != kEof ==> At() > old(At()))
      ensures checksum && t != kEof && t != kBadRecord ==> Genuine(t, result)
      ensures Continues(file, old(At()), part, begin, tail) ==> Followed(old(At()), part, begin, tail, t, result) && drops == old(drops)
    {
      hide Emitted, Physical, Continues, Beyond, Rest, Valid, At, Genuine;
      var found := FindHeader(part, begin, tail);
      if found {
        t, result := ParseFragment(part, begin, tail);
      } else {
        t, result := kEof, [];
      }
    }

    /** The rest of ReadPhysicalRecord, at a whole header. */
    method ParseFragment(ghost part: seq<Byte>, ghost begin: bool, ghost tail: seq<Byte>)
      returns (t: nat, result: seq<Byte>)
      requires Valid() && |buffer| >= kHeaderSize
      modifies this`buffer, this`drops
      ensures Valid() && At() > old(At())
      ensures checksum && t != kEof && t != kBadRecord ==> Genuine(t, result)
      ensures Continues(file, old(At()), part, begin, tail) ==> Followed(old(At()), part, begin, tail, t, result) && drops == old(drops)
    {
      hide Leftover, Emitted, Physical, NumberOf, ByteOf, Passes, Fit, Continues, Beyond, Rest, Valid, At;
      ghost var onTrack := Continues(file, At(), part, begin, tail);
      RoomForHeader();
      ghost var n := Fit(At(), part);
      if onTrack {
        HeaderSeen(part, begin, tail, n);
        if kHeaderSize + n <= |buffer| {
          FragmentSeen(part, begin, tail, n);
        }
      }
      var length := NumberOf(buffer[4]) + 256 * NumberOf(buffer[5]);
      t := NumberOf(buffer[6]);
      result := [];
      if kHeaderSize + length > |buffer| {
        var dropSize := Discard();
        t := kEof;
        if !eof {
          drops := drops + [Drop(dropSize, "bad record length")];
          t := kBadRecord;
        }
      } else if t == kZeroType && length == 0 {
        var _ := Discard();
        t := kBadRecord;
      } else if checksum && !Passes(buffer, length) {
        var dropSize := Discard();
        drops := drops + [Drop(dropSize, "checksum mismatch")];
        t := kBadRecord;
      } else {
        result := buffer[kHeaderSize..kHeaderSize + length];
        if checksum {
          PassesOnlyWritten(buffer, t, length);
        }
        Consume(length);
      }
    }

    /** Removes a fragment from the buffer. */
    method Consume(length: nat)
      requires Valid() && kHeaderSize + length <= |buffer|
      modifies this`buffer
      ensures Valid() && At() == old(At()) + kHeaderSize + length
      ensures kHeaderSize + length <= At() <= |file| && file[At() - kHeaderSize - length..At()] == old(buffer[..kHeaderSize + length])
    {
      hide Leftover;
      LeftoverAfter(At(), kHeaderSize + length);
      buffer := buffer[kHeaderSize + length..];
    }

    /** In a file cut from a log the next call gives the next record if it is all there, and otherwise the end. */
    method ReadRecord(ghost expected: seq<Byte>, ghost tail: seq<Byte>) returns (ok: bool, record: seq<Byte>)
      requires Valid()
      modifies this`position, this`buffer, this`eof, this`drops
      ensures Valid() && At() >= old(At()) && (ok ==> At() > old(At()))
      ensures Continues(file, old(At()), expected, true, tail) ==> drops == old(drops)
      ensures Continues(file, old(At()), expected, true, tail) ==> (ok <==> old(At()) + |Emitted(old(At()), expected, true)| <= |file|)
      ensures Continues(file, old(At()), expected, true, tail) && ok ==> record == expected && Passed(old(At()), expected, tail)
    {
      hide Emitted, Physical, Continues, Valid, At, Genuine;
      var scratch: seq<Byte> := [];
      record := [];
      var inFragmentedRecord := false;
      var done := false;
      ok := false;
      ghost var onTrack := Continues(file, At(), expected, true, tail);
      ghost var target := At() + |Emitted(At(), expected, true)|;
      ghost var part, begin := expected, true;
      while !done
        invariant Valid() && At() >= old(At())
        invariant ok ==> done && At() > old(At())
        invariant onTrack ==> drops == old(drops)
        invariant onTrack && !done ==> Continues(file, At(), part, begin, tail) && At() + |Emitted(At(), part, begin)| == target
        invariant onTrack && !done ==> scratch + part == expected && inFragmentedRecord == !begin && (begin ==> |scratch| == 0)
        invariant onTrack && done ==> (ok <==> target <= |file|)
        invariant onTrack && ok ==> record == expected && At() == target && file[target..] <= tail
        decreases |file| - At(), !done
      {
        var t, fragment := ReadPhysicalRecord(part, begin, tail);
        AtIsInFile();
        ghost var n := if |fragment| <= |part| then |fragment| else 0;
        ghost var wasBegin := begin;
        part, begin := part[n..], false;
        if t == kFullType {
          if inFragmentedRecord && |scratch| > 0 {
            drops := drops + [Drop(|scratch|, "partial record without end(1)")];
          }
          scratch := [];
          record := fragment;
          ok, done := true, true;
        } else if t == kFirstType {
          if inFragmentedRecord && |scratch| > 0 {
            drops := drops + [Drop(|scratch|, "partial record without end(2)")];
          }
          scratch := fragment;
          inFragmentedRecord := true;
        } else if t == kMiddleType {
          if !inFragmentedRecord {
            drops := drops + [Drop(|fragment|, "missing start of fragmented record(1)")];
          } else {
            scratch := scratch + fragment;
          }
        } else if t == kLastType {
          if !inFragmentedRecord {
            drops := drops + [Drop(|fragment|, "missing start of fragmented record(2)")];
          } else {
            scratch := scratch + fragment;
            record := scratch;
            ok, done := true, true;
          }
        } else if t == kEof {
          done := true;
        } else if t == kBadRecord {
          if inFragmentedRecord {
            drops := drops + [Drop(|scratch|, "error in middle of record")];
            inFragmentedRecord := false;
            scratch := [];
          }
        } else {
          drops := drops + [Drop(|fragment| + if inFragmentedRecord then |scratch| else 0, "unknown record type")];
          inFragmentedRecord := false;
          scratch := [];
        }
      }
    }

    lemma AtIsInFile()
      requires Valid()
      ensures At() <= |file|
    {}

    /** The reader has gone exactly past the record that started at q. */
    ghost predicate Passed(q: nat, record: seq<Byte>, tail: seq<Byte>)
      reads `position, `buffer
    {
      At() == q + |Emitted(q, record, true)| <= |file| && file[At()..] <= tail
    }

    /** The bytes just consumed are those of the fragment, checksum and all. */
    ghost predicate Genuine(t: nat, payload: seq<Byte>)
      reads `position, `buffer
    {
      && t < 256 && |payload| <= 0xFFFF
      && kHeaderSize + |payload| <= At() <= |file|
      && file[At() - kHeaderSize - |payload|..At()] == Physical(t, payload)
    }

    /** Having stood at q before the rest of a record, the reader has passed a fragment of it or met the end. */
    ghost predicate Followed(q: nat, part: seq<Byte>, begin: bool, tail: seq<Byte>, t: nat, result: seq<Byte>)
      reads `position, `buffer
    {
      if t == kEof then
        q + |Emitted(q, part, begin)| > |file|
      else
        && |result| <= |part| && result == part[..|result|]
        && t == Type(begin, |result| == |part|)
        && Beyond(file, At(), part, |result|, tail)
        && q + |Emitted(q, part, begin)| == At() + Rest(At(), part, |result|)
    }
  }

  /** The record after the first k, and what follows it; after the last, nothing. */
  ghost function Expected(records: seq<seq<Byte>>, k: nat): seq<Byte> {
    if k < |records| then records[k] else []
  }

  ghost function After(records: seq<seq<Byte>>, k: nat): seq<Byte> {
    if k < |records| then LogFrom(|Log(records[..k + 1])|, records[k + 1..]) else []
  }

  lemma NextRecordAhead(file: seq<Byte>, records: seq<seq<Byte>>, got: seq<seq<Byte>>)
    requires file <= Log(records) && got <= records && |Log(got)| <= |file|
    ensures Continues(file, |Log(got)|, Expected(records, |got|), true, After(records, |got|))
    ensures |got| < |records| ==> |Log(records[..|got| + 1])| == |Log(got)| + |Emitted(|Log(got)|, records[|got|], true)|
  {
    hide Emitted, LogFrom, Log;
    var k := |got|;
    var a, q := Log(got), |Log(got)|;
    if k < |records| {
      var tail := LogFrom(|Log(records[..k + 1])|, records[k + 1..]);
      LogOfOneMore(got, records[k]);
      assert got + [records[k]] == records[..k + 1];
      LogSplits(records, k + 1);
      Regroup(a, Emitted(q, records[k], true), tail);
      DropBoth(file, a, Emitted(q, records[k], true) + tail);
    } else {
      assert got == records && file[q..] == [];
    }
  }

  lemma LogSplits(records: seq<seq<Byte>>, k: nat)
    requires k <= |records|
    ensures Log(records) == Log(records[..k]) + LogFrom(|Log(records[..k])|, records[k..])
  {
    hide Emitted, LogFrom;
    LogFromAppend(0, records[..k], records[k..]);
    assert records[..k] + records[k..] == records;
  }

  /** got is what a file cut from the log of records holds whole. */
  ghost predicate Whole(got: seq<seq<Byte>>, file: seq<Byte>, records: seq<seq<Byte>>) {
    && got <= records && |Log(got)| <= |file|
    && (|got| < |records| ==> |Log(records[..|got| + 1])| > |file|)
  }

  lemma WholeIsPrefix(got: seq<seq<Byte>>, file: seq<Byte>, records: seq<seq<Byte>>)
    requires Whole(got, file, records)
    ensures got <= records
  {}

  /** The loop that recovers a log. */
  method ReadAll(file: seq<Byte>, checksum: bool, ghost records: seq<seq<Byte>>)
    returns (got: seq<seq<Byte>>, drops: seq<Drop>)
    ensures file <= Log(records) ==> Whole(got, file, records) && drops == []
  {
    hide Emitted, Log, LogFrom, Continues, Expected, After;
    var reader := new Reader(file, checksum);
    got := [];
    var more := true;
    ghost var onTrack := file <= Log(records);
    EmptyLog(records);
    assert got == records[..0];
    while more
      invariant fresh(reader) && reader.Valid() && reader.file == file
      invariant onTrack ==> reader.drops == [] && got <= records && |Log(got)| <= |file|
      invariant onTrack && more ==> reader.At() == |Log(got)|
      invariant onTrack && !more ==> Whole(got, file, records)
      decreases |file| - reader.At(), more
    {
      if onTrack {
        NextRecordAhead(file, records, got);
        ExpectedRecord(records, |got|);
      }
      var ok, record := reader.ReadRecord(Expected(records, |got|), After(records, |got|));
      reader.AtIsInFile();
      if ok {
        if onTrack {
          OneMoreWhole(file, records, got);
        }
        got := got + [record];
      }
      more := ok;
    }
    drops := reader.drops;
  }

  lemma ExpectedRecord(records: seq<seq<Byte>>, k: nat)
    ensures Expected(records, k) == if k < |records| then records[k] else []
  {}

  lemma OneMoreWhole(file: seq<Byte>, records: seq<seq<Byte>>, got: seq<seq<Byte>>)
    requires file <= Log(records) && got <= records
    requires |Log(got)| + |Emitted(|Log(got)|, Expected(records, |got|), true)| <= |file|
    ensures |got| < |records| && got + [records[|got|]] == records[..|got| + 1]
    ensures |Log(records[..|got| + 1])| == |Log(got)| + |Emitted(|Log(got)|, records[|got|], true)|
  {
    hide Emitted, LogFrom, Log;
    assert |got| == |records| ==> got == records;
    LogOfOneMore(got, records[|got|]);
    assert got + [records[|got|]] == records[..|got| + 1];
  }
}
