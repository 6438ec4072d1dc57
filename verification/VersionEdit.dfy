/** A version edit as bytes (db/version_edit.h, db/version_edit.cc). */
module VersionEdit {
  import opened Coding
  import opened Common

  datatype FileMeta = FileMeta(number: nat, size: nat, smallest: seq<Byte>, largest: seq<Byte>)

  /** One thing an edit says, in the order it is written. */
  datatype Item =
    | Comparator(name: seq<Byte>)
    | LogNumber(n: nat)
    | PrevLogNumber(n: nat)
    | NextFileNumber(n: nat)
    | LastSequence(n: nat)
    | CompactPointer(level: nat, key: seq<Byte>)
    | DeletedFile(level: nat, number: nat)
    | NewFile(level: nat, file: FileMeta)

  /** What the fields of an edit come to. Deleted files are a set of pairs kept in order. */
  datatype Edit = Edit(comparator: Option<seq<Byte>>, logNumber: Option<nat>, prevLogNumber: Option<nat>, nextFileNumber: Option<nat>,
                       lastSequence: Option<nat>, compactPointers: seq<(nat, seq<Byte>)>, deletedFiles: seq<(nat, nat)>, newFiles: seq<(nat, FileMeta)>)

  const NoEdit: Edit := Edit(None, None, None, None, None, [], [], [])

  predicate PairLess(a: (nat, nat), b: (nat, nat)) {
    a.0 < b.0 || (a.0 == b.0 && a.1 < b.1)
  }

  ghost predicate InOrder(s: seq<(nat, nat)>) {
    forall i, j | 0 <= i < j < |s| :: PairLess(s[i], s[j])
  }

  /** std::set's insert. */
  function Insert(s: seq<(nat, nat)>, x: (nat, nat)): seq<(nat, nat)>
    decreases |s|
  {
    if |s| == 0 || PairLess(x, s[0]) then [x] + s
    else if s[0] == x then s
    else [s[0]] + Insert(s[1..], x)
  }

  lemma {:induction false} InsertLast(s: seq<(nat, nat)>, x: (nat, nat))
    requires forall i | 0 <= i < |s| :: PairLess(s[i], x)
    ensures Insert(s, x) == s + [x]
    decreases |s|
  {
    if |s| > 0 {
      InsertLast(s[1..], x);
    }
  }

  // ----- the format -----

  const SMALL: nat := 0x1_0000_0000
  const BIG: nat := 0x1_0000_0000_0000_0000

  /** Levels there are, keys that are not empty, and numbers that fit. */
  predicate Writable(i: Item) {
    match i
    case Comparator(name) => |name| < SMALL
    case LogNumber(n) => n < BIG
    case PrevLogNumber(n) => n < BIG
    case NextFileNumber(n) => n < BIG
    case LastSequence(n) => n < BIG
    case CompactPointer(level, key) => level < kNumLevels && 0 < |key| < SMALL
    case DeletedFile(level, number) => level < kNumLevels && number < BIG
    case NewFile(level, f) => level < kNumLevels && f.number < BIG && f.size < BIG && 0 < |f.smallest| < SMALL && 0 < |f.largest| < SMALL
  }

  function Tag(i: Item): nat {
    match i
    case Comparator(_) => 1
    case LogNumber(_) => 2
    case NextFileNumber(_) => 3
    case LastSequence(_) => 4
    case CompactPointer(_, _) => 5
    case DeletedFile(_, _) => 6
    case NewFile(_, _) => 7
    case PrevLogNumber(_) => 9
  }

  function Body(i: Item): seq<Byte> {
    match i
    case Comparator(name) => LengthPrefixed(name)
    case LogNumber(n) => Varint(n)
    case PrevLogNumber(n) => Varint(n)
    case NextFileNumber(n) => Varint(n)
    case LastSequence(n) => Varint(n)
    case CompactPointer(level, key) => Varint(level) + LengthPrefixed(key)
    case DeletedFile(level, number) => Varint(level) + Varint(number)
    case NewFile(level, f) => Varint(level) + (Varint(f.number) + (Varint(f.size) + (LengthPrefixed(f.smallest) + LengthPrefixed(f.largest))))
  }

  function Bytes(items: seq<Item>): seq<Byte>
    decreases |items|
  {
    if |items| == 0 then [] else Varint(Tag(items[0])) + Body(items[0]) + Bytes(items[1..])
  }

  // ----- reading -----

  datatype Read<T> = Fail | Read(value: T, rest: seq<Byte>)

  function GetVarint(input: seq<Byte>, width: nat): (r: Read<nat>)
    ensures r.Read? ==> |r.rest| < |input|
  {
    match VarintFrom(input, 0, 0, 0, width)
    case Malformed => Fail
    case Decoded(v, next) => Read(v, input[next..])
  }

  function GetString(input: seq<Byte>): (r: Read<seq<Byte>>)
    ensures r.Read? ==> |r.rest| < |input|
  {
    match GetLengthPrefixedSlice(input)
    case NoSlice => Fail
    case Slice(v, rest) => Read(v, rest)
  }

  function GetLevel(input: seq<Byte>): (r: Read<nat>)
    ensures r.Read? ==> |r.rest| < |input|
  {
    var v := GetVarint(input, 32);
    if v.Read? && v.value < kNumLevels then v else Fail
  }

  function GetInternalKey(input: seq<Byte>): (r: Read<seq<Byte>>)
    ensures r.Read? ==> |r.rest| < |input|
  {
    var v := GetString(input);
    if v.Read? && |v.value| > 0 then v else Fail
  }

  function GetNumber(input: seq<Byte>, make: nat -> Item): (r: Read<Item>)
    ensures r.Read? ==> |r.rest| < |input|
  {
    var v := GetVarint(input, 64);
    if v.Fail? then Fail else Read(make(v.value), v.rest)
  }

  function GetFile(input: seq<Byte>, level: nat): (r: Read<Item>)
    ensures r.Read? ==> |r.rest| < |input|
  {
    var number := GetVarint(input, 64);
    if number.Fail? then Fail else
    var size := GetVarint(number.rest, 64);
    if size.Fail? then Fail else
    var smallest := GetInternalKey(size.rest);
    if smallest.Fail? then Fail else
    var largest := GetInternalKey(smallest.rest);
    if largest.Fail? then Fail else Read(NewFile(level, FileMeta(number.value, size.value, smallest.value, largest.value)), largest.rest)
  }

  /** What follows a tag. */
  function GetBody(input: seq<Byte>, tag: nat): (r: Read<Item>)
    ensures r.Read? ==> |r.rest| < |input|
  {
    if tag == 1 then
      var name := GetString(input);
      if name.Fail? then Fail else Read(Comparator(name.value), name.rest)
    else if tag == 2 then GetNumber(input, (n: nat) => LogNumber(n))
    else if tag == 3 then GetNumber(input, (n: nat) => NextFileNumber(n))
    else if tag == 4 then GetNumber(input, (n: nat) => LastSequence(n))
    else if tag == 9 then GetNumber(input, (n: nat) => PrevLogNumber(n))
    else if tag == 5 || tag == 6 || tag == 7 then
      var level := GetLevel(input);
      if level.Fail? then Fail
      else if tag == 5 then
        var key := GetInternalKey(level.rest);
        if key.Fail? then Fail else Read(CompactPointer(level.value, key.value), key.rest)
      else if tag == 6 then
        var number := GetVarint(level.rest, 64);
        if number.Fail? then Fail else Read(DeletedFile(level.value, number.value), number.rest)
      else GetFile(level.rest, level.value)
    else Fail
  }

  // ----- from items to the fields and back -----

  function Says(e: Edit, i: Item): Edit {
    match i
    case Comparator(name) => e.(comparator := Some(name))
    case LogNumber(n) => e.(logNumber := Some(n))
    case PrevLogNumber(n) => e.(prevLogNumber := Some(n))
    case NextFileNumber(n) => e.(nextFileNumber := Some(n))
    case LastSequence(n) => e.(lastSequence := Some(n))
    case CompactPointer(level, key) => e.(compactPointers := e.compactPointers + [(level, key)])
    case DeletedFile(level, number) => e.(deletedFiles := Insert(e.deletedFiles, (level, number)))
    case NewFile(level, f) => e.(newFiles := e.newFiles + [(level, f)])
  }

  function SaysAll(e: Edit, items: seq<Item>): Edit
    decreases |items|
  {
    if |items| == 0 then e else SaysAll(Says(e, items[0]), items[1..])
  }

  lemma {:induction false} SaysBoth(e: Edit, a: seq<Item>, b: seq<Item>)
    ensures SaysAll(e, a + b) == SaysAll(SaysAll(e, a), b)
    decreases |a|
  {
    hide Says;
    if |a| == 0 {
      assert a + b == b;
    } else {
      assert (a + b)[1..] == a[1..] + b;
      SaysBoth(Says(e, a[0]), a[1..], b);
    }
  }

  function Maybe(o: Option<nat>, make: nat -> Item): seq<Item> {
    if o.Some? then [make(o.value)] else []
  }

  function Scalars(e: Edit): seq<Item> {
    (if e.comparator.Some? then [Comparator(e.comparator.value)] else [])
    + Maybe(e.logNumber, (n: nat) => LogNumber(n))
    + Maybe(e.prevLogNumber, (n: nat) => PrevLogNumber(n))
    + Maybe(e.nextFileNumber, (n: nat) => NextFileNumber(n))
    + Maybe(e.lastSequence, (n: nat) => LastSequence(n))
  }

  function Pointers(ps: seq<(nat, seq<Byte>)>): (r: seq<Item>)
    ensures |r| == |ps|
  {
    seq(|ps|, i requires 0 <= i < |ps| => CompactPointer(ps[i].0, ps[i].1))
  }

  function Deletions(ds: seq<(nat, nat)>): (r: seq<Item>)
    ensures |r| == |ds|
  {
    seq(|ds|, i requires 0 <= i < |ds| => DeletedFile(ds[i].0, ds[i].1))
  }

  function Additions(fs: seq<(nat, FileMeta)>): (r: seq<Item>)
    ensures |r| == |fs|
  {
    seq(|fs|, i requires 0 <= i < |fs| => NewFile(fs[i].0, fs[i].1))
  }

  /** Everything an edit says, in the order EncodeTo writes it. */
  function Items(e: Edit): seq<Item> {
    Scalars(e) + Pointers(e.compactPointers) + Deletions(e.deletedFiles) + Additions(e.newFiles)
  }

  /** Clear leaves the compaction pointers as they are. */
  function Cleared(e: Edit): Edit {
    NoEdit.(compactPointers := e.compactPointers)
  }

  lemma {:induction false} SaysPointers(e: Edit, ps: seq<(nat, seq<Byte>)>)
    ensures SaysAll(e, Pointers(ps)) == e.(compactPointers := e.compactPointers + ps)
    decreases |ps|
  {
    if |ps| == 0 {
      assert e.compactPointers + ps == e.compactPointers;
    } else {
      assert Pointers(ps)[1..] == Pointers(ps[1..]);
      SaysPointers(Says(e, Pointers(ps)[0]), ps[1..]);
      assert e.compactPointers + [ps[0]] + ps[1..] == e.compactPointers + ps;
    }
  }

  lemma {:induction false} SaysDeletions(e: Edit, ds: seq<(nat, nat)>)
    requires InOrder(e.deletedFiles + ds)
    ensures SaysAll(e, Deletions(ds)) == e.(deletedFiles := e.deletedFiles + ds)
    decreases |ds|
  {
    if |ds| == 0 {
      assert e.deletedFiles + ds == e.deletedFiles;
    } else {
      var all := e.deletedFiles + ds;
      assert Deletions(ds)[1..] == Deletions(ds[1..]);
      forall i | 0 <= i < |e.deletedFiles|
        ensures PairLess(e.deletedFiles[i], ds[0])
      {
        assert PairLess(all[i], all[|e.deletedFiles|]);
      }
      InsertLast(e.deletedFiles, ds[0]);
      assert e.deletedFiles + [ds[0]] + ds[1..] == all;
      SaysDeletions(Says(e, Deletions(ds)[0]), ds[1..]);
    }
  }

  lemma {:induction false} SaysAdditions(e: Edit, fs: seq<(nat, FileMeta)>)
    ensures SaysAll(e, Additions(fs)) == e.(newFiles := e.newFiles + fs)
    decreases |fs|
  {
    if |fs| == 0 {
      assert e.newFiles + fs == e.newFiles;
    } else {
      assert Additions(fs)[1..] == Additions(fs[1..]);
      SaysAdditions(Says(e, Additions(fs)[0]), fs[1..]);
      assert e.newFiles + [fs[0]] + fs[1..] == e.newFiles + fs;
    }
  }

  lemma SaysOne(e: Edit, i: Item)
    ensures SaysAll(e, [i]) == Says(e, i) && SaysAll(e, []) == e
  {
    hide Says;
    assert [i][1..] == [];
  }

  lemma SaysScalars(d: Edit, e: Edit)
    requires d == Cleared(d)
    ensures SaysAll(d, Scalars(e)) ==
      e.(compactPointers := d.compactPointers, deletedFiles := [], newFiles := [])
  {
    hide SaysAll;
    var a := if e.comparator.Some? then [Comparator(e.comparator.value)] else [];
    var b := Maybe(e.logNumber, (n: nat) => LogNumber(n));
    var c := Maybe(e.prevLogNumber, (n: nat) => PrevLogNumber(n));
    var f := Maybe(e.nextFileNumber, (n: nat) => NextFileNumber(n));
    var g := Maybe(e.lastSequence, (n: nat) => LastSequence(n));
    SaysBoth(d, a + b + c + f, g);
    SaysBoth(d, a + b + c, f);
    SaysBoth(d, a + b, c);
    SaysBoth(d, a, b);
    SaysMaybe(d, a);
    var d1 := SaysAll(d, a);
    SaysMaybe(d1, b);
    var d2 := SaysAll(d1, b);
    SaysMaybe(d2, c);
    var d3 := SaysAll(d2, c);
    SaysMaybe(d3, f);
    var d4 := SaysAll(d3, f);
    SaysMaybe(d4, g);
  }

  lemma SaysMaybe(e: Edit, items: seq<Item>)
    requires |items| <= 1
    ensures SaysAll(e, items) == if |items| == 0 then e else Says(e, items[0])
  {
    hide Says;
    if |items| == 1 {
      SaysOne(e, items[0]);
      assert items == [items[0]];
    }
  }

  /** What an edit says rebuilds it, its pointers coming after those that were there. */
  lemma ItemsRebuild(d: Edit, e: Edit)
    requires InOrder(e.deletedFiles)
    ensures SaysAll(Cleared(d), Items(e)) == e.(compactPointers := d.compactPointers + e.compactPointers)
  {
    hide SaysAll, Scalars, Pointers, Deletions, Additions;
    var s, p, x := Scalars(e), Pointers(e.compactPointers), Deletions(e.deletedFiles);
    SaysBoth(Cleared(d), s + p + x, Additions(e.newFiles));
    SaysBoth(Cleared(d), s + p, x);
    SaysBoth(Cleared(d), s, p);
    SaysScalars(Cleared(d), e);
    SaysPointers(SaysAll(Cleared(d), s), e.compactPointers);
    assert [] + e.deletedFiles == e.deletedFiles;
    SaysDeletions(SaysAll(Cleared(d), s + p), e.deletedFiles);
    SaysAdditions(SaysAll(Cleared(d), s + p + x), e.newFiles);
    assert [] + e.newFiles == e.newFiles;
  }

  // ----- what the fields hold in the end -----

  /** Item n is the last that says this kind of thing. */
  ghost predicate LastWord(items: seq<Item>, n: nat, tag: nat) {
    n < |items| && Tag(items[n]) == tag && forall m :: n < m < |items| ==> Tag(items[m]) != tag
  }

  ghost predicate Unsaid(items: seq<Item>, tag: nat) {
    forall m :: 0 <= m < |items| ==> Tag(items[m]) != tag
  }

  /** A number is that of the last item that says it, or what it was. */
  ghost predicate NumberSaid(was: Option<nat>, items: seq<Item>, tag: nat, now: Option<nat>) {
    && (Unsaid(items, tag) ==> now == was)
    && (forall n: nat :: LastWord(items, n, tag) && tag in {2, 3, 4, 9} ==> now == Some(items[n].n))
  }

  /** The pointers and the new files that items say, in their order. */
  function SaidPointers(items: seq<Item>): seq<(nat, seq<Byte>)>
    decreases |items|
  {
    if |items| == 0 then []
    else
      var i := items[|items| - 1];
      SaidPointers(items[..|items| - 1]) + if i.CompactPointer? then [(i.level, i.key)] else []
  }

  function SaidFiles(items: seq<Item>): seq<(nat, FileMeta)>
    decreases |items|
  {
    if |items| == 0 then []
    else
      var i := items[|items| - 1];
      SaidFiles(items[..|items| - 1]) + if i.NewFile? then [(i.level, i.file)] else []
  }

  ghost predicate AllSaid(was: Edit, items: seq<Item>, now: Edit) {
    && (Unsaid(items, 1) ==> now.comparator == was.comparator)
    && (forall n: nat :: LastWord(items, n, 1) ==> now.comparator == Some(items[n].name))
    && NumberSaid(was.logNumber, items, 2, now.logNumber)
    && NumberSaid(was.nextFileNumber, items, 3, now.nextFileNumber)
    && NumberSaid(was.lastSequence, items, 4, now.lastSequence)
    && NumberSaid(was.prevLogNumber, items, 9, now.prevLogNumber)
    && now.compactPointers == was.compactPointers + SaidPointers(items)
    && now.newFiles == was.newFiles + SaidFiles(items)
    && (forall x :: x in now.deletedFiles <==> x in was.deletedFiles || DeletedFile(x.0, x.1) in items)
  }

  lemma {:induction false} InsertHolds(s: seq<(nat, nat)>, x: (nat, nat))
    ensures forall y :: y in Insert(s, x) <==> y in s || y == x
    decreases |s|
  {
    if |s| > 0 && !PairLess(x, s[0]) && s[0] != x {
      InsertHolds(s[1..], x);
      assert s == [s[0]] + s[1..];
    }
  }

  /** Each field of an edit holds what the items say of it, the last word counting where only one can. */
  lemma {:induction false} FieldsHold(e: Edit, items: seq<Item>)
    ensures AllSaid(e, items, SaysAll(e, items))
    decreases |items|
  {
    hide SaysAll, AllSaid;
    if |items| == 0 {
      SaysOne(e, LogNumber(0));
      NothingSaid(e);
      assert items == [];
    } else {
      var init, i := items[..|items| - 1], items[|items| - 1];
      FieldsHold(e, init);
      assert init + [i] == items;
      SaysBoth(e, init, [i]);
      SaysOne(SaysAll(e, init), i);
      OneMoreSaid(e, init, SaysAll(e, init), i);
    }
  }

  lemma NothingSaid(e: Edit)
    ensures AllSaid(e, [], e)
  {
    assert e.compactPointers + [] == e.compactPointers && e.newFiles + [] == e.newFiles;
  }

  lemma OneMoreSaid(was: Edit, items: seq<Item>, now: Edit, i: Item)
    requires AllSaid(was, items, now)
    ensures AllSaid(was, items + [i], Says(now, i))
  {
    hide NumberSaid, Insert, Tag;
    var all := items + [i];
    assert all[..|all| - 1] == items;
    OneMoreNumber(was.logNumber, items, 2, now.logNumber, i);
    OneMoreNumber(was.nextFileNumber, items, 3, now.nextFileNumber, i);
    OneMoreNumber(was.lastSequence, items, 4, now.lastSequence, i);
    OneMoreNumber(was.prevLogNumber, items, 9, now.prevLogNumber, i);
    TagNumbers(i);
    OneMoreName(was.comparator, items, now.comparator, i);
    assert now.compactPointers + [] == now.compactPointers && now.newFiles + [] == now.newFiles;
    assert forall x :: x in all <==> x in items || x == i;
    if i.DeletedFile? {
      InsertHolds(now.deletedFiles, (i.level, i.number));
    }
  }

  lemma OneMoreNumber(was: Option<nat>, items: seq<Item>, tag: nat, now: Option<nat>, i: Item)
    requires NumberSaid(was, items, tag, now) && tag in {2, 3, 4, 9}
    ensures NumberSaid(was, items + [i], tag, if Tag(i) == tag then Some(i.n) else now)
  {
    var all := items + [i];
    assert Unsaid(all, tag) ==> Tag(all[|items|]) != tag;
    forall n: nat | LastWord(all, n, tag) ensures if Tag(i) == tag then n == |items| else LastWord(items, n, tag) {
      assert all[|items|] == i;
      assert forall m :: 0 <= m < |items| ==> all[m] == items[m];
    }
    if Unsaid(all, tag) {
      assert forall m :: 0 <= m < |items| ==> all[m] == items[m];
    }
  }

  lemma OneMoreName(was: Option<seq<Byte>>, items: seq<Item>, now: Option<seq<Byte>>, i: Item)
    requires Unsaid(items, 1) ==> now == was
    requires forall n: nat :: LastWord(items, n, 1) ==> now == Some(items[n].name)
    ensures var all, after := items + [i], if i.Comparator? then Some(i.name) else now;
      && (Unsaid(all, 1) ==> after == was)
      && (forall n: nat :: LastWord(all, n, 1) ==> after == Some(all[n].name))
  {
    var all := items + [i];
    forall n: nat | LastWord(all, n, 1) ensures if Tag(i) == 1 then n == |items| else LastWord(items, n, 1) {
      assert all[|items|] == i;
      assert forall m :: 0 <= m < |items| ==> all[m] == items[m];
    }
    if Unsaid(all, 1) {
      assert all[|items|] == i;
      assert forall m :: 0 <= m < |items| ==> all[m] == items[m];
    }
  }

  /** The numbers of the format, as it is written and as it is read. */
  lemma TagNumbers(i: Item)
    ensures i.Comparator? <==> Tag(i) == 1
    ensures i.LogNumber? <==> Tag(i) == 2
    ensures i.NextFileNumber? <==> Tag(i) == 3
    ensures i.LastSequence? <==> Tag(i) == 4
    ensures i.CompactPointer? <==> Tag(i) == 5
    ensures i.DeletedFile? <==> Tag(i) == 6
    ensures i.NewFile? <==> Tag(i) == 7
    ensures i.PrevLogNumber? <==> Tag(i) == 9
  {}

  // ----- the whole record -----

  datatype Parsed = Parsed(items: seq<Item>, ok: bool)

  /** Items up to the end or the first thing malformed; a tag that cannot be read ends the record well only if nothing is left. */
  function Parse(input: seq<Byte>): Parsed
    decreases |input|
  {
    var tag := GetVarint(input, 32);
    if tag.Fail? then Parsed([], |input| == 0)
    else
      var body := GetBody(tag.rest, tag.value);
      if body.Fail? then Parsed([], false)
      else
        var more := Parse(body.rest);
        Parsed([body.value] + more.items, more.ok)
  }

  /** A body is only read under the tag of its kind, and what is read could have been written. */
  lemma BodyIsWritable(input: seq<Byte>, tag: nat)
    ensures var r := GetBody(input, tag); r.Read? ==> Tag(r.value) == tag && Writable(r.value)
  {
    hide GetVarint, GetString;
    forall s: seq<Byte> ensures GetVarint(s, 32).Read? ==> GetVarint(s, 32).value < SMALL {
      VarintFits(s, 32);
    }
    forall s: seq<Byte> ensures GetVarint(s, 64).Read? ==> GetVarint(s, 64).value < BIG {
      VarintFits(s, 64);
    }
    forall s: seq<Byte> ensures GetString(s).Read? ==> |GetString(s).value| < SMALL {
      StringFits(s);
    }
  }

  lemma VarintFits(s: seq<Byte>, width: nat)
    requires width == 32 || width == 64
    ensures var r := GetVarint(s, width); r.Read? ==> r.value < if width == 32 then SMALL else BIG
  {
    hide VarintFrom;
    Power32();
    VarintBounded(s, 0, 0, 0, width);
  }

  lemma StringFits(s: seq<Byte>)
    ensures var r := GetString(s); r.Read? ==> |r.value| < SMALL
  {
    hide VarintFrom;
    Power32();
    VarintBounded(s, 0, 0, 0, 32);
  }

  /** Whatever is decoded could have been encoded: levels there are, keys that are not empty, numbers that fit. */
  lemma {:induction false} ParsedIsWritable(input: seq<Byte>)
    ensures forall i | i in Parse(input).items :: Writable(i)
    decreases |input|
  {
    hide GetVarint, GetBody, Writable;
    var tag := GetVarint(input, 32);
    ParseStep(input);
    if tag.Read? {
      var body := GetBody(tag.rest, tag.value);
      if body.Read? {
        BodyIsWritable(tag.rest, tag.value);
        ParsedIsWritable(body.rest);
      }
    }
  }

  lemma VarintBack(v: nat, rest: seq<Byte>, width: nat)
    requires width == 32 || width == 64
    requires v < if width == 32 then SMALL else BIG
    ensures GetVarint(Varint(v) + rest, width) == Read(v, rest)
  {
    hide Varint, VarintFrom;
    var s := Varint(v) + rest;
    assert s[0..|Varint(v)|] == Varint(v);
    VarintDecodes(v, s, 0, width);
  }

  lemma StringBack(v: seq<Byte>, rest: seq<Byte>)
    requires |v| < SMALL
    ensures GetString(LengthPrefixed(v) + rest) == Read(v, rest)
  {
    hide LengthPrefixed, GetLengthPrefixedSlice;
    SliceRoundTrip(v, rest);
  }

  lemma BodyBack(i: Item, rest: seq<Byte>)
    requires Writable(i)
    ensures GetBody(Body(i) + rest, Tag(i)) == Read(i, rest)
  {
    hide Varint, LengthPrefixed, GetVarint, GetString;
    match i {
      case Comparator(name) => StringBack(name, rest);
      case LogNumber(n) => VarintBack(n, rest, 64);
      case PrevLogNumber(n) => VarintBack(n, rest, 64);
      case NextFileNumber(n) => VarintBack(n, rest, 64);
      case LastSequence(n) => VarintBack(n, rest, 64);
      case CompactPointer(level, key) =>
        assert Body(i) + rest == Varint(level) + (LengthPrefixed(key) + rest);
        VarintBack(level, LengthPrefixed(key) + rest, 32);
        StringBack(key, rest);
      case DeletedFile(level, number) =>
        assert Body(i) + rest == Varint(level) + (Varint(number) + rest);
        VarintBack(level, Varint(number) + rest, 32);
        VarintBack(number, rest, 64);
      case NewFile(level, f) =>
        FileBack(level, f, rest);
    }
  }

  lemma FileBack(level: nat, f: FileMeta, rest: seq<Byte>)
    requires Writable(NewFile(level, f))
    ensures GetBody(Body(NewFile(level, f)) + rest, 7) == Read(NewFile(level, f), rest)
  {
    hide Varint, LengthPrefixed, GetVarint, GetString;
    var r4 := LengthPrefixed(f.largest) + rest;
    var r3 := LengthPrefixed(f.smallest) + r4;
    var r2 := Varint(f.size) + r3;
    var r1 := Varint(f.number) + r2;
    Regroup(Varint(level), Varint(f.number), Varint(f.size), LengthPrefixed(f.smallest), LengthPrefixed(f.largest), rest);
    VarintBack(level, r1, 32);
    VarintBack(f.number, r2, 64);
    VarintBack(f.size, r3, 64);
    StringBack(f.smallest, r4);
    StringBack(f.largest, rest);
  }

  lemma Regroup(a: seq<Byte>, b: seq<Byte>, c: seq<Byte>, d: seq<Byte>, e: seq<Byte>, f: seq<Byte>)
    ensures a + (b + (c + (d + e))) + f == a + (b + (c + (d + (e + f))))
  {}

  /** What is written is read. */
  lemma {:induction false} BytesParse(items: seq<Item>)
    requires forall i | i in items :: Writable(i)
    ensures Parse(Bytes(items)) == Parsed(items, true)
    decreases |items|
  {
    hide Writable, Body, GetBody, Varint, VarintFrom;
    if |items| > 0 {
      var i, rest := items[0], Bytes(items[1..]);
      BytesParse(items[1..]);
      assert Varint(Tag(i)) + Body(i) + rest == Varint(Tag(i)) + (Body(i) + rest);
      VarintBack(Tag(i), Body(i) + rest, 32);
      BodyBack(i, rest);
      assert [i] + items[1..] == items;
    } else {
      NothingToRead();
    }
  }

  lemma NothingToRead()
    ensures GetVarint([], 32) == Fail
  {}

  class VersionEdit {
    var edit: Edit

    constructor ()
      ensures edit == NoEdit
    {
      edit := NoEdit;
    }

    method Clear()
      modifies this
      ensures edit == Cleared(old(edit))
    {
      edit := edit.(comparator := None, logNumber := None, prevLogNumber := None, nextFileNumber := None, lastSequence := None,
                    deletedFiles := [], newFiles := []);
    }

    method EncodeTo() returns (dst: seq<Byte>)
      ensures dst == Bytes(Items(edit))
    {
      hide Bytes;
      var items := Items(edit);
      NoItems(items);
      dst := [];
      for i := 0 to |items|
        invariant dst == Bytes(items[..i])
      {
        assert items[..i + 1] == items[..i] + [items[i]];
        BytesAppend(items[..i], items[i]);
        dst := dst + (Varint(Tag(items[i])) + Body(items[i]));
      }
      assert items[..|items|] == items;
    }

    method DecodeFrom(src: seq<Byte>) returns (ok: bool)
      modifies this
      ensures edit == SaysAll(Cleared(old(edit)), Parse(src).items) && ok == Parse(src).ok
      ensures AllSaid(Cleared(old(edit)), Parse(src).items, edit)
      ensures forall i | i in Parse(src).items :: Writable(i)
    {
      hide Parse, SaysAll, GetBody, Says, GetVarint, AllSaid, Writable;
      ParsedIsWritable(src);
      FieldsHold(Cleared(edit), Parse(src).items);
      Clear();
      var input := src;
      ghost var done: seq<Item> := [];
      SaysOne(edit, LogNumber(0));
      ghost var start := edit;
      while true
        invariant edit == SaysAll(start, done) && start == Cleared(old(edit))
        invariant Parse(src) == Parsed(done + Parse(input).items, Parse(input).ok)
        decreases |input|
      {
        ParseStep(input);
        var tag := GetVarint(input, 32);
        if tag.Fail? {
          assert done + [] == done;
          return |input| == 0;
        }
        var body := GetBody(tag.rest, tag.value);
        if body.Fail? {
          assert done + [] == done;
          return false;
        }
        SaysBoth(start, done, [body.value]);
        SaysOne(edit, body.value);
        assert done + ([body.value] + Parse(body.rest).items) == done + [body.value] + Parse(body.rest).items;
        edit := Says(edit, body.value);
        done := done + [body.value];
        input := body.rest;
      }
    }
  }

  lemma ParseStep(input: seq<Byte>)
    ensures var tag := GetVarint(input, 32);
      if tag.Fail? then Parse(input) == Parsed([], |input| == 0)
      else
        var body := GetBody(tag.rest, tag.value);
        if body.Fail? then Parse(input) == Parsed([], false)
        else Parse(input) == Parsed([body.value] + Parse(body.rest).items, Parse(body.rest).ok)
  {
    hide GetVarint, GetBody;
  }

  lemma NoItems(items: seq<Item>)
    ensures Bytes(items[..0]) == []
  {}

  lemma {:induction false} BytesAppend(items: seq<Item>, i: Item)
    ensures Bytes(items + [i]) == Bytes(items) + (Varint(Tag(i)) + Body(i))
    decreases |items|
  {
    hide Varint, Tag, Body;
    if |items| == 0 {
      assert items + [i] == [i] && [i][1..] == [];
    } else {
      assert (items + [i])[1..] == items[1..] + [i];
      BytesAppend(items[1..], i);
    }
  }

  /** Decoding what was encoded gives the edit back, into a used edit as into a fresh one, but for the compaction
      pointers: those of the used one stay in front, so all comes back just when it had none. */
  method EncodeThenDecode(e: VersionEdit, d: VersionEdit) returns (ok: bool)
    requires InOrder(e.edit.deletedFiles) && forall i | i in Items(e.edit) :: Writable(i)
    requires d != e
    modifies d
    ensures ok && d.edit == e.edit.(compactPointers := old(d.edit).compactPointers + e.edit.compactPointers)
    ensures d.edit == e.edit <==> old(d.edit).compactPointers == []
  {
    hide Items, Parse, Bytes, SaysAll, Writable, InOrder;
    ghost var was := d.edit;
    BytesParse(Items(e.edit));
    ItemsRebuild(was, e.edit);
    var bytes := e.EncodeTo();
    ok := d.DecodeFrom(bytes);
    PrefixIsNothing(was.compactPointers, e.edit.compactPointers);
  }

  lemma PrefixIsNothing<T>(a: seq<T>, b: seq<T>)
    ensures a + b == b <==> a == []
  {
    if a + b == b {
      assert |a + b| == |a| + |b|;
    } else {
      assert a == [] ==> a + b == b;
    }
  }
}
