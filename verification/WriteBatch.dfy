/** Write batches as bytes, and their replay from a log (db/write_batch.cc, and RecoverLogFile of db/db_impl.cc). */
module WriteBatch {
  import opened Coding
  import opened Common
  import LogFormat

  datatype Op = Put(key: seq<Byte>, value: seq<Byte>) | Delete(key: seq<Byte>)

  datatype Status = OK | TooSmall | BadPut | BadDelete | UnknownTag | WrongCount

  const kHeader: nat := 12
  const kTypeDeletion: nat := 0
  const kTypeValue: nat := 1

  // ----- the format -----

  /** Lengths a varint32 can hold. */
  predicate Small(op: Op) {
    |op.key| < 0x1_0000_0000 && (op.Put? ==> |op.value| < 0x1_0000_0000)
  }

  function Record(op: Op): (s: seq<Byte>)
    ensures |s| > 0
  {
    match op
    case Put(key, value) => [ByteOf(kTypeValue)] + (LengthPrefixed(key) + LengthPrefixed(value))
    case Delete(key) => [ByteOf(kTypeDeletion)] + LengthPrefixed(key)
  }

  function Records(ops: seq<Op>): seq<Byte>
    decreases |ops|
  {
    if |ops| == 0 then [] else Record(ops[0]) + Records(ops[1..])
  }

  function Rep(sequence: nat, ops: seq<Op>): seq<Byte> {
    Fixed(8, sequence) + Fixed(4, |ops|) + Records(ops)
  }

  lemma {:induction false} RecordsAppend(a: seq<Op>, b: seq<Op>)
    ensures Records(a + b) == Records(a) + Records(b)
    decreases |a|
  {
    hide Record;
    if |a| == 0 {
      assert a + b == b;
    } else {
      assert (a + b)[1..] == a[1..] + b;
      RecordsAppend(a[1..], b);
    }
  }

  // ----- reading -----

  datatype Parsed = Parsed(ops: seq<Op>, status: Status)

  function Before(op: Op, rest: Parsed): Parsed {
    Parsed([op] + rest.ops, rest.status)
  }

  /** The operations met before the end or the first thing malformed. */
  function Parse(input: seq<Byte>): Parsed
    decreases |input|
  {
    if |input| == 0 then Parsed([], OK)
    else if NumberOf(input[0]) == kTypeValue then
      match GetLengthPrefixedSlice(input[1..])
      case NoSlice => Parsed([], BadPut)
      case Slice(key, rest) =>
        (match GetLengthPrefixedSlice(rest)
         case NoSlice => Parsed([], BadPut)
         case Slice(value, rest2) => Before(Put(key, value), Parse(rest2)))
    else if NumberOf(input[0]) == kTypeDeletion then
      match GetLengthPrefixedSlice(input[1..])
      case NoSlice => Parsed([], BadDelete)
      case Slice(key, rest) => Before(Delete(key), Parse(rest))
    else Parsed([], UnknownTag)
  }

  /** The operations are at the front of the input, one behind the other, and rest is what follows them. */
  predicate Reads(input: seq<Byte>, ops: seq<Op>, rest: seq<Byte>)
    decreases |ops|
  {
    if |ops| == 0 then rest == input
    else
      |input| > 0 &&
      var first := GetLengthPrefixedSlice(input[1..]);
      first.Slice? && first.value == ops[0].key &&
      match ops[0]
      case Delete(_) => NumberOf(input[0]) == 0 && Reads(first.rest, ops[1..], rest)
      case Put(_, value) =>
        NumberOf(input[0]) == 1 &&
        var second := GetLengthPrefixedSlice(first.rest);
        second.Slice? && second.value == value && Reads(second.rest, ops[1..], rest)
  }

  /** What is wrong with the input where it cannot be read on. */
  predicate Stuck(rest: seq<Byte>, status: Status) {
    match status
    case OK => rest == []
    case UnknownTag => |rest| > 0 && NumberOf(rest[0]) > 1
    case BadDelete => |rest| > 0 && NumberOf(rest[0]) == 0 && GetLengthPrefixedSlice(rest[1..]).NoSlice?
    case BadPut =>
      |rest| > 0 && NumberOf(rest[0]) == 1 &&
      var first := GetLengthPrefixedSlice(rest[1..]);
      first.NoSlice? || GetLengthPrefixedSlice(first.rest).NoSlice?
    case _ => false
  }

  /** Any input is read as far as it can be, and the status says why not further. */
  lemma {:induction false} ParseReads(input: seq<Byte>) returns (rest: seq<Byte>)
    ensures Reads(input, Parse(input).ops, rest) && Stuck(rest, Parse(input).status)
    decreases |input|
  {
    hide GetLengthPrefixedSlice, NumberOf;
    rest := input;
    if |input| > 0 {
      ParseStep(input);
      var first := GetLengthPrefixedSlice(input[1..]);
      if NumberOf(input[0]) == kTypeValue && first.Slice? {
        var second := GetLengthPrefixedSlice(first.rest);
        if second.Slice? {
          rest := ParseReads(second.rest);
        }
      } else if NumberOf(input[0]) == kTypeDeletion && first.Slice? {
        rest := ParseReads(first.rest);
      }
    }
  }

  /** Operations written are the operations read, whatever follows them. */
  lemma {:induction false} ParseOfRecords(ops: seq<Op>, rest: seq<Byte>)
    requires forall op | op in ops :: Small(op)
    ensures Parse(Records(ops) + rest) == Parsed(ops + Parse(rest).ops, Parse(rest).status)
    decreases |ops|
  {
    hide Record, Parse;
    if |ops| == 0 {
      assert Records(ops) + rest == rest && ops + Parse(rest).ops == Parse(rest).ops;
    } else {
      ParseOfRecords(ops[1..], rest);
      assert Records(ops) + rest == Record(ops[0]) + (Records(ops[1..]) + rest);
      assert ops[0] in ops;
      ParseOne(ops[0], Records(ops[1..]) + rest);
      assert [ops[0]] + (ops[1..] + Parse(rest).ops) == ops + Parse(rest).ops;
    }
  }

  lemma ParseOne(op: Op, rest: seq<Byte>)
    requires Small(op)
    ensures Parse(Record(op) + rest) == Before(op, Parse(rest))
  {
    hide ByteOf, NumberOf, LengthPrefixed, GetLengthPrefixedSlice;
    var input := Record(op) + rest;
    ByteRoundTrip(kTypeValue);
    ByteRoundTrip(kTypeDeletion);
    match op {
      case Put(key, value) =>
        assert input[1..] == LengthPrefixed(key) + (LengthPrefixed(value) + rest);
        SliceRoundTrip(key, LengthPrefixed(value) + rest);
        SliceRoundTrip(value, rest);
      case Delete(key) =>
        assert input[1..] == LengthPrefixed(key) + rest;
        SliceRoundTrip(key, rest);
    }
  }

  /** Iterate: hands the operations to the handler until the end or the first thing malformed. */
  method Iterate(rep: seq<Byte>) returns (handled: seq<Op>, status: Status)
    ensures |rep| < kHeader ==> handled == [] && status == TooSmall
    ensures |rep| >= kHeader ==> handled == Parse(rep[kHeader..]).ops
    ensures |rep| >= kHeader && Parse(rep[kHeader..]).status != OK ==> status == Parse(rep[kHeader..]).status
    ensures |rep| >= kHeader && Parse(rep[kHeader..]).status == OK ==> status == if |handled| == FixedValue(rep[8..12]) then OK else WrongCount
  {
    hide NumberOf, GetLengthPrefixedSlice, FixedValue, Parse, Before;
    handled := [];
    if |rep| < kHeader {
      return [], TooSmall;
    }
    var input := rep[kHeader..];
    var found := 0;
    while |input| > 0
      invariant found == |handled|
      invariant Parse(rep[kHeader..]) == After(handled, Parse(input))
      decreases |input|
    {
      ParseStep(input);
      found := found + 1;
      var tag := NumberOf(input[0]);
      if tag == kTypeValue {
        var first := GetLengthPrefixedSlice(input[1..]);
        if first.NoSlice? {
          return handled, BadPut;
        }
        var second := GetLengthPrefixedSlice(first.rest);
        if second.NoSlice? {
          return handled, BadPut;
        }
        AfterOne(handled, Put(first.value, second.value), Parse(second.rest));
        handled := handled + [Put(first.value, second.value)];
        input := second.rest;
      } else if tag == kTypeDeletion {
        var first := GetLengthPrefixedSlice(input[1..]);
        if first.NoSlice? {
          return handled, BadDelete;
        }
        AfterOne(handled, Delete(first.value), Parse(first.rest));
        handled := handled + [Delete(first.value)];
        input := first.rest;
      } else {
        return handled, UnknownTag;
      }
    }
    ParseEnd(input);
    status := if found != FixedValue(rep[8..12]) then WrongCount else OK;
  }

  function After(done: seq<Op>, p: Parsed): Parsed {
    Parsed(done + p.ops, p.status)
  }

  lemma AfterOne(done: seq<Op>, op: Op, p: Parsed)
    ensures After(done, Before(op, p)) == After(done + [op], p)
  {
    assert done + ([op] + p.ops) == (done + [op]) + p.ops;
  }

  lemma ParseEnd(input: seq<Byte>)
    requires |input| == 0
    ensures Parse(input) == Parsed([], OK)
  {}

  lemma ParseStep(input: seq<Byte>)
    requires |input| > 0
    ensures var first := GetLengthPrefixedSlice(input[1..]); var tag := NumberOf(input[0]);
      if tag == kTypeValue then
        if first.NoSlice? then Parse(input) == Parsed([], BadPut)
        else
          var second := GetLengthPrefixedSlice(first.rest);
          Parse(input) == if second.NoSlice? then Parsed([], BadPut) else Before(Put(first.value, second.value), Parse(second.rest))
      else if tag == kTypeDeletion then
        Parse(input) == if first.NoSlice? then Parsed([], BadDelete) else Before(Delete(first.value), Parse(first.rest))
      else Parse(input) == Parsed([], UnknownTag)
  {
    hide GetLengthPrefixedSlice, NumberOf;
  }

  // ----- building -----

  class WriteBatch {
    var rep: seq<Byte>
    ghost var sequence: nat
    ghost var ops: seq<Op>

    ghost predicate Valid()
      reads this
    {
      && rep == Rep(sequence, ops)
      && sequence < 0x1_0000_0000_0000_0000 && |ops| < 0x1_0000_0000
      && forall op | op in ops :: Small(op)
    }

    constructor ()
      ensures Valid() && ops == [] && sequence == 0
    {
      rep := Fixed(8, 0) + Fixed(4, 0);
      sequence, ops := 0, [];
    }

    lemma Parts()
      requires Valid()
      ensures |rep| >= kHeader && rep[..8] == Fixed(8, sequence) && rep[8..12] == Fixed(4, |ops|) && rep[kHeader..] == Records(ops)
      ensures FixedValue(rep[..8]) == sequence && FixedValue(rep[8..12]) == |ops|
    {
      hide Fixed, FixedValue, Records;
      Powers();
      FixedRoundTrip(8, sequence);
      FixedRoundTrip(4, |ops|);
    }

    function Count(): nat
      requires |rep| >= kHeader
      reads this
    {
      FixedValue(rep[8..12])
    }

    method SetCount(n: nat)
      requires |rep| >= kHeader
      modifies `rep
      ensures rep == old(rep)[..8] + Fixed(4, n) + old(rep)[12..]
    {
      rep := rep[..8] + Fixed(4, n) + rep[12..];
    }

    method SetSequence(n: nat)
      requires Valid() && n < 0x1_0000_0000_0000_0000
      modifies this
      ensures Valid() && sequence == n && ops == old(ops)
    {
      hide Fixed, Records;
      Parts();
      rep := Fixed(8, n) + rep[8..];
      sequence := n;
      assert rep == Rep(sequence, ops);
    }

    /** The record goes to the end and the count goes up. */
    method Add(op: Op)
      requires Valid() && Small(op) && |ops| + 1 < 0x1_0000_0000
      modifies this
      ensures Valid() && ops == old(ops) + [op] && sequence == old(sequence)
    {
      hide Fixed, FixedValue, Record, LengthPrefixed;
      Parts();
      RecordsAppend(ops, [op]);
      OneRecord(op);
      SetCount(Count() + 1);
      match op {
        case Put(key, value) =>
          rep := rep + [ByteOf(kTypeValue)];
          rep := rep + LengthPrefixed(key);
          rep := rep + LengthPrefixed(value);
        case Delete(key) =>
          rep := rep + [ByteOf(kTypeDeletion)];
          rep := rep + LengthPrefixed(key);
      }
      ops := ops + [op];
      assert rep == Rep(sequence, ops);
    }

    /** Another batch's records follow this one's, which keeps its sequence number. */
    method Append(source: WriteBatch)
      requires Valid() && source.Valid() && |ops| + |source.ops| < 0x1_0000_0000
      modifies this
      ensures Valid() && ops == old(ops) + old(source.ops) && sequence == old(sequence)
    {
      hide Fixed, FixedValue, Records;
      Parts();
      source.Parts();
      RecordsAppend(ops, source.ops);
      var tail := source.rep[kHeader..];
      ghost var more := source.ops;
      SetCount(Count() + source.Count());
      rep := rep + tail;
      ops := ops + more;
      assert rep == Rep(sequence, ops);
    }
  }

  lemma OneRecord(op: Op)
    ensures Records([op]) == Record(op)
    ensures op.Put? ==> Record(op) == [ByteOf(kTypeValue)] + (LengthPrefixed(op.key) + LengthPrefixed(op.value))
    ensures op.Delete? ==> Record(op) == [ByteOf(kTypeDeletion)] + LengthPrefixed(op.key)
  {}

  lemma Powers()
    ensures Power(256, 4) == 0x1_0000_0000 && Power(256, 8) == 0x1_0000_0000_0000_0000
  {
    assert Power(256, 1) == 256 && Power(256, 2) == 0x1_0000;
    assert Power(256, 3) == 0x100_0000 && Power(256, 4) == 0x1_0000_0000;
    assert Power(256, 5) == 0x100_0000_0000 && Power(256, 6) == 0x1_0000_0000_0000;
    assert Power(256, 7) == 0x100_0000_0000_0000;
  }

  // ----- replaying a log -----

  datatype MemEntry = MemEntry(sn: nat, op: Op)

  /** Operation i of a batch gets the batch's sequence number plus i. */
  function Numbered(sequence: nat, ops: seq<Op>): seq<MemEntry> {
    seq(|ops|, i requires 0 <= i < |ops| => MemEntry(sequence + i, ops[i]))
  }

  /** What Write logs: one group of batches. */
  datatype Group = Group(sequence: nat, ops: seq<Op>)

  predicate Loggable(g: Group) {
    && 0 < g.sequence < 0x1_0000_0000_0000_0000 && |g.ops| < 0x1_0000_0000
    && forall op | op in g.ops :: Small(op)
  }

  function Reps(groups: seq<Group>): (rs: seq<seq<Byte>>)
    ensures |rs| == |groups|
  {
    seq(|groups|, i requires 0 <= i < |groups| => Rep(groups[i].sequence, groups[i].ops))
  }

  function Replayed(groups: seq<Group>): seq<MemEntry>
    decreases |groups|
  {
    if |groups| == 0 then []
    else Replayed(groups[..|groups| - 1]) + Numbered(groups[|groups| - 1].sequence, groups[|groups| - 1].ops)
  }

  /** How many operations the first n groups have. */
  function OpsBefore(groups: seq<Group>, n: nat): nat
    requires n <= |groups|
  {
    if n == 0 then 0 else OpsBefore(groups, n - 1) + |groups[n - 1].ops|
  }

  /** Operation i of group g is in its place, at the group's sequence number plus i. */
  predicate OpThere(all: seq<MemEntry>, groups: seq<Group>, g: nat, i: nat)
    requires g < |groups| && i < |groups[g].ops|
  {
    var n := OpsBefore(groups, g) + i;
    n < |all| && all[n].sn == groups[g].sequence + i && all[n].op == groups[g].ops[i]
  }

  /** The operations of the first n groups are there in order, and nothing else. */
  ghost predicate AllThere(all: seq<MemEntry>, groups: seq<Group>, n: nat)
    requires n <= |groups|
  {
    && |all| == OpsBefore(groups, n)
    && forall g, i :: 0 <= g < n && 0 <= i < |groups[g].ops| ==> OpThere(all, groups, g, i)
  }

  /** Replaying the first n groups gives their operations in order, each with its number. */
  lemma {:induction false} ReplayedInOrder(groups: seq<Group>, n: nat)
    requires n <= |groups|
    ensures AllThere(Replayed(groups[..n]), groups, n)
  {
    if n > 0 {
      ReplayedInOrder(groups, n - 1);
      assert groups[..n][..n - 1] == groups[..n - 1];
      var before, last := Replayed(groups[..n - 1]), groups[n - 1];
      assert Replayed(groups[..n]) == before + Numbered(last.sequence, last.ops);
      forall g, i | 0 <= g < n && 0 <= i < |groups[g].ops| ensures OpThere(Replayed(groups[..n]), groups, g, i) {
        assert g < n - 1 ==> OpThere(before, groups, g, i);
      }
    }
  }

  /** The last number of the group. */
  function LastOf(g: Group): int {
    g.sequence + |g.ops| - 1
  }

  ghost predicate IsGreatest(m: int, before: nat, groups: seq<Group>) {
    && before <= m && (forall g :: g in groups ==> LastOf(g) <= m)
    && (m == before || exists g :: g in groups && LastOf(g) == m)
  }

  lemma {:induction false} MaxIsGreatest(before: nat, groups: seq<Group>)
    ensures IsGreatest(MaxSequence(before, groups), before, groups)
    decreases |groups|
  {
    if |groups| > 0 {
      var rest, last := groups[..|groups| - 1], groups[|groups| - 1];
      MaxIsGreatest(before, rest);
      assert groups == rest + [last];
      assert last in groups;
    }
  }

  /** The greatest number the groups use, or what it was before. */
  function MaxSequence(before: nat, groups: seq<Group>): int
    decreases |groups|
  {
    if |groups| == 0 then before
    else
      var last := groups[|groups| - 1];
      var rest := MaxSequence(before, groups[..|groups| - 1]);
      if last.sequence + |last.ops| - 1 > rest then last.sequence + |last.ops| - 1 else rest
  }

  lemma RepParts(g: Group)
    requires Loggable(g)
    ensures var rep := Rep(g.sequence, g.ops);
      && |rep| >= kHeader && FixedValue(rep[..8]) == g.sequence && FixedValue(rep[8..12]) == |g.ops|
      && Parse(rep[kHeader..]) == Parsed(g.ops, OK)
  {
    hide Fixed, FixedValue, Records, Parse;
    var rep := Rep(g.sequence, g.ops);
    Powers();
    FixedRoundTrip(8, g.sequence);
    FixedRoundTrip(4, |g.ops|);
    assert rep[..8] == Fixed(8, g.sequence) && rep[8..12] == Fixed(4, |g.ops|);
    ParseOfRecords(g.ops, []);
    ParseEnd([]);
    assert rep[kHeader..] == Records(g.ops) == Records(g.ops) + [];
    assert g.ops + [] == g.ops;
  }

  /** InsertInto: operations enter the memtable in order, numbered from the batch's sequence number. */
  method InsertInto(rep: seq<Byte>, mem: seq<MemEntry>) returns (after: seq<MemEntry>, status: Status)
    requires |rep| >= kHeader
    ensures after == mem + Numbered(FixedValue(rep[..8]), Parse(rep[kHeader..]).ops)
    ensures |after| == |mem| + |Parse(rep[kHeader..]).ops| && after[..|mem|] == mem
    ensures forall i :: 0 <= i < |Parse(rep[kHeader..]).ops| ==>
      after[|mem| + i].sn == FixedValue(rep[..8]) + i && after[|mem| + i].op == Parse(rep[kHeader..]).ops[i]
    ensures status == var p := Parse(rep[kHeader..]);
      if p.status != OK then p.status else if |p.ops| == FixedValue(rep[8..12]) then OK else WrongCount
  {
    hide FixedValue, Parse;
    var sequence := FixedValue(rep[..8]);
    ghost var base := sequence;
    var handled;
    handled, status := Iterate(rep);
    after := mem;
    for i := 0 to |handled|
      invariant sequence == base + i && after == mem + Numbered(base, handled)[..i]
    {
      after := after + [MemEntry(sequence, handled[i])];
      sequence := sequence + 1;
    }
  }

  /** Recovery: reads the log's records, then replays them; a memtable found full after record i is written as a
      table. k counts the groups of which the file has every byte. */
  method RecoverLogFile(file: seq<Byte>, maxBefore: nat, paranoidChecks: bool, full: seq<bool>, ghost groups: seq<Group>)
      returns (tables: seq<seq<MemEntry>>, mem: seq<MemEntry>, maxSequence: int, status: Status, corruptions: nat,
               ghost k: nat)
    requires forall g | g in groups :: Loggable(g)
    ensures file <= LogFormat.Log(Reps(groups)) ==> k <= |groups| && LogFormat.Whole(Reps(groups[..k]), file, Reps(groups))
    ensures file <= LogFormat.Log(Reps(groups)) ==> k <= |groups| && Concat(tables) + mem == Replayed(groups[..k])
    ensures file <= LogFormat.Log(Reps(groups)) ==> k <= |groups| && AllThere(Concat(tables) + mem, groups, k)
    ensures file <= LogFormat.Log(Reps(groups)) ==> k <= |groups| && maxSequence == MaxSequence(maxBefore, groups[..k])
    ensures file <= LogFormat.Log(Reps(groups)) ==> k <= |groups| && IsGreatest(maxSequence, maxBefore, groups[..k])
    ensures file <= LogFormat.Log(Reps(groups)) ==> status == OK && corruptions == 0
  {
    hide LogFormat.Log, LogFormat.Whole, FixedValue, Parse, Rep, Replayed, MaxSequence, Numbered, Concat;
    var records, drops := LogFormat.ReadAll(file, true, Reps(groups));
    ghost var onTrack := file <= LogFormat.Log(Reps(groups));
    if onTrack {
      LogFormat.WholeIsPrefix(records, file, Reps(groups));
    }
    tables, mem, maxSequence, status, corruptions := [], [], maxBefore, OK, |drops|;
    k := if onTrack then |records| else 0;
    ReplayedNone(groups, maxBefore);
    for i := 0 to |records|
      invariant onTrack ==> status == OK && corruptions == 0
      invariant onTrack ==> Concat(tables) + mem == Replayed(groups[..i]) && maxSequence == MaxSequence(maxBefore, groups[..i])
    {
      var record := records[i];
      if onTrack {
        assert record == Reps(groups)[i] && groups[i] in groups;
        RepParts(groups[i]);
        ReplayedNext(groups, maxBefore, i);
      }
      if |record| < kHeader {
        corruptions := corruptions + 1;
        continue;
      }
      mem, status := InsertInto(record, mem);
      if !paranoidChecks {
        status := OK;
      }
      if status != OK {
        return;
      }
      var lastSequence := FixedValue(record[..8]) + FixedValue(record[8..12]) - 1;
      if lastSequence > maxSequence {
        maxSequence := lastSequence;
      }
      if i < |full| && full[i] {
        OneMoreTable(tables, mem);
        tables, mem := tables + [mem], [];
      }
    }
    if onTrack {
      assert Reps(groups[..k]) == Reps(groups)[..k] == records;
      ReplayedInOrder(groups, k);
      MaxIsGreatest(maxBefore, groups[..k]);
    }
  }

  lemma OneMoreTable(tables: seq<seq<MemEntry>>, mem: seq<MemEntry>)
    ensures Concat(tables + [mem]) + [] == Concat(tables) + mem
  {
    assert (tables + [mem])[..|tables|] == tables;
  }

  lemma ReplayedNone(groups: seq<Group>, before: nat)
    ensures Concat<MemEntry>([]) + [] == Replayed(groups[..0]) && MaxSequence(before, groups[..0]) == before
  {}

  lemma ReplayedNext(groups: seq<Group>, before: nat, i: nat)
    requires i < |groups|
    ensures Replayed(groups[..i + 1]) == Replayed(groups[..i]) + Numbered(groups[i].sequence, groups[i].ops)
    ensures var n := groups[i].sequence + |groups[i].ops| - 1; var m := MaxSequence(before, groups[..i]);
      MaxSequence(before, groups[..i + 1]) == if n > m then n else m
  {
    hide Numbered;
    assert groups[..i + 1][..i] == groups[..i];
  }
}
