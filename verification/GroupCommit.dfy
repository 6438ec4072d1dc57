/** The queue of writers and the group commit (db/db_impl.cc, Write and BuildBatchGroup). */
module GroupCommit {
  datatype Op = Op(key: string, value: string, deletes: bool)

  datatype Batch = NoBatch | Batch(ops: seq<Op>, bytes: nat)

  /** A call of Write. A call without a batch only asks for room. */
  datatype Writer = Writer(batch: Batch, sync: bool)

  function Ops(w: Writer): seq<Op> {
    if w.batch.NoBatch? then [] else w.batch.ops
  }

  /** The operations of the writers, in their order. */
  function Flat(ws: seq<Writer>): seq<Op>
    decreases |ws|
  {
    if |ws| == 0 then [] else Flat(ws[..|ws| - 1]) + Ops(ws[|ws| - 1])
  }

  lemma {:induction false} FlatAppend(a: seq<Writer>, b: seq<Writer>)
    ensures Flat(a + b) == Flat(a) + Flat(b)
    decreases |b|
  {
    if |b| == 0 {
      assert a + b == a;
    } else {
      var init := b[..|b| - 1];
      assert (a + b)[..|a + b| - 1] == a + init;
      FlatAppend(a, init);
    }
  }

  // ----- choosing a group -----

  function Bytes(ws: seq<Writer>): nat
    decreases |ws|
  {
    if |ws| == 0 then 0
    else Bytes(ws[..|ws| - 1]) + if ws[|ws| - 1].batch.NoBatch? then 0 else ws[|ws| - 1].batch.bytes
  }

  /** A small write is not held up by much more than itself. */
  function MaxBytes(first: nat): nat {
    if first <= 0x2_0000 then first + 0x2_0000 else 0x10_0000
  }

  /** Writer j of the queue may ride with the first, those between riding too. */
  predicate Joins(queue: seq<Writer>, j: nat)
    requires 0 < j < |queue|
  {
    && (queue[j].sync ==> queue[0].sync)
    && (queue[j].batch.Batch? ==> Bytes(queue[..j + 1]) <= MaxBytes(Bytes(queue[..1])))
  }

  /** The first k make a group: they may ride together and the next may not. */
  predicate IsGroup(queue: seq<Writer>, k: nat) {
    && 0 < k <= |queue|
    && (forall j | 0 < j < k :: Joins(queue, j))
    && (k < |queue| ==> !Joins(queue, k))
  }

  /** The first writer takes along as many after it as may join; the batches are appended in order.  A small first
      batch allows 128 KB more than itself, any other 1 MB in all; the writer left behind wants a sync the first one
      does not, or has a batch that is too much. */
  method BuildBatchGroup(queue: seq<Writer>) returns (result: seq<Op>, last: nat)
    requires |queue| > 0 && queue[0].batch.Batch?
    ensures last < |queue| && IsGroup(queue, last + 1)
    ensures result == Flat(queue[..last + 1])
    ensures var first := queue[0].batch.bytes; var limit := if first <= 0x2_0000 then first + 0x2_0000 else 0x10_0000;
      && (forall j | 0 < j <= last :: queue[j].sync ==> queue[0].sync)
      && (forall j | 0 < j <= last :: queue[j].batch.Batch? ==> Bytes(queue[..j + 1]) <= limit)
      && (last + 1 < |queue| ==> TooMuch(queue, last + 1, limit))
  {
    var first := queue[0];
    result := first.batch.ops;
    var size := first.batch.bytes;
    var maxSize := 0x10_0000;
    if size <= 0x2_0000 {
      maxSize := size + 0x2_0000;
    }
    OneWriter(queue);
    last := 0;
    var i := 1;
    while i < |queue|
      invariant i == last + 1 && i <= |queue|
      invariant maxSize == MaxBytes(Bytes(queue[..1])) && size == Bytes(queue[..i])
      invariant result == Flat(queue[..i])
      invariant forall j | 0 < j < i :: Joins(queue, j)
    {
      var w := queue[i];
      if w.sync && !first.sync {
        break;
      }
      NextWriter(queue, i);
      if w.batch.Batch? {
        size := size + w.batch.bytes;
        if size > maxSize {
          break;
        }
        result := result + w.batch.ops;
      }
      last := i;
      i := i + 1;
    }
    assert IsGroup(queue, last + 1);
    GroupBounds(queue, last + 1);
  }

  /** Writer j wants a sync the first one does not, or its batch brings the group over the limit. */
  predicate TooMuch(queue: seq<Writer>, j: nat, limit: nat)
    requires 0 < j < |queue|
  {
    (queue[j].sync && !queue[0].sync) || (queue[j].batch.Batch? && Bytes(queue[..j + 1]) > limit)
  }

  lemma GroupBounds(queue: seq<Writer>, k: nat)
    requires IsGroup(queue, k) && queue[0].batch.Batch?
    ensures var first := queue[0].batch.bytes; var limit := if first <= 0x2_0000 then first + 0x2_0000 else 0x10_0000;
      && (forall j | 0 < j < k :: queue[j].sync ==> queue[0].sync)
      && (forall j | 0 < j < k :: queue[j].batch.Batch? ==> Bytes(queue[..j + 1]) <= limit)
      && (k < |queue| ==> TooMuch(queue, k, limit))
  {
    hide Bytes, Flat;
    OneWriter(queue);
    assert MaxBytes(Bytes(queue[..1])) == MaxBytes(queue[0].batch.bytes);
    forall j | 0 < j < k
      ensures queue[j].sync ==> queue[0].sync
      ensures queue[j].batch.Batch? ==> Bytes(queue[..j + 1]) <= MaxBytes(queue[0].batch.bytes)
    {
      assert Joins(queue, j);
    }
  }

  lemma OneWriter(queue: seq<Writer>)
    requires |queue| > 0
    ensures Flat(queue[..1]) == Ops(queue[0])
    ensures Bytes(queue[..1]) == if queue[0].batch.NoBatch? then 0 else queue[0].batch.bytes
  {
    NextWriter(queue, 0);
  }

  lemma NextWriter(queue: seq<Writer>, i: nat)
    requires i < |queue|
    ensures Flat(queue[..i + 1]) == Flat(queue[..i]) + Ops(queue[i])
    ensures Bytes(queue[..i + 1]) == Bytes(queue[..i]) + if queue[i].batch.NoBatch? then 0 else queue[i].batch.bytes
  {
    assert queue[..i + 1][..i] == queue[..i];
  }

  /** There is just one group a leader can make. */
  lemma GroupIsDetermined(queue: seq<Writer>, j: nat, k: nat)
    requires IsGroup(queue, j) && IsGroup(queue, k)
    ensures j == k
  {
  }

  // ----- the protocol -----

  datatype Record = Record(base: nat, ops: seq<Op>)

  /** The writer at the front, once it has its group: the k writers of it, where their sequence numbers start,
      and how far it has got while the mutex is released. */
  datatype Leader = NoLeader | Leader(k: nat, base: nat, ops: seq<Op>, logged: bool, applied: nat)

  /** One log file: the record it begins with, and where the records end that are known to be on disk. */
  datatype LogFile = LogFile(first: nat, synced: nat)

  /** Writers are numbered as they come. Only what is written from sequence number start on is in mem and log.
      The log's records lie in files, the last of them open; the memtables of the first `flushed` files are tables
      on disk. mem is what readers see, the memtables and those tables together. */
  datatype State = State(start: nat, writers: seq<Writer>, queue: seq<nat>, done: set<nat>, leader: Leader,
                         log: seq<Record>, files: seq<LogFile>, flushed: nat, mem: map<nat, Op>, lastSequence: nat) {
    /** Where the records of file f end. */
    function End(f: nat): nat
      requires f < |files|
    {
      if f + 1 < |files| then files[f + 1].first else |log|
    }
  }

  datatype Action =
    | Arrive(writer: Writer)
    | Pass
    | Lead(k: nat)
    | AddRecord
    | Sync
    | InsertOne
    | Publish
    | SwitchLog
    | FlushImm

  predicate QueueHolds(s: State) {
    forall i | 0 <= i < |s.queue| :: s.queue[i] < |s.writers|
  }

  function Queue(s: State): seq<Writer>
    requires QueueHolds(s)
  {
    seq(|s.queue|, i requires 0 <= i < |s.queue| => s.writers[s.queue[i]])
  }

  /** The leader's record is in the log, and on disk if it was asked for. */
  predicate Durable(s: State)
    requires QueueHolds(s)
  {
    s.leader.Leader? && s.leader.logged && |s.queue| > 0 && |s.files| > 0
    && (s.writers[s.queue[0]].sync ==> s.files[|s.files| - 1].synced == |s.log|)
  }

  predicate Enabled(s: State, a: Action) {
    QueueHolds(s) &&
    match a
    case Arrive(_) => true
    case Pass => s.leader.NoLeader? && |s.queue| > 0 && Queue(s)[0].batch.NoBatch?
    case Lead(k) => s.leader.NoLeader? && |s.queue| > 0 && Queue(s)[0].batch.Batch? && IsGroup(Queue(s), k)
    case AddRecord => s.leader.Leader? && !s.leader.logged
    case Sync => s.leader.Leader? && s.leader.logged && |s.queue| > 0 && |s.files| > 0 && Queue(s)[0].sync
    case InsertOne => Durable(s) && s.leader.applied < |s.leader.ops|
    case Publish => Durable(s) && s.leader.applied == |s.leader.ops| && s.leader.k <= |s.queue|
    // the writer in front makes room, which takes that no memtable waits to be flushed
    case SwitchLog => s.leader.NoLeader? && |s.queue| > 0 && s.flushed + 1 == |s.files|
    case FlushImm => s.flushed + 1 < |s.files|
  }

  function Pop(s: State, k: nat): State
    requires k <= |s.queue|
  {
    s.(queue := s.queue[k..], done := s.done + set i | i in s.queue[..k])
  }

  function Apply(s: State, a: Action): State
    requires Enabled(s, a)
  {
    match a
    case Arrive(w) => s.(writers := s.writers + [w], queue := s.queue + [|s.writers|])
    case Pass => Pop(s, 1)
    case Lead(k) => s.(leader := Leader(k, s.lastSequence + 1, Flat(Queue(s)[..k]), false, 0))
    case AddRecord => s.(log := s.log + [Record(s.leader.base, s.leader.ops)], leader := s.leader.(logged := true))
    case Sync => s.(files := s.files[|s.files| - 1 := s.files[|s.files| - 1].(synced := |s.log|)])
    case InsertOne =>
      s.(mem := s.mem[s.leader.base + s.leader.applied := s.leader.ops[s.leader.applied]],
         leader := s.leader.(applied := s.leader.applied + 1))
    case Publish => Pop(s, s.leader.k).(lastSequence := s.lastSequence + |s.leader.ops|, leader := NoLeader)
    case SwitchLog => s.(files := s.files + [LogFile(|s.log|, |s.log|)])
    case FlushImm => s.(flushed := s.flushed + 1)
  }

  // ----- what every step keeps -----

  function LogOps(log: seq<Record>): seq<Op>
    decreases |log|
  {
    if |log| == 0 then [] else LogOps(log[..|log| - 1]) + log[|log| - 1].ops
  }

  /** How many writers have left the queue. */
  function Gone(s: State): nat {
    if |s.queue| <= |s.writers| then |s.writers| - |s.queue| else 0
  }

  /** How many writers have their operations in the log. */
  function Logged(s: State): nat {
    Gone(s) + if s.leader.Leader? && s.leader.logged then s.leader.k else 0
  }

  predicate InOrder(s: State) {
    && |s.queue| <= |s.writers|
    && (forall i | 0 <= i < |s.queue| :: s.queue[i] == Gone(s) + i)
    && (forall i | i in s.done :: i < Gone(s))
    && (forall i | 0 <= i < Gone(s) :: i in s.done)
  }

  predicate LeaderOk(s: State) {
    s.leader.Leader? ==>
      && 0 < s.leader.k && Gone(s) + s.leader.k <= |s.writers|
      && s.leader.ops == Flat(s.writers[Gone(s)..Gone(s) + s.leader.k])
      && s.leader.base == s.lastSequence + 1
      && s.leader.applied <= |s.leader.ops|
      && (forall i | Gone(s) <= i < Gone(s) + s.leader.k && s.writers[i].sync :: s.writers[Gone(s)].sync)
      && (s.leader.applied > 0 ==> s.leader.logged)
      && (s.leader.logged ==> |s.log| > 0 && s.log[|s.log| - 1] == Record(s.leader.base, s.leader.ops))
  }

  predicate LogOk(s: State) {
    && Logged(s) <= |s.writers|
    && LogOps(s.log) == Flat(s.writers[..Logged(s)])
    && (forall i | 0 <= i < |s.log| :: s.log[i].base == s.start + 1 + |LogOps(s.log[..i])|)
  }

  function Applied(s: State): nat {
    if s.leader.Leader? then s.leader.applied else 0
  }

  /** mem holds the operations applied so far, each at its place in the order of the queue. */
  predicate MemOk(s: State) {
    && s.lastSequence == s.start + |Flat(s.writers[..Gone(s)])|
    && s.lastSequence + Applied(s) <= s.start + |Flat(s.writers)|
    && (forall n | n in s.mem :: s.start < n <= s.lastSequence + Applied(s))
    && (forall n | s.start < n <= s.lastSequence + Applied(s) :: n in s.mem && s.mem[n] == Flat(s.writers)[n - s.start - 1])
  }

  /** The files lie end to end and all but the last two are flushed. */
  predicate FilesOk(s: State) {
    && |s.files| > 0 && s.files[0].first == 0
    && (forall f | 0 <= f < |s.files| :: s.files[f].first <= s.files[f].synced <= s.End(f) <= |s.log|)
    && s.flushed < |s.files| <= s.flushed + 2
    && (s.leader.Leader? && s.leader.logged ==> s.files[|s.files| - 1].first < |s.log|)
  }

  /** Record r is in file f. */
  predicate InFile(s: State, r: nat, f: nat)
    requires f < |s.files|
  {
    s.files[f].first <= r < s.End(f)
  }

  predicate OnDisk(s: State, r: nat) {
    forall f | 0 <= f < |s.files| && InFile(s, r, f) :: f < s.flushed || r < s.files[f].synced
  }

  /** Record r holds operations of writer i. */
  predicate Carries(s: State, r: nat, i: nat)
    requires r < |s.log| && i < |s.writers|
  {
    && |LogOps(s.log[..r])| < |Flat(s.writers[..i + 1])|
    && |Flat(s.writers[..i])| < |LogOps(s.log[..r + 1])|
  }

  /** A sync write that has returned is on disk. */
  predicate SyncOk(s: State) {
    forall i, r | 0 <= i < Gone(s) && i < |s.writers| && s.writers[i].sync && s.writers[i].batch.Batch?
      && 0 <= r < |s.log| && Carries(s, r, i) :: OnDisk(s, r)
  }

  predicate Inv(s: State) {
    InOrder(s) && LeaderOk(s) && LogOk(s) && MemOk(s) && FilesOk(s) && SyncOk(s)
  }

  lemma FlatPrefix(ws: seq<Writer>, i: nat, j: nat)
    requires i <= j <= |ws|
    ensures Flat(ws[..j]) == Flat(ws[..i]) + Flat(ws[i..j])
    ensures Flat(ws[..i]) <= Flat(ws[..j])
  {
    hide Flat;
    assert ws[..j] == ws[..i] + ws[i..j];
    FlatAppend(ws[..i], ws[i..j]);
  }

  lemma FlatWhole(ws: seq<Writer>, j: nat)
    requires j <= |ws|
    ensures Flat(ws[..j]) <= Flat(ws)
  {
    hide Flat;
    FlatPrefix(ws, j, |ws|);
    assert ws[..|ws|] == ws;
  }

  lemma LogOpsOneMore(log: seq<Record>, r: Record)
    ensures LogOps(log + [r]) == LogOps(log) + r.ops
    ensures forall i | 0 <= i <= |log| :: LogOps((log + [r])[..i]) == LogOps(log[..i])
  {
    assert (log + [r])[..|log|] == log;
    forall i | 0 <= i <= |log|
      ensures LogOps((log + [r])[..i]) == LogOps(log[..i])
    {
      assert (log + [r])[..i] == log[..i];
    }
  }

  lemma {:induction false} LogOpsPrefix(log: seq<Record>, i: nat)
    requires i <= |log|
    ensures LogOps(log[..i]) <= LogOps(log)
    decreases |log|
  {
    if i == |log| {
      assert log[..i] == log;
    } else {
      var init := log[..|log| - 1];
      assert init[..i] == log[..i];
      LogOpsPrefix(init, i);
    }
  }

  lemma ArriveKeepsInv(s: State, w: Writer)
    requires Inv(s) && Enabled(s, Arrive(w))
    ensures Inv(Apply(s, Arrive(w)))
  {
    hide Flat, LogOps, SyncOk, FilesOk;
    var t := Apply(s, Arrive(w));
    assert Gone(t) == Gone(s);
    assert forall i | 0 <= i <= |s.writers| :: t.writers[..i] == s.writers[..i];
    assert forall i, j | 0 <= i <= j <= |s.writers| :: t.writers[i..j] == s.writers[i..j];
    FlatWhole(t.writers, |s.writers|);
    assert s.writers[..|s.writers|] == s.writers;
    SameFiles(s, t);
    SyncOkKept(s, t);
  }

  /** Nothing about the disk changes, and no write that was to be synced has returned. */
  lemma SyncOkKept(s: State, t: State)
    requires SyncOk(s) && s.log == t.log && s.files == t.files && s.flushed == t.flushed
    requires s.writers <= t.writers && Gone(s) <= |s.writers|
    requires forall i | Gone(s) <= i < Gone(t) && i < |t.writers| :: !(t.writers[i].sync && t.writers[i].batch.Batch?)
    ensures SyncOk(t)
  {
    hide Flat, LogOps, OnDisk;
    forall i, r | 0 <= i < Gone(t) && i < |t.writers| && t.writers[i].sync && t.writers[i].batch.Batch?
      && 0 <= r < |t.log| && Carries(t, r, i)
      ensures OnDisk(t, r)
    {
      assert i < Gone(s) ==> t.writers[..i] == s.writers[..i] && t.writers[..i + 1] == s.writers[..i + 1];
      assert Carries(s, r, i);
      SameDisk(s, t, r);
    }
  }

  lemma SameDisk(s: State, t: State, r: nat)
    requires OnDisk(s, r) && s.log == t.log && s.files == t.files && s.flushed == t.flushed
    ensures OnDisk(t, r)
  {
    forall f | 0 <= f < |t.files| && InFile(t, r, f) ensures f < t.flushed || r < t.files[f].synced {
      assert InFile(s, r, f);
    }
  }

  lemma SameFiles(s: State, t: State)
    requires FilesOk(s) && s.log == t.log && s.files == t.files && s.flushed == t.flushed
    requires t.leader.Leader? && t.leader.logged ==> s.leader.Leader? && s.leader.logged
    ensures FilesOk(t)
  {
    assert forall f | 0 <= f < |s.files| :: s.End(f) == t.End(f);
  }

  lemma PassKeepsInv(s: State)
    requires Inv(s) && Enabled(s, Pass)
    ensures Inv(Apply(s, Pass))
  {
    hide Flat, LogOps, SyncOk, FilesOk;
    var t := Apply(s, Pass);
    assert Gone(t) == Gone(s) + 1 && s.queue[..1] == [s.queue[0]];
    NextWriter(s.writers, Gone(s));
    assert Flat(t.writers[..Gone(t)]) == Flat(s.writers[..Gone(s)]);
    SameFiles(s, t);
    SyncOkKept(s, t);
  }

  lemma QueueIsTail(s: State)
    requires InOrder(s)
    ensures Queue(s) == s.writers[Gone(s)..]
  {}

  lemma SyncLeads(queue: seq<Writer>, k: nat)
    requires IsGroup(queue, k)
    ensures 0 < k <= |queue| && forall j | 0 <= j < k && queue[j].sync :: queue[0].sync
  {
    forall j | 0 <= j < k && queue[j].sync
      ensures queue[0].sync
    {
      assert j > 0 ==> Joins(queue, j);
    }
  }

  lemma LeadKeepsInv(s: State, k: nat)
    requires Inv(s) && Enabled(s, Lead(k))
    ensures Inv(Apply(s, Lead(k)))
  {
    hide Flat, LogOps, IsGroup, SyncOk, FilesOk;
    QueueIsTail(s);
    SyncLeads(Queue(s), k);
    var g := Gone(s);
    assert Queue(s)[..k] == s.writers[g..g + k];
    forall i | g <= i < g + k && s.writers[i].sync
      ensures s.writers[g].sync
    {
      assert Queue(s)[i - g] == s.writers[i];
    }
    SameFiles(s, Apply(s, Lead(k)));
    SyncOkKept(s, Apply(s, Lead(k)));
  }

  lemma AddRecordKeepsInv(s: State)
    requires Inv(s) && Enabled(s, AddRecord)
    ensures Inv(Apply(s, AddRecord))
  {
    hide Flat, LogOps, SyncOk, FilesOk;
    var t := Apply(s, AddRecord);
    LogOpsOneMore(s.log, Record(s.leader.base, s.leader.ops));
    FlatPrefix(s.writers, Gone(s), Gone(s) + s.leader.k);
    assert s.log[..|s.log|] == s.log;
    AddRecordFiles(s, t);
    AddRecordSync(s, t);
  }

  lemma AddRecordFiles(s: State, t: State)
    requires FilesOk(s) && |t.log| == |s.log| + 1 && s.files == t.files && s.flushed == t.flushed
    ensures FilesOk(t)
  {
    assert forall f | 0 <= f < |s.files| :: s.End(f) <= t.End(f);
    assert forall f | 0 <= f < |s.files| - 1 :: s.End(f) == t.End(f);
  }

  /** The new record is not of a writer that has returned. */
  lemma AddRecordSync(s: State, t: State)
    requires FilesOk(s) && SyncOk(s) && s.files == t.files && s.flushed == t.flushed && s.writers == t.writers
    requires |t.log| == |s.log| + 1 && s.log <= t.log && Gone(s) == Gone(t) <= |s.writers|
    requires LogOps(s.log) == Flat(s.writers[..Gone(s)])
    ensures SyncOk(t)
  {
    hide Flat, LogOps, OnDisk;
    forall i, r | 0 <= i < Gone(t) && i < |t.writers| && t.writers[i].sync && t.writers[i].batch.Batch?
      && 0 <= r < |t.log| && Carries(t, r, i)
      ensures OnDisk(t, r)
    {
      assert t.log[..|s.log|] == s.log;
      FlatPrefix(s.writers, i + 1, Gone(s));
      assert r < |s.log|;
      assert t.log[..r] == s.log[..r] && t.log[..r + 1] == s.log[..r + 1];
      assert Carries(s, r, i);
      LongerLog(s, t, r);
    }
  }

  lemma LongerLog(s: State, t: State, r: nat)
    requires FilesOk(s) && OnDisk(s, r) && r < |s.log| <= |t.log| && s.files == t.files && s.flushed == t.flushed
    ensures OnDisk(t, r)
  {
    forall f | 0 <= f < |t.files| && InFile(t, r, f) ensures f < t.flushed || r < t.files[f].synced {
      assert InFile(s, r, f);
    }
  }

  lemma DiskKeepsInv(s: State, a: Action)
    requires Inv(s) && Enabled(s, a) && (a.Sync? || a.SwitchLog? || a.FlushImm?)
    ensures Inv(Apply(s, a))
  {
    hide Flat, LogOps, SyncOk, FilesOk;
    var t := Apply(s, a);
    assert InOrder(t) && LeaderOk(t) && LogOk(t) && MemOk(t);
    DiskFiles(s, a);
    DiskSync(s, t) by {
      forall r | 0 <= r < |s.log| && OnDisk(s, r) ensures OnDisk(t, r) {
        DiskGrows(s, a, r);
      }
    }
  }

  lemma DiskFiles(s: State, a: Action)
    requires FilesOk(s) && Enabled(s, a) && (a.Sync? || a.SwitchLog? || a.FlushImm?)
    ensures FilesOk(Apply(s, a))
  {
    var t := Apply(s, a);
    forall f | 0 <= f < |t.files| ensures t.files[f].first <= t.files[f].synced <= t.End(f) <= |t.log| {
      assert f < |s.files| ==> s.End(f) == t.End(f) && s.files[f].first == t.files[f].first;
    }
  }

  lemma DiskGrows(s: State, a: Action, r: nat)
    requires FilesOk(s) && Enabled(s, a) && (a.Sync? || a.SwitchLog? || a.FlushImm?)
    requires r < |s.log| && OnDisk(s, r)
    ensures OnDisk(Apply(s, a), r)
  {
    var t := Apply(s, a);
    forall f | 0 <= f < |t.files| && InFile(t, r, f) ensures f < t.flushed || r < t.files[f].synced {
      assert f < |s.files| && InFile(s, r, f);
    }
  }

  lemma DiskSync(s: State, t: State)
    requires SyncOk(s) && s.log == t.log && s.writers == t.writers && s.queue == t.queue
    requires forall r | 0 <= r < |s.log| && OnDisk(s, r) :: OnDisk(t, r)
    ensures SyncOk(t)
  {
    hide Flat, LogOps, OnDisk;
    forall i, r | 0 <= i < Gone(t) && i < |t.writers| && t.writers[i].sync && t.writers[i].batch.Batch?
      && 0 <= r < |t.log| && Carries(t, r, i)
      ensures OnDisk(t, r)
    {
      assert Carries(s, r, i);
    }
  }

  lemma InsertKeepsInv(s: State)
    requires Inv(s) && Enabled(s, InsertOne)
    ensures Inv(Apply(s, InsertOne))
  {
    hide Flat, LogOps, SyncOk, FilesOk;
    var g, k, a := Gone(s), s.leader.k, s.leader.applied;
    FlatPrefix(s.writers, g, g + k);
    FlatWhole(s.writers, g + k);
    assert Flat(s.writers)[|Flat(s.writers[..g])| + a] == s.leader.ops[a];
    SameFiles(s, Apply(s, InsertOne));
    SyncOkKept(s, Apply(s, InsertOne));
  }

  lemma PublishKeepsInv(s: State)
    requires Inv(s) && Enabled(s, Publish)
    ensures Inv(Apply(s, Publish))
  {
    hide Flat, LogOps, SyncOk, FilesOk;
    var t := Apply(s, Publish);
    var g, k := Gone(s), s.leader.k;
    assert Gone(t) == g + k;
    assert forall i | 0 <= i < k :: s.queue[..k][i] == g + i;
    forall i | g <= i < g + k
      ensures i in t.done
    {
      assert s.queue[..k][i - g] == i;
    }
    FlatPrefix(s.writers, g, g + k);
    SameFiles(s, t);
    PublishSync(s, t);
  }

  lemma PublishSync(s: State, t: State)
    requires Inv(s) && Enabled(s, Publish) && s.log == t.log && s.files == t.files && s.flushed == t.flushed
    requires s.writers == t.writers && Gone(t) == Gone(s) + s.leader.k
    ensures SyncOk(t)
  {
    hide Flat, LogOps, OnDisk, MemOk;
    forall i, r | 0 <= i < Gone(t) && i < |t.writers| && t.writers[i].sync && t.writers[i].batch.Batch?
      && 0 <= r < |t.log| && Carries(t, r, i)
      ensures OnDisk(t, r)
    {
      if i < Gone(s) {
        assert Carries(s, r, i);
      } else {
        GroupRecord(s, i, r);
        assert s.writers[Gone(s)].sync && s.queue[0] == Gone(s);
        LastOnDisk(s);
      }
      SameDisk(s, t, r);
    }
  }

  /** The group's operations are in the last record. */
  lemma GroupRecord(s: State, i: nat, r: nat)
    requires Inv(s) && s.leader.Leader? && s.leader.logged && Gone(s) <= i < Gone(s) + s.leader.k && i < |s.writers|
    requires r < |s.log| && Carries(s, r, i)
    ensures r == |s.log| - 1
  {
    hide Flat, LogOps, SyncOk, FilesOk;
    if r < |s.log| - 1 {
      LogOpsPrefix(s.log[..|s.log| - 1], r + 1);
      assert s.log[..|s.log| - 1][..r + 1] == s.log[..r + 1];
      FlatPrefix(s.writers, Gone(s), i);
    }
  }

  lemma LastOnDisk(s: State)
    requires FilesOk(s) && s.leader.Leader? && s.leader.logged && s.files[|s.files| - 1].synced == |s.log|
    ensures |s.log| > 0 && OnDisk(s, |s.log| - 1)
  {
    assert s.files[|s.files| - 1].first < |s.log|;
    forall f | 0 <= f < |s.files| && InFile(s, |s.log| - 1, f) ensures |s.log| - 1 < s.files[f].synced {
      if f < |s.files| - 1 {
        FilesRise(s, f, |s.files| - 1);
      }
    }
  }

  lemma {:induction false} FilesRise(s: State, f: nat, g: nat)
    requires FilesOk(s) && f < g < |s.files|
    ensures s.End(f) <= s.files[g].first
    decreases g
  {
    if f + 1 < g {
      FilesRise(s, f, g - 1);
      assert s.End(g - 1) == s.files[g].first;
    }
  }

  lemma StepKeepsInv(s: State, a: Action)
    requires Inv(s) && Enabled(s, a)
    ensures Inv(Apply(s, a))
  {
    hide Inv, Enabled, Apply;
    match a {
      case Arrive(w) => ArriveKeepsInv(s, w);
      case Pass => PassKeepsInv(s);
      case Lead(k) => LeadKeepsInv(s, k);
      case AddRecord => AddRecordKeepsInv(s);
      case InsertOne => InsertKeepsInv(s);
      case Publish => PublishKeepsInv(s);
      case Sync => DiskKeepsInv(s, a);
      case SwitchLog => DiskKeepsInv(s, a);
      case FlushImm => DiskKeepsInv(s, a);
    }
  }

  // ----- whole runs -----

  function Init(start: nat): State {
    State(start, [], [], {}, NoLeader, [], [LogFile(0, 0)], 0, map[], start)
  }

  predicate IsRun(run: seq<State>, actions: seq<Action>) {
    && |run| == |actions| + 1 && run[0] == Init(run[0].start)
    && forall i | 0 <= i < |actions| :: Enabled(run[i], actions[i]) && run[i + 1] == Apply(run[i], actions[i])
  }

  lemma {:induction false} RunInv(run: seq<State>, actions: seq<Action>, i: nat)
    requires IsRun(run, actions) && i < |run|
    ensures Inv(run[i])
  {
    hide Apply, Enabled;
    if i > 0 {
      RunInv(run, actions, i - 1);
      StepKeepsInv(run[i - 1], actions[i - 1]);
      assert run[i] == Apply(run[i - 1], actions[i - 1]);
    }
  }

  // ----- what the invariant is for -----

  /** The sequence number of operation j of writer i. */
  function SequenceOf(s: State, i: nat, j: nat): nat
    requires i < |s.writers|
  {
    s.start + 1 + |Flat(s.writers[..i])| + j
  }

  /** Writers' ranges of sequence numbers are consecutive, and no two meet. */
  lemma RangesApart(s: State, i: nat, i': nat, j: nat, j': nat)
    requires i < i' < |s.writers| && j < |Ops(s.writers[i])| && j' < |Ops(s.writers[i'])|
    ensures SequenceOf(s, i, j) < SequenceOf(s, i', j')
  {
    hide Flat;
    NextWriter(s.writers, i);
    FlatPrefix(s.writers, i + 1, i');
  }

  lemma OpInOrder(ws: seq<Writer>, i: nat, j: nat)
    requires i < |ws| && j < |Ops(ws[i])|
    ensures |Flat(ws[..i])| + j < |Flat(ws[..i + 1])| <= |Flat(ws)|
    ensures Flat(ws)[|Flat(ws[..i])| + j] == Ops(ws[i])[j]
  {
    hide Flat;
    NextWriter(ws, i);
    FlatWhole(ws, i + 1);
    assert Flat(ws)[|Flat(ws[..i])| + j] == Flat(ws[..i + 1])[|Flat(ws[..i])| + j];
  }

  /** A reader at LastSequence sees the whole of a batch that has left the queue and nothing of any other. */
  lemma BatchesAreAtomic(s: State, i: nat, j: nat)
    requires Inv(s) && i < |s.writers| && j < |Ops(s.writers[i])|
    ensures SequenceOf(s, i, j) <= s.lastSequence <==> i in s.done
    ensures i in s.done ==> SequenceOf(s, i, j) in s.mem && s.mem[SequenceOf(s, i, j)] == Ops(s.writers[i])[j]
  {
    hide Flat, LogOps;
    OpInOrder(s.writers, i, j);
    if i < Gone(s) {
      FlatPrefix(s.writers, i + 1, Gone(s));
    } else {
      FlatPrefix(s.writers, Gone(s), i);
    }
  }

  /** And sees nothing else. */
  lemma OnlyBatchesAreSeen(s: State, n: nat)
    requires Inv(s) && n in s.mem && n <= s.lastSequence
    ensures exists i, j :: 0 <= i < Gone(s) && 0 <= j < |Ops(s.writers[i])| && n == SequenceOf(s, i, j)
  {
    hide Flat, LogOps;
    var i, j := Locate(s.writers[..Gone(s)], n - s.start - 1);
    assert s.writers[..Gone(s)][..i] == s.writers[..i];
    assert n == SequenceOf(s, i, j);
  }

  lemma {:induction false} Locate(ws: seq<Writer>, n: nat) returns (i: nat, j: nat)
    requires n < |Flat(ws)|
    ensures i < |ws| && j < |Ops(ws[i])| && n == |Flat(ws[..i])| + j
    decreases |ws|
  {
    var init := ws[..|ws| - 1];
    if n < |Flat(init)| {
      i, j := Locate(init, n);
      assert init[..i] == ws[..i];
    } else {
      i, j := |ws| - 1, n - |Flat(init)|;
    }
  }

  // ----- a crash -----

  /** Every record that may come back holds operations of the queue, with the numbers they had. */
  lemma ReplayIsQueueOrder(s: State, r: nat, j: nat)
    requires Inv(s) && r < |s.log| && j < |s.log[r].ops|
    ensures var n := s.log[r].base + j;
      s.start < n <= s.start + |Flat(s.writers)| && s.log[r].ops[j] == Flat(s.writers)[n - s.start - 1]
  {
    hide Flat, LogOps;
    FlatWhole(s.writers, Logged(s));
    LogOpsPrefix(s.log, r + 1);
    LogOpsOneMore(s.log[..r], s.log[r]);
    assert s.log[..r] + [s.log[r]] == s.log[..r + 1];
    assert LogOps(s.log[..r + 1])[|LogOps(s.log[..r])| + j] == s.log[r].ops[j];
  }

  /** What a crash may leave: of each file not yet flushed, the records up to some point past those synced. */
  predicate Outcome(s: State, kept: seq<nat>) {
    && |kept| == |s.files|
    && forall f | 0 <= f < |s.files| ::
         if f < s.flushed then kept[f] == s.End(f) else s.files[f].synced <= kept[f] <= s.End(f)
  }

  predicate Survives(s: State, kept: seq<nat>, r: nat)
    requires |kept| == |s.files|
  {
    forall f | 0 <= f < |s.files| && InFile(s, r, f) :: r < kept[f]
  }

  /** What comes back are the records up to some point. */
  predicate FirstPart(s: State, kept: seq<nat>)
    requires |kept| == |s.files|
  {
    forall q, r | 0 <= r < q < |s.log| && Survives(s, kept, q) :: Survives(s, kept, r)
  }

  /** No file but the last to hold records has any that may be lost. */
  predicate EarlierSafe(s: State) {
    forall f | s.flushed <= f < |s.files| && s.End(f) < |s.log| :: s.files[f].synced == s.End(f)
  }

  /** Every crash leaves a first part of what was written exactly when each file before the last record's is
      flushed or wholly synced. A switch of logs syncs nothing. */
  lemma CrashLeavesFirstPartIff(s: State)
    requires Inv(s)
    ensures (forall kept | Outcome(s, kept) :: FirstPart(s, kept)) <==> EarlierSafe(s)
  {
    hide Flat, LogOps, SyncOk, MemOk, LogOk, LeaderOk;
    if EarlierSafe(s) {
      forall kept, q, r | Outcome(s, kept) && 0 <= r < q < |s.log| && Survives(s, kept, q)
        ensures Survives(s, kept, r)
      {
        SafeIsFirstPart(s, kept, q, r);
      }
    } else {
      var f :| s.flushed <= f < |s.files| && s.End(f) < |s.log| && s.files[f].synced != s.End(f);
      var kept := LossyOutcome(s, f);
      var r, q := s.files[f].synced, |s.log| - 1;
      assert InFile(s, r, f) && !Survives(s, kept, r);
      assert Survives(s, kept, q) by {
        LastSurvives(s, kept, f);
      }
      assert !FirstPart(s, kept);
    }
  }

  lemma SafeIsFirstPart(s: State, kept: seq<nat>, q: nat, r: nat)
    requires FilesOk(s) && EarlierSafe(s) && Outcome(s, kept) && r < q < |s.log| && Survives(s, kept, q)
    ensures Survives(s, kept, r)
  {
    forall f | 0 <= f < |s.files| && InFile(s, r, f) ensures r < kept[f] {
      if q < s.End(f) {
        assert InFile(s, q, f);
      } else {
        assert f >= s.flushed ==> s.files[f].synced == s.End(f);
      }
    }
  }

  /** File f keeps only what is synced, the others everything. */
  lemma LossyOutcome(s: State, f: nat) returns (kept: seq<nat>)
    requires FilesOk(s) && s.flushed <= f < |s.files|
    ensures Outcome(s, kept) && forall g | 0 <= g < |s.files| :: kept[g] == if g == f then s.files[f].synced else s.End(g)
  {
    kept := seq(|s.files|, g requires 0 <= g < |s.files| => if g == f then s.files[f].synced else s.End(g));
  }

  lemma LastSurvives(s: State, kept: seq<nat>, f: nat)
    requires FilesOk(s) && f < |s.files| == |kept| && s.End(f) < |s.log|
    requires forall g | 0 <= g < |s.files| && g != f :: kept[g] == s.End(g)
    ensures Survives(s, kept, |s.log| - 1)
  {}

  /** What a sync write that has returned wrote comes back from every crash, with its numbers. */
  lemma SyncedSurvives(s: State, kept: seq<nat>, i: nat, j: nat)
    requires Inv(s) && Outcome(s, kept) && i in s.done && s.writers[i].sync && j < |Ops(s.writers[i])|
    ensures exists r | 0 <= r < |s.log| && Survives(s, kept, r) :: HoldsOp(s, r, i, j)
  {
    hide Flat, LogOps, SyncOk, MemOk, FilesOk;
    OpInOrder(s.writers, i, j);
    FlatPrefix(s.writers, i + 1, Logged(s));
    var r := RecordAt(s.log, |Flat(s.writers[..i])| + j);
    LogOpsOneMore(s.log[..r], s.log[r]);
    assert s.log[..r] + [s.log[r]] == s.log[..r + 1];
    assert Carries(s, r, i);
    assert OnDisk(s, r) by { ShowOnDisk(s, i, r); }
    DiskSurvives(s, kept, r);
    LogOpsPrefix(s.log, r + 1);
    FlatWhole(s.writers, Logged(s));
    assert s.log[r].ops[SequenceOf(s, i, j) - s.log[r].base]
        == LogOps(s.log[..r + 1])[|LogOps(s.log[..r])| + (SequenceOf(s, i, j) - s.log[r].base)];
  }

  /** Record r holds operation j of writer i at the writer's own number. */
  predicate HoldsOp(s: State, r: nat, i: nat, j: nat)
    requires r < |s.log| && i < |s.writers| && j < |Ops(s.writers[i])|
  {
    var n := SequenceOf(s, i, j);
    s.log[r].base <= n < s.log[r].base + |s.log[r].ops| && s.log[r].ops[n - s.log[r].base] == Ops(s.writers[i])[j]
  }

  lemma ShowOnDisk(s: State, i: nat, r: nat)
    requires SyncOk(s) && i < Gone(s) && i < |s.writers| && s.writers[i].sync && s.writers[i].batch.Batch?
    requires r < |s.log| && Carries(s, r, i)
    ensures OnDisk(s, r)
  {}

  lemma DiskSurvives(s: State, kept: seq<nat>, r: nat)
    requires Outcome(s, kept) && OnDisk(s, r)
    ensures Survives(s, kept, r)
  {}

  lemma {:induction false} RecordAt(log: seq<Record>, n: nat) returns (r: nat)
    requires n < |LogOps(log)|
    ensures r < |log| && |LogOps(log[..r])| <= n < |LogOps(log[..r + 1])|
    decreases |log|
  {
    var init := log[..|log| - 1];
    if n < |LogOps(init)| {
      r := RecordAt(init, n);
      assert init[..r] == log[..r] && init[..r + 1] == log[..r + 1];
    } else {
      r := |log| - 1;
      assert log[..r + 1] == log;
    }
  }

  // ----- a run on which a sync write outlives an earlier one -----

  predicate EndsIn(run: seq<State>, actions: seq<Action>, s: State) {
    IsRun(run, actions) && run[|run| - 1] == s
  }

  ghost predicate Reachable(s: State) {
    exists run, actions :: EndsIn(run, actions, s)
  }

  lemma StartReachable(start: nat)
    ensures Reachable(Init(start))
  {
    assert EndsIn([Init(start)], [], Init(start));
  }

  lemma StepReachable(s: State, a: Action)
    requires Reachable(s) && Enabled(s, a)
    ensures Reachable(Apply(s, a))
  {
    hide Enabled, Apply;
    var run, actions :| EndsIn(run, actions, s);
    assert EndsIn(run + [Apply(s, a)], actions + [a], Apply(s, a));
  }

  /** A writer alone in the queue commits its one operation. */
  function Committed(s: State, i: nat, op: Op, sync: bool): State
    requires |s.files| > 0
  {
    var n, last := s.lastSequence + 1, |s.files| - 1;
    s.(queue := [], done := s.done + {i}, log := s.log + [Record(n, [op])], mem := s.mem[n := op], lastSequence := n,
       files := if sync then s.files[last := s.files[last].(synced := |s.log| + 1)] else s.files)
  }

  predicate Alone(s: State, i: nat, op: Op, bytes: nat, sync: bool) {
    && s.queue == [i] && i < |s.writers| && |s.files| > 0
    && s.writers[i] == Writer(Batch([op], bytes), sync)
  }

  lemma CommitAlone(s: State, i: nat, op: Op, bytes: nat, sync: bool)
    requires Reachable(s) && s.leader.NoLeader? && Alone(s, i, op, bytes, sync)
    ensures Reachable(Committed(s, i, op, sync))
  {
    hide Reachable;
    var n, last := s.lastSequence + 1, |s.files| - 1;
    LeadAlone(s, i, op, bytes, sync);
    var s1 := s.(leader := Leader(1, n, [op], false, 0));
    StepReachable(s1, AddRecord);
    var s2 := s1.(log := s.log + [Record(n, [op])], leader := Leader(1, n, [op], true, 0));
    assert Apply(s1, AddRecord) == s2;
    var s3 := s2;
    if sync {
      s3 := s2.(files := s.files[last := s.files[last].(synced := |s.log| + 1)]);
      StepReachable(s2, Sync);
      assert Apply(s2, Sync) == s3;
    }
    FinishAlone(s3, i, op, bytes, sync);
  }

  lemma LeadAlone(s: State, i: nat, op: Op, bytes: nat, sync: bool)
    requires Reachable(s) && s.leader.NoLeader? && Alone(s, i, op, bytes, sync)
    ensures Reachable(s.(leader := Leader(1, s.lastSequence + 1, [op], false, 0)))
  {
    hide Reachable, IsGroup;
    assert Queue(s) == [s.writers[i]];
    LoneGroup(s.writers[i]);
    OneWriter(Queue(s));
    StepReachable(s, Lead(1));
    assert Flat(Queue(s)[..1]) == [op];
    assert Apply(s, Lead(1)) == s.(leader := Leader(1, s.lastSequence + 1, [op], false, 0));
  }

  lemma FinishAlone(s: State, i: nat, op: Op, bytes: nat, sync: bool)
    requires Reachable(s) && Alone(s, i, op, bytes, sync)
    requires s.leader == Leader(1, s.lastSequence + 1, [op], true, 0)
    requires sync ==> s.files[|s.files| - 1].synced == |s.log|
    ensures var n := s.lastSequence + 1;
      Reachable(s.(queue := [], done := s.done + {i}, mem := s.mem[n := op], lastSequence := n, leader := NoLeader))
  {
    hide Reachable;
    var n := s.lastSequence + 1;
    StepReachable(s, InsertOne);
    var s1 := s.(mem := s.mem[n := op], leader := Leader(1, n, [op], true, 1));
    assert Apply(s, InsertOne) == s1;
    StepReachable(s1, Publish);
    assert s1.queue[..1] == [i] && s1.queue[1..] == [];
    assert Apply(s1, Publish).done == s.done + {i};
    assert Apply(s1, Publish) == s1.(queue := [], done := s.done + {i}, lastSequence := n, leader := NoLeader);
  }

  lemma LoneGroup(w: Writer)
    ensures IsGroup([w], 1)
  {}

  /** Two writes of one operation, the log switched between them. */
  function TwoWrites(op: Op, bytes: nat): State {
    State(0, [Writer(Batch([op], bytes), false), Writer(Batch([op], bytes), true)], [], {0, 1}, NoLeader,
          [Record(1, [op]), Record(2, [op])], [LogFile(0, 0), LogFile(1, 2)], 0, map[1 := op, 2 := op], 2)
  }

  lemma TwoWritesReachable(op: Op, bytes: nat)
    ensures Reachable(TwoWrites(op, bytes))
  {
    hide Reachable;
    var w, v := Writer(Batch([op], bytes), false), Writer(Batch([op], bytes), true);
    StartReachable(0);
    StepReachable(Init(0), Arrive(w));
    var s0 := Init(0).(writers := [w], queue := [0]);
    assert Apply(Init(0), Arrive(w)) == s0;
    CommitAlone(s0, 0, op, bytes, false);
    assert {} + {0} == {0};
    var s1 := s0.(queue := [], done := {0}, log := [Record(1, [op])], mem := map[1 := op], lastSequence := 1);
    assert Committed(s0, 0, op, false) == s1;
    StepReachable(s1, Arrive(v));
    var s2 := s1.(writers := [w, v], queue := [1]);
    assert Apply(s1, Arrive(v)) == s2;
    StepReachable(s2, SwitchLog);
    var s3 := s2.(files := [LogFile(0, 0), LogFile(1, 1)]);
    assert Apply(s2, SwitchLog) == s3;
    CommitAlone(s3, 1, op, bytes, true);
    assert {0} + {1} == {0, 1};
    assert Committed(s3, 1, op, true) == TwoWrites(op, bytes);
  }

  /** The first write is not synced, the log is switched, the second is: a crash may keep the second alone. */
  lemma LaterSyncOutlives(op: Op, bytes: nat)
    ensures var s, kept := TwoWrites(op, bytes), [0, 2];
      && Reachable(s) && Outcome(s, kept)
      && HoldsOp(s, 0, 0, 0) && HoldsOp(s, 1, 1, 0)
      && !Survives(s, kept, 0) && Survives(s, kept, 1)
  {
    var s, kept := TwoWrites(op, bytes), [0, 2];
    TwoWritesReachable(op, bytes);
    assert s.writers[..1] == [s.writers[0]] && s.writers[..0] == [];
    NextWriter(s.writers, 0);
    assert InFile(s, 0, 0) && InFile(s, 1, 1);
  }
}
