/** The ring buffer over whole runs: what it keeps, and that it agrees with the file packer until it is full. */
module PackersAgree {
  import opened Bytes
  import opened Args
  import opened IndexFile
  import opened LogFile
  import opened RunLength
  import opened Packers
  import opened RingbufferPackers

  /** Where the entry of every call begins. */
  function StartsOf(ops: seq<Op>): seq<nat> {
    if ops == [] then []
    else
      var before := ops[..|ops| - 1];
      StartsOf(before) + (if ops[|ops| - 1].Log? then [|After(before).log|] else [])
  }

  predicate LegalOp(op: Op) {
    op.Log? ==> op.index < U16_LIMIT
  }

  /** Bytes the k-th operation writes to the log. */
  function EntrySize(ops: seq<Op>, k: nat): int
    requires k < |ops|
  {
    |After(ops[..k + 1]).log| - |After(ops[..k]).log|
  }

  lemma {:induction false} RunsGrow(ops: seq<Op>, n: nat)
    requires n <= |ops|
    ensures |After(ops[..n]).runs| <= |After(ops).runs|
    ensures |After(ops[..n]).log| <= |After(ops).log|
    decreases |ops|
  {
    if n == |ops| {
      assert ops[..n] == ops;
    } else {
      var before := ops[..|ops| - 1];
      assert before[..n] == ops[..n];
      RunsGrow(before, n);
    }
  }

  lemma StepAt(ops: seq<Op>, k: nat)
    requires k < |ops|
    ensures After(ops[..k + 1]) == Step(After(ops[..k]), ops[k])
    ensures StartsOf(ops[..k + 1])
         == StartsOf(ops[..k]) + (if ops[k].Log? then [|After(ops[..k]).log|] else [])
  {
    assert ops[..k + 1][..k] == ops[..k];
  }

  /** What has been dropped is settled by offsets alone: everything that starts a capacity or more ago. */
  lemma RetainedExactly(starts: seq<nat>, dropped: nat, total: nat, capacity: nat, k: nat)
    requires Sorted(starts) && dropped < |starts| && k < |starts|
    requires total - starts[dropped] < capacity
    requires dropped > 0 ==> total - starts[dropped - 1] >= capacity
    ensures k < dropped <==> total - starts[k] >= capacity
  {
    if k < dropped {
      SortedAt(starts, k, dropped - 1);
    } else {
      SortedAt(starts, dropped, k);
    }
  }

  // ----- What is asked of a packer: index entries and operations, in any order -----

  datatype Action = Register(entry: Registration) | Run(op: Op)

  function OpsIn(actions: seq<Action>): (ops: seq<Op>)
    ensures |ops| <= |actions|
  {
    if actions == [] then []
    else
      var last := actions[|actions| - 1];
      OpsIn(actions[..|actions| - 1]) + (if last.Run? then [last.op] else [])
  }

  function EntriesIn(actions: seq<Action>): seq<Registration> {
    if actions == [] then []
    else
      var last := actions[|actions| - 1];
      EntriesIn(actions[..|actions| - 1]) + (if last.Register? then [last.entry] else [])
  }

  lemma ActionAt(actions: seq<Action>, k: nat)
    requires k < |actions|
    ensures OpsIn(actions[..k + 1]) == OpsIn(actions[..k]) + (if actions[k].Run? then [actions[k].op] else [])
    ensures EntriesIn(actions[..k + 1])
         == EntriesIn(actions[..k]) + (if actions[k].Register? then [actions[k].entry] else [])
  {
    assert actions[..k + 1][..k] == actions[..k];
  }

  lemma {:induction false} ActionsGrow(actions: seq<Action>, n: nat)
    requires n <= |actions|
    ensures OpsIn(actions[..n]) <= OpsIn(actions)
    ensures |IndexBytes(EntriesIn(actions[..n]))| <= |IndexBytes(EntriesIn(actions))|
    decreases |actions|
  {
    if n == |actions| {
      assert actions[..n] == actions;
    } else {
      var before := actions[..|actions| - 1];
      assert before[..n] == actions[..n];
      ActionsGrow(before, n);
      IndexGrows(actions);
    }
  }

  lemma IndexGrows(actions: seq<Action>)
    requires actions != []
    ensures |IndexBytes(EntriesIn(actions[..|actions| - 1]))| <= |IndexBytes(EntriesIn(actions))|
  {
    var before, last := actions[..|actions| - 1], actions[|actions| - 1];
    if last.Register? {
      IndexBytesAppend(EntriesIn(before), last.entry);
    } else {
      assert EntriesIn(actions) == EntriesIn(before);
    }
  }

  /** Each call's entry fits the ring; indices are 16-bit. */
  predicate Fitting(actions: seq<Action>, capacity: nat) {
    var ops := OpsIn(actions);
    && (forall op <- ops :: LegalOp(op))
    && forall k :: 0 <= k < |ops| ==> EntrySize(ops, k) < capacity
  }

  lemma NextOperation(actions: seq<Action>, i: nat)
    requires i < |actions| && actions[i].Run?
    ensures var ops, k, op := OpsIn(actions), |OpsIn(actions[..i])|, actions[i].op;
      && k < |ops| && ops[..k] == OpsIn(actions[..i]) && ops[k] == op
      && After(OpsIn(actions[..i + 1])) == Step(After(OpsIn(actions[..i])), op)
      && StartsOf(OpsIn(actions[..i + 1]))
         == StartsOf(OpsIn(actions[..i])) + (if op.Log? then [|After(OpsIn(actions[..i])).log|] else [])
      && EntrySize(ops, k) == |After(OpsIn(actions[..i + 1])).log| - |After(OpsIn(actions[..i])).log|
      && EntriesIn(actions[..i + 1]) == EntriesIn(actions[..i])
  {
    var ops, k := OpsIn(actions), |OpsIn(actions[..i])|;
    ActionAt(actions, i);
    ActionsGrow(actions, i + 1);
    assert OpsIn(actions[..i + 1]) == ops[..k + 1];
    assert ops[..k + 1][..k] == ops[..k] == OpsIn(actions[..i]);
    StepAt(ops, k);
    assert EntriesIn(actions[..i]) + [] == EntriesIn(actions[..i]);
  }

  /** What the ring packer holds after some actions. */
  ghost predicate RingRan(ring: RingbufferPacker, actions: seq<Action>)
    reads ring, ring.indexBuffer, ring.runlengthBuffer
  {
    && ring.Valid()
    && ring.State() == After(OpsIn(actions)) && ring.starts == StartsOf(OpsIn(actions))
    && ring.IndexStream() == IndexBytes(EntriesIn(actions))
  }

  predicate FitsBuffers(c: Codec, entries: seq<Registration>, runlengthSize: nat, indexSize: nat) {
    |c.runs| < runlengthSize && |IndexBytes(entries)| < indexSize
  }

  method RunRing(ring: RingbufferPacker, actions: seq<Action>) returns (status: Status)
    requires RingRan(ring, []) && Fitting(actions, ring.logBufferSize)
    modifies ring, ring.indexBuffer, ring.runlengthBuffer
    ensures status.Alive? <==>
      FitsBuffers(After(OpsIn(actions)), EntriesIn(actions), ring.runlengthBuffer.Length, ring.indexBuffer.Length)
    ensures status.Alive? ==> RingRan(ring, actions)
  {
    for i := 0 to |actions|
      invariant RingRan(ring, actions[..i])
    {
      FitsPrefix(actions, i + 1, ring.runlengthBuffer.Length, ring.indexBuffer.Length);
      status := ActRing(ring, actions, i);
      if status.Aborted? {
        return Aborted;
      }
    }
    assert actions[..|actions|] == actions;
    return Alive;
  }

  lemma FitsPrefix(actions: seq<Action>, n: nat, runlengthSize: nat, indexSize: nat)
    requires n <= |actions|
    ensures FitsBuffers(After(OpsIn(actions)), EntriesIn(actions), runlengthSize, indexSize) ==>
      FitsBuffers(After(OpsIn(actions[..n])), EntriesIn(actions[..n]), runlengthSize, indexSize)
  {
    ActionsGrow(actions, n);
    var ops, k := OpsIn(actions), |OpsIn(actions[..n])|;
    assert ops[..k] == OpsIn(actions[..n]);
    RunsGrow(ops, k);
  }

  method ActRing(ring: RingbufferPacker, actions: seq<Action>, i: nat) returns (status: Status)
    requires i < |actions| && RingRan(ring, actions[..i]) && Fitting(actions, ring.logBufferSize)
    modifies ring, ring.indexBuffer, ring.runlengthBuffer
    ensures status.Alive? <==> FitsBuffers(After(OpsIn(actions[..i + 1])), EntriesIn(actions[..i + 1]),
                                           ring.runlengthBuffer.Length, ring.indexBuffer.Length)
    ensures status.Alive? ==> RingRan(ring, actions[..i + 1])
  {
    ActionAt(actions, i);
    match actions[i] {
      case Register(entry) =>
        EntryNext(actions, i);
        status := ring.WriteEntry(entry.format, entry.args);
      case Run(op) =>
        NextOperation(actions, i);
        assert LegalOp(op);
        status := StepRing(ring, op, EntrySize(OpsIn(actions), |OpsIn(actions[..i])|));
    }
  }

  lemma EntryNext(actions: seq<Action>, i: nat)
    requires i < |actions| && actions[i].Register?
    ensures OpsIn(actions[..i + 1]) == OpsIn(actions[..i])
    ensures IndexBytes(EntriesIn(actions[..i + 1]))
         == IndexBytes(EntriesIn(actions[..i])) + EntryBytes(actions[i].entry.format, actions[i].entry.args)
  {
    ActionAt(actions, i);
    IndexBytesAppend(EntriesIn(actions[..i]), actions[i].entry);
    assert OpsIn(actions[..i]) + [] == OpsIn(actions[..i]);
  }

  method StepRing(ring: RingbufferPacker, op: Op, ghost size: int) returns (status: Status)
    requires ring.Valid() && LegalOp(op)
    requires size == |Step(ring.State(), op).log| - |ring.State().log| && size < ring.logBufferSize
    modifies ring, ring.runlengthBuffer
    ensures ring.Valid()
    ensures status.Alive? <==> |Step(old(ring.State()), op).runs| < ring.runlengthBuffer.Length
    ensures ring.IndexStream() == old(ring.IndexStream())
    ensures status.Alive? ==>
      && ring.State() == Step(old(ring.State()), op)
      && ring.starts == old(ring.starts) + (if op.Log? then [|old(ring.State().log)|] else [])
  {
    match op {
      case Log(index, args) =>
        ghost var c := ring.State();
        RunsAfterPack(c, index);
        status := ring.PackFormatStringIndex(index);
        if status.Alive? {
          assert ring.Pending() + |CallBytes(args)| == size;
          ring.UpdateLogFile(args);
        }
      case Flush =>
        status := ring.FlushAll();
        assert ring.starts + [] == ring.starts;
    }
  }

  /** What the file packer holds. */
  ghost predicate FileRan(file: Packer, actions: seq<Action>)
    reads file, file.buffer, file.indexBuffer, file.runlengthBuffer
  {
    && file.Valid() && file.State() == After(OpsIn(actions))
    && file.IndexStream() == IndexBytes(EntriesIn(actions))
  }

  method RunFile(file: Packer, actions: seq<Action>)
    requires FileRan(file, [])
    requires forall op <- OpsIn(actions) :: LegalOp(op)
    modifies file, file.buffer, file.indexBuffer, file.runlengthBuffer
    ensures FileRan(file, actions)
  {
    for i := 0 to |actions|
      invariant FileRan(file, actions[..i])
    {
      ActFile(file, actions, i);
    }
    assert actions[..|actions|] == actions;
  }

  method ActFile(file: Packer, actions: seq<Action>, i: nat)
    requires i < |actions| && FileRan(file, actions[..i])
    requires forall op <- OpsIn(actions) :: LegalOp(op)
    modifies file, file.buffer, file.indexBuffer, file.runlengthBuffer
    ensures FileRan(file, actions[..i + 1])
  {
    ActionAt(actions, i);
    match actions[i] {
      case Register(entry) =>
        EntryNext(actions, i);
        file.WriteEntry(entry.format, entry.args);
      case Run(op) =>
        NextOperation(actions, i);
        assert LegalOp(op);
        StepFile(file, op);
    }
  }

  method StepFile(file: Packer, op: Op)
    requires file.Valid() && LegalOp(op)
    modifies file, file.buffer, file.indexBuffer, file.runlengthBuffer
    ensures file.Valid() && file.State() == Step(old(file.State()), op)
    ensures file.IndexStream() == old(file.IndexStream())
  {
    match op {
      case Log(index, args) =>
        file.PackFormatStringIndex(index);
        file.UpdateLogFile(args);
      case Flush =>
        file.FlushAll();
    }
  }

  /** d is the first entry that starts less than a capacity before the end. */
  ghost predicate IsCut(starts: seq<nat>, total: nat, capacity: nat, d: nat) {
    && d < |starts| && starts[d] <= total
    && forall k :: 0 <= k < |starts| ==> (k < d <==> total - starts[k] >= capacity)
  }

  /** What a ring holds, from its invariant: the bytes from the oldest entry within capacity on. */
  ghost predicate Holds(buffer: seq<Byte>, written: seq<Byte>, starts: seq<nat>, capacity: nat) {
    && (|written| < capacity ==> buffer == written)
    && (starts != [] ==> exists d: nat :: IsCut(starts, |written|, capacity, d) && buffer == written[starts[d]..])
  }

  lemma RingHolds(ring: RingbufferPacker)
    requires ring.Valid()
    ensures Holds(ring.buffer, ring.written, ring.starts, ring.logBufferSize)
  {
    if ring.starts != [] {
      forall k: nat | k < |ring.starts|
        ensures k < ring.dropped <==> |ring.written| - ring.starts[k] >= ring.logBufferSize
      {
        RetainedExactly(ring.starts, ring.dropped, |ring.written|, ring.logBufferSize, k);
      }
      assert IsCut(ring.starts, |ring.written|, ring.logBufferSize, ring.dropped);
      assert ring.starts[0] == 0;
    }
  }

  /** The three streams' contents after the calls and a last flush. */
  function Final(ops: seq<Op>): Codec {
    Step(After(ops), Flush)
  }

  method RunRingToEnd(ring: RingbufferPacker, actions: seq<Action>) returns (status: Status)
    requires RingRan(ring, []) && Fitting(actions, ring.logBufferSize)
    modifies ring, ring.indexBuffer, ring.runlengthBuffer
    ensures status.Alive? <==>
      FitsBuffers(Final(OpsIn(actions)), EntriesIn(actions), ring.runlengthBuffer.Length, ring.indexBuffer.Length)
    ensures status.Alive? ==> ring.Valid() && ring.RunlengthStream() == Final(OpsIn(actions)).runs
    ensures status.Alive? ==> ring.IndexStream() == IndexBytes(EntriesIn(actions))
    ensures status.Alive? ==>
      Holds(ring.buffer, Final(OpsIn(actions)).log, StartsOf(OpsIn(actions)), ring.logBufferSize)
  {
    status := RunRing(ring, actions);
    if status.Alive? {
      status := ring.FlushAll();
      if status.Alive? {
        RingHolds(ring);
      }
    }
  }

  method RunFileToEnd(file: Packer, actions: seq<Action>)
    requires FileRan(file, [])
    requires forall op <- OpsIn(actions) :: LegalOp(op)
    modifies file, file.buffer, file.indexBuffer, file.runlengthBuffer
    ensures file.logFile == Final(OpsIn(actions)).log && file.runlengthFile == Final(OpsIn(actions)).runs
    ensures file.indexFile == IndexBytes(EntriesIn(actions))
  {
    RunFile(file, actions);
    file.FlushAll();
  }

  /**
   * Both packers, the same registrations and calls, a final flush. The files are what the index
   * layout and the codec say. The ring packer aborts exactly when the index or run-length bytes
   * reach its buffers' sizes. Otherwise index, run-length and, below its capacity, log bytes are the
   * file packer's; beyond that the ring keeps the suffix of the log that starts at the oldest entry
   * within its capacity.
   */
  method RunBoth(file: Packer, ring: RingbufferPacker, actions: seq<Action>) returns (status: Status)
    requires FileRan(file, []) && RingRan(ring, [])
    requires {file, file.buffer, file.indexBuffer, file.runlengthBuffer}
             !! {ring, ring.indexBuffer, ring.runlengthBuffer}
    requires Fitting(actions, ring.logBufferSize)
    modifies file, file.buffer, file.indexBuffer, file.runlengthBuffer
    modifies ring, ring.indexBuffer, ring.runlengthBuffer
    ensures file.logFile == Final(OpsIn(actions)).log && file.runlengthFile == Final(OpsIn(actions)).runs
    ensures file.indexFile == IndexBytes(EntriesIn(actions))
    ensures status.Alive? <==>
      |file.runlengthFile| < ring.runlengthBuffer.Length && |file.indexFile| < ring.indexBuffer.Length
    ensures status.Alive? ==> ring.Valid() && ring.RunlengthStream() == file.runlengthFile
    ensures status.Alive? ==> ring.IndexStream() == file.indexFile
    ensures status.Alive? ==>
      Holds(ring.buffer, file.logFile, StartsOf(OpsIn(actions)), ring.logBufferSize)
  {
    status := RunRingToEnd(ring, actions);
    RunFileToEnd(file, actions);
  }
}
