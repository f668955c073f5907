/**
 * include/binary_log/detail/ringbuffer_packer.hpp: the same codec over memory of fixed size.
 * The log keeps the newest entries; the index and run-length buffers abort when full.
 */
module RingbufferPackers {
  import opened Bytes
  import opened Args
  import opened IndexFile
  import opened LogFile
  import opened RunLength
  import opened Packers

  /** `Aborted` stands for a call to abort(): the program does not continue. */
  datatype Status = Alive | Aborted {
    predicate IsFailure() {
      Aborted?
    }

    function PropagateFailure(): Status
      requires Aborted?
    {
      this
    }
  }

  predicate Sorted(s: seq<nat>) {
    |s| < 2 || (s[|s| - 2] <= s[|s| - 1] && Sorted(s[..|s| - 1]))
  }

  lemma {:induction false} SortedAt(s: seq<nat>, i: nat, j: nat)
    requires Sorted(s) && i <= j < |s|
    ensures s[i] <= s[j]
    decreases |s|
  {
    if i < j == |s| - 1 {
      SortedAt(s[..|s| - 1], i, j - 1);
    } else if j < |s| - 1 {
      SortedAt(s[..|s| - 1], i, j);
    }
  }

  /**
   * The buffer is the suffix of all bytes written that begins at the offset at the queue's front;
   * the queue holds the offsets of all entries ever begun but the `dropped` oldest.
   */
  ghost predicate SuffixFrom(written: seq<Byte>, starts: seq<nat>, dropped: nat, queue: seq<nat>, buffer: seq<Byte>) {
    if starts == [] then
      dropped == 0 && queue == [] && written == [] && buffer == []
    else
      && starts[0] == 0 && Sorted(starts) && starts[|starts| - 1] <= |written|
      && dropped < |starts| && queue == starts[dropped..]
      && starts[dropped] <= |written| && buffer == written[starts[dropped]..]
  }

  lemma SuffixDrops(written: seq<Byte>, starts: seq<nat>, dropped: nat, queue: seq<nat>, buffer: seq<Byte>)
    requires SuffixFrom(written, starts, dropped, queue, buffer) && dropped + 1 < |starts|
    ensures 1 < |queue| && queue[0] <= queue[1] <= queue[0] + |buffer|
    ensures SuffixFrom(written, starts, dropped + 1, queue[1..], buffer[queue[1] - queue[0]..])
  {
    SortedAt(starts, dropped, dropped + 1);
    SortedAt(starts, dropped + 1, |starts| - 1);
    assert queue[0] == starts[dropped] && queue[1] == starts[dropped + 1];
    assert queue[1..] == starts[dropped + 1..];
    assert buffer[queue[1] - queue[0]..] == written[starts[dropped + 1]..];
  }

  /**
   * With nothing older left to drop, the eviction loop goes on exactly if the entry being written
   * fills the capacity by itself; it then pops that entry's own offset, and the queue is empty.
   */
  lemma OwnOffsetPopped(written: seq<Byte>, starts: seq<nat>, dropped: nat, queue: seq<nat>, buffer: seq<Byte>,
                        bytes: nat, capacity: nat)
    requires SuffixFrom(written, starts, dropped, queue, buffer) && dropped + 1 == |starts|
    ensures queue == [starts[dropped]] && queue[1..] == []
    ensures |buffer| + bytes >= capacity <==> |written| - starts[dropped] + bytes >= capacity
  {
    assert queue == starts[dropped..] == [starts[dropped]];
  }

  /** The first four bytes of the first entry, for a ring of four. */
  lemma EntryAsLargeAsCapacity()
    ensures var queue: seq<nat>, buffer: seq<Byte> := [0], [];
      SuffixFrom([], [0], 0, queue, buffer) && |buffer| + 4 >= 4 && queue[1..] == []
  {
    assert [0] == [0][0..];
  }

  lemma SuffixGrows(written: seq<Byte>, starts: seq<nat>, dropped: nat, queue: seq<nat>, buffer: seq<Byte>,
                    input: seq<Byte>)
    requires SuffixFrom(written, starts, dropped, queue, buffer) && starts != []
    ensures SuffixFrom(written + input, starts, dropped, queue, buffer + input)
  {
    assert (written + input)[starts[dropped]..] == buffer + input;
  }

  lemma SuffixBegins(written: seq<Byte>, starts: seq<nat>, dropped: nat, queue: seq<nat>, buffer: seq<Byte>)
    requires SuffixFrom(written, starts, dropped, queue, buffer)
    ensures SuffixFrom(written, starts + [|written|], dropped, queue + [|written|], buffer)
  {
  }

  class RingbufferPacker {
    const logBufferSize: nat
    var logBufferIndices: seq<nat> // a queue: first out at the front
    var buffer: seq<Byte>          // a deque
    var bufferIndex: nat

    const indexBuffer: array<Byte>
    var indexBufferIndex: nat
    const runlengthBuffer: array<Byte>
    var runlengthBufferIndex: nat

    var runlengthIndex: nat
    var currentRunlength: nat

    // History: every byte and every entry offset there ever was, and how many entries are gone.
    ghost var written: seq<Byte>
    ghost var starts: seq<nat>
    ghost var dropped: nat

    ghost predicate Wired()
      reads `indexBufferIndex, `runlengthBufferIndex, `runlengthIndex, `currentRunlength
    {
      && indexBuffer != runlengthBuffer
      && logBufferSize >= 1 && indexBuffer.Length >= 1 && runlengthBuffer.Length >= 1
      && indexBufferIndex < indexBuffer.Length
      && runlengthBufferIndex < runlengthBuffer.Length
      && runlengthIndex < U16_LIMIT && currentRunlength < U64_LIMIT
    }

    ghost predicate Suffix()
      reads `written, `starts, `dropped, `logBufferIndices, `buffer, `bufferIndex
    {
      bufferIndex == |written| && SuffixFrom(written, starts, dropped, logBufferIndices, buffer)
    }

    /** The buffer stays below capacity, and the last entry dropped could not have been kept. */
    ghost predicate Ring()
      reads `written, `starts, `dropped, `logBufferIndices, `buffer, `bufferIndex
    {
      && Suffix()
      && |buffer| < logBufferSize
      && (dropped > 0 ==> bufferIndex - starts[dropped - 1] >= logBufferSize)
    }

    ghost predicate Valid()
      reads this
    {
      Wired() && Ring()
    }

    ghost function RunlengthStream(): seq<Byte>
      reads `runlengthBufferIndex, runlengthBuffer
      requires runlengthBufferIndex <= runlengthBuffer.Length
    {
      runlengthBuffer[..runlengthBufferIndex]
    }

    ghost function State(): Codec
      reads `written, `indexBufferIndex, `runlengthIndex, `currentRunlength, `runlengthBufferIndex, runlengthBuffer
      requires Wired()
    {
      Codec(runlengthIndex, currentRunlength, written, RunlengthStream())
    }

    ghost function IndexStream(): seq<Byte>
      reads `indexBufferIndex, indexBuffer
      requires indexBufferIndex <= indexBuffer.Length
    {
      indexBuffer[..indexBufferIndex]
    }

    constructor (logSize: nat, indexSize: nat, runlengthSize: nat)
      requires logSize >= 1 && indexSize >= 1 && runlengthSize >= 1
      ensures Valid() && fresh(indexBuffer) && fresh(runlengthBuffer)
      ensures logBufferSize == logSize && indexBuffer.Length == indexSize && runlengthBuffer.Length == runlengthSize
      ensures State() == INITIAL && IndexStream() == [] && starts == [] && dropped == 0
    {
      logBufferSize := logSize;
      logBufferIndices, buffer, bufferIndex := [], [], 0;
      indexBuffer := new Byte[indexSize];
      runlengthBuffer := new Byte[runlengthSize];
      indexBufferIndex, runlengthBufferIndex := 0, 0;
      runlengthIndex, currentRunlength := 0, 0;
      written, starts, dropped := [], [], 0;
    }

    /** Bytes of the entry being written. */
    ghost function Pending(): nat
      reads `written, `starts, `dropped, `logBufferIndices, `buffer, `bufferIndex
      requires Ring() && starts != []
    {
      bufferIndex - starts[|starts| - 1]
    }

    /** One round of the eviction loop: the distance between the two oldest offsets is popped. */
    method DropOldest()
      requires Suffix() && dropped + 1 < |starts|
      modifies this`logBufferIndices, this`buffer, this`dropped
      ensures Suffix() && dropped == old(dropped) + 1
    {
      SuffixDrops(written, starts, dropped, logBufferIndices, buffer);
      ghost var was := buffer;
      var first := logBufferIndices[0];
      logBufferIndices := logBufferIndices[1..];
      var second := logBufferIndices[0];
      var distance := second - first;
      var i := 0;
      while i < distance
        invariant 0 <= i <= distance && buffer == was[i..]
        modifies this`buffer
      {
        buffer := buffer[1..];
        i := i + 1;
      }
      dropped := dropped + 1;
    }

    /**
     * The caller's part: the entry being written fits. Otherwise the loop would pop the entry's
     * own offset and go on to read the front of an empty queue.
     */
    method BufferOrWrite(input: seq<Byte>)
      requires Valid() && starts != []
      requires Pending() + |input| < logBufferSize
      modifies this`logBufferIndices, this`buffer, this`bufferIndex, this`written, this`dropped
      ensures Valid() && old(dropped) <= dropped
      ensures written == old(written) + input
    {
      MakeRoom(|input|);
      ghost var written', kept := written + input, buffer;
      SuffixGrows(written, starts, dropped, logBufferIndices, kept, input);
      PushBack(input);
      bufferIndex := bufferIndex + |input|;
      written := written';
      assert buffer == kept + input;
      assert Suffix();
    }

    method PushBack(input: seq<Byte>)
      modifies this`buffer
      ensures buffer == old(buffer) + input
    {
      var i := 0;
      while i < |input|
        invariant 0 <= i <= |input|
        invariant buffer == old(buffer) + input[..i]
      {
        buffer := buffer + [input[i]];
        i := i + 1;
      }
      assert input[..i] == input;
    }

    /** The eviction loop: oldest entries go until the bytes to come fit below the capacity. */
    method MakeRoom(bytes: nat)
      requires Valid() && starts != [] && Pending() + bytes < logBufferSize
      modifies this`logBufferIndices, this`buffer, this`dropped
      ensures Suffix() && old(dropped) <= dropped && |buffer| + bytes < logBufferSize
      ensures dropped > 0 ==> bufferIndex + bytes - starts[dropped - 1] >= logBufferSize
    {
      while |buffer| + bytes >= logBufferSize
        invariant Suffix() && old(dropped) <= dropped
        invariant dropped > 0 ==> bufferIndex + bytes - starts[dropped - 1] >= logBufferSize
        decreases |logBufferIndices|
      {
        DropOldest();
      }
    }

    method WriteCurrentRunlengthToRunlengthFile() returns (status: Status)
      requires Valid()
      modifies this`runlengthBufferIndex, this`currentRunlength, runlengthBuffer
      ensures Valid()
      ensures status.Alive? <==> |WriteRunlength(old(State())).runs| < runlengthBuffer.Length
      ensures status.Alive? ==> State() == WriteRunlength(old(State()))
    {
      if currentRunlength > 1 {
        var record := Le(runlengthIndex, 2) + Le(currentRunlength, 8);
        if runlengthBufferIndex + |record| >= runlengthBuffer.Length {
          return Aborted;
        }
        Memcpy(runlengthBuffer, runlengthBufferIndex, record);
        runlengthBufferIndex := runlengthBufferIndex + |record|;
        currentRunlength := 0;
      }
      return Alive;
    }

    method FlushAll() returns (status: Status)
      requires Valid()
      modifies this`runlengthBufferIndex, this`currentRunlength, runlengthBuffer
      ensures Valid()
      ensures status.Alive? <==> |Step(old(State()), Flush).runs| < runlengthBuffer.Length
      ensures status.Alive? ==> State() == Step(old(State()), Flush)
    {
      status := WriteCurrentRunlengthToRunlengthFile();
    }

    method PushEntry()
      requires Valid()
      modifies this`logBufferIndices, this`starts
      ensures Valid() && starts == old(starts) + [bufferIndex] && Pending() == 0
    {
      SuffixBegins(written, starts, dropped, logBufferIndices, buffer);
      logBufferIndices := logBufferIndices + [bufferIndex];
      starts := starts + [bufferIndex];
    }

    method CountCall()
      requires Valid()
      modifies this`currentRunlength
      ensures Valid()
      ensures State() == old(State()).(run := (old(State()).run + 1) % U64_LIMIT)
      ensures |State().runs| < runlengthBuffer.Length
    {
      currentRunlength := (currentRunlength + 1) % U64_LIMIT;
    }

    /** The branch that starts a new run: close the current one, write the index. */
    method StartRun(index: nat) returns (status: Status)
      requires Valid() && index < U16_LIMIT && starts != [] && Pending() == 0
      requires logBufferSize > 2
      modifies this`logBufferIndices, this`buffer, this`bufferIndex, this`written, this`dropped
      modifies this`runlengthBufferIndex, this`currentRunlength, this`runlengthIndex, runlengthBuffer
      ensures Valid() && old(dropped) <= dropped
      ensures var c := WriteRunlength(old(State()));
        && (status.Alive? <==> |c.runs| < runlengthBuffer.Length)
        && (status.Alive? ==> State() == c.(log := c.log + Le(index, 2), run := 1, index := index))
    {
      status := WriteCurrentRunlengthToRunlengthFile();
      if status.Alive? {
        BufferOrWrite(Le(index, 2));
        currentRunlength := 1;
        runlengthIndex := index;
      }
    }

    /** The branch for index 0 repeating, or coming first. */
    method CountFirstIndex(index: nat)
      requires Valid() && starts != [] && Pending() == 0
      requires runlengthIndex == index == 0
      requires currentRunlength == 0 ==> logBufferSize > 2
      modifies this`logBufferIndices, this`buffer, this`bufferIndex, this`written, this`dropped
      modifies this`currentRunlength
      ensures Valid() && old(dropped) <= dropped
      ensures State() == PackIndex(old(State()), index)
      ensures |State().runs| < runlengthBuffer.Length
    {
      ghost var c := State();
      RunsAfterPack(c, index);
      if currentRunlength == 0 {
        BufferOrWrite(Le(index, 2));
        assert State() == c.(log := c.log + Le(index, 2));
      }
      CountCall();
    }

    /** The run-length branches, the same as the file packer's. */
    method CountOrStartRun(index: nat) returns (status: Status)
      requires Valid() && index < U16_LIMIT && starts != [] && Pending() == 0
      requires WritesHeader(State(), index) ==> logBufferSize > 2
      modifies this`logBufferIndices, this`buffer, this`bufferIndex, this`written, this`dropped
      modifies this`runlengthBufferIndex, this`currentRunlength, this`runlengthIndex, runlengthBuffer
      ensures Valid() && old(dropped) <= dropped
      ensures status.Alive? ==> State() == PackIndex(old(State()), index)
      ensures status.Alive? <==> |PackIndex(old(State()), index).runs| < runlengthBuffer.Length
    {
      RunsAfterPack(State(), index);
      if runlengthIndex == 0 && index == 0 {
        CountFirstIndex(index);
        return Alive;
      } else {
        if runlengthIndex == index {
          CountCall();
          return Alive;
        } else {
          status := StartRun(index);
        }
      }
    }

    /** Every call pushes its offset first, whether or not it goes on to write anything. */
    method PackFormatStringIndex(index: nat) returns (status: Status)
      requires Valid() && index < U16_LIMIT
      requires WritesHeader(State(), index) ==> logBufferSize > 2
      modifies this, runlengthBuffer
      ensures Valid() && old(dropped) <= dropped
      ensures IndexStream() == old(IndexStream())
      ensures status.Alive? <==> |PackIndex(old(State()), index).runs| < runlengthBuffer.Length
      ensures status.Alive? ==> State() == PackIndex(old(State()), index)
      ensures starts == old(starts) + [old(bufferIndex)]
    {
      PushEntry();
      status := CountOrStartRun(index);
    }

    method WriteArgValueToLogFile(v: Value)
      requires Valid() && starts != []
      requires Pending() + |ArgBytes(v)| < logBufferSize
      modifies this`logBufferIndices, this`buffer, this`bufferIndex, this`written, this`dropped
      ensures Valid() && old(dropped) <= dropped
      ensures written == old(written) + ArgBytes(v)
    {
      if v.IsText() {
        WriteChars(v.chars);
      } else {
        BufferOrWrite(v.Raw());
      }
    }

    method WriteChars(chars: seq<Byte>)
      requires Valid() && starts != []
      requires Pending() + |CountedChars(chars)| < logBufferSize
      modifies this`logBufferIndices, this`buffer, this`bufferIndex, this`written, this`dropped
      ensures Valid() && old(dropped) <= dropped
      ensures written == old(written) + CountedChars(chars)
    {
      var size := |chars| % U16_LIMIT;
      ghost var before, length, body := written, Le(size, 2), chars[..size];
      BufferOrWrite(Le(size, 2));
      BufferOrWrite(chars[..size]);
      Regroup(before, length, body);
    }

    method UpdateLogFile(args: seq<Arg>)
      requires Valid() && starts != []
      requires Pending() + |CallBytes(args)| < logBufferSize
      modifies this`logBufferIndices, this`buffer, this`bufferIndex, this`written, this`dropped
      ensures Valid() && old(dropped) <= dropped
      ensures written == old(written) + CallBytes(args)
    {
      ghost var all := written + CallBytes(args);
      for i := 0 to |args|
        invariant Valid() && old(dropped) <= dropped
        invariant Pending() + |CallBytes(args[i..])| < logBufferSize
        invariant written + CallBytes(args[i..]) == all
      {
        ghost var before := written;
        CallBytesFrom(args, i);
        PackArg(args[i]);
        Regroup(before, PackedBytes(args[i]), CallBytes(args[i + 1..]));
      }
      assert written + [] == written;
    }

    method PackArg(a: Arg)
      requires Valid() && starts != []
      requires Pending() + |PackedBytes(a)| < logBufferSize
      modifies this`logBufferIndices, this`buffer, this`bufferIndex, this`written, this`dropped
      ensures Valid() && old(dropped) <= dropped
      ensures written == old(written) + PackedBytes(a) && Pending() == old(Pending()) + |PackedBytes(a)|
    {
      if !a.isConstant {
        WriteArgValueToLogFile(a.value);
      }
    }

    method BufferOrWriteIndexFile(input: seq<Byte>) returns (status: Status)
      requires Valid()
      modifies this`indexBufferIndex, indexBuffer
      ensures Valid()
      ensures status.Alive? <==> |old(IndexStream())| + |input| < indexBuffer.Length
      ensures status.Alive? ==> IndexStream() == old(IndexStream()) + input
      ensures status.Aborted? ==> IndexStream() == old(IndexStream())
    {
      if indexBufferIndex + |input| >= indexBuffer.Length {
        return Aborted;
      }
      Memcpy(indexBuffer, indexBufferIndex, input);
      indexBufferIndex := indexBufferIndex + |input|;
      return Alive;
    }

    method WriteArgValueToIndexFile(v: Value) returns (status: Status)
      requires Valid()
      modifies this`indexBufferIndex, indexBuffer
      ensures Valid()
      ensures status.Alive? <==> |old(IndexStream())| + |ConstantBytes(v)| < indexBuffer.Length
      ensures status.Alive? ==> IndexStream() == old(IndexStream()) + ConstantBytes(v)
    {
      if !v.IsText() {
        status := BufferOrWriteIndexFile(v.Raw());
      } else {
        var size := |v.chars| % U16_LIMIT;
        ghost var before, chars := IndexStream(), if v.CString? then v.chars[..size] else v.chars;
        :- BufferOrWriteIndexFile(Le(size, 2));
        status := BufferOrWriteIndexFile(if v.CString? then v.chars[..size] else v.chars);
        Regroup(before, Le(size, 2), chars);
      }
    }

    method SaveArgConstness(a: Arg) returns (status: Status)
      requires Valid()
      modifies this`indexBufferIndex, indexBuffer
      ensures Valid()
      ensures status.Alive? <==> |old(IndexStream())| + |ArgConstness(a)| < indexBuffer.Length
      ensures status.Alive? ==> IndexStream() == old(IndexStream()) + ArgConstness(a)
    {
      if !a.isConstant {
        status := BufferOrWriteIndexFile([0]);
      } else {
        ghost var before := IndexStream();
        :- BufferOrWriteIndexFile([1]);
        status := WriteArgValueToIndexFile(a.value);
        Regroup(before, [1], ConstantBytes(a.value));
      }
    }

    method SaveArgTypes(args: seq<Arg>) returns (status: Status)
      requires Valid()
      modifies this`indexBufferIndex, indexBuffer
      ensures Valid()
      ensures status.Alive? <==> |old(IndexStream())| + |TypeBytes(args)| < indexBuffer.Length
      ensures status.Alive? ==> IndexStream() == old(IndexStream()) + TypeBytes(args)
    {
      for i := 0 to |args|
        invariant Valid()
        invariant IndexStream() + TypeBytes(args[i..]) == old(IndexStream()) + TypeBytes(args)
      {
        ghost var before := IndexStream();
        assert args[i..][1..] == args[i + 1..];
        assert |before| + |TypeBytes(args[i..])| == |old(IndexStream())| + |TypeBytes(args)|;
        :- BufferOrWriteIndexFile([TypeByte(args[i].value.Type())]);
        Regroup(before, [TypeByte(args[i].value.Type())], TypeBytes(args[i + 1..]));
      }
      assert IndexStream() + [] == IndexStream();
      return Alive;
    }

    method SaveArgsConstness(args: seq<Arg>) returns (status: Status)
      requires Valid()
      modifies this`indexBufferIndex, indexBuffer
      ensures Valid()
      ensures status.Alive? <==> |old(IndexStream())| + |ConstnessBytes(args)| < indexBuffer.Length
      ensures status.Alive? ==> IndexStream() == old(IndexStream()) + ConstnessBytes(args)
    {
      for i := 0 to |args|
        invariant Valid()
        invariant IndexStream() + ConstnessBytes(args[i..]) == old(IndexStream()) + ConstnessBytes(args)
      {
        ghost var before := IndexStream();
        assert args[i..][1..] == args[i + 1..];
        assert |before| + |ConstnessBytes(args[i..])| == |old(IndexStream())| + |ConstnessBytes(args)|;
        :- SaveArgConstness(args[i]);
        Regroup(before, ArgConstness(args[i]), ConstnessBytes(args[i + 1..]));
      }
      assert IndexStream() + [] == IndexStream();
      return Alive;
    }

    method WriteFormatStringToIndexFile(format: seq<Byte>) returns (status: Status)
      requires Valid()
      modifies this`indexBufferIndex, indexBuffer
      ensures Valid()
      ensures status.Alive? <==> |old(IndexStream())| + |CountedChars(format)| < indexBuffer.Length
      ensures status.Alive? ==> IndexStream() == old(IndexStream()) + CountedChars(format)
    {
      ghost var before := IndexStream();
      var length := |format| % U16_LIMIT;
      :- BufferOrWriteIndexFile(Le(length, 2));
      status := BufferOrWriteIndexFile(format[..length]);
      Regroup(before, Le(length, 2), format[..length]);
    }

    method SaveArgs(args: seq<Arg>) returns (status: Status)
      requires Valid()
      modifies this`indexBufferIndex, indexBuffer
      ensures Valid()
      ensures status.Alive? <==>
        |old(IndexStream())| + |TypeBytes(args) + ConstnessBytes(args)| < indexBuffer.Length
      ensures status.Alive? ==> IndexStream() == old(IndexStream()) + (TypeBytes(args) + ConstnessBytes(args))
    {
      ghost var before := IndexStream();
      :- SaveArgTypes(args);
      status := SaveArgsConstness(args);
      Regroup(before, TypeBytes(args), ConstnessBytes(args));
    }

    /** What log_index asks of the packer: one whole entry. */
    method WriteEntry(format: seq<Byte>, args: seq<Arg>) returns (status: Status)
      requires Valid()
      modifies this`indexBufferIndex, indexBuffer
      ensures Valid()
      ensures status.Alive? <==> |old(IndexStream())| + |EntryBytes(format, args)| < indexBuffer.Length
      ensures status.Alive? ==> IndexStream() == old(IndexStream()) + EntryBytes(format, args)
      ensures State() == old(State())
    {
      ghost var before := IndexStream();
      var numArgs := |args| % 256;
      :- WriteFormatStringToIndexFile(format);
      :- BufferOrWriteIndexFile([numArgs]);
      Regroup(before, CountedChars(format), [numArgs]);
      ghost var head := CountedChars(format) + [numArgs];
      if numArgs > 0 {
        :- SaveArgs(args);
        Regroup(before, head, TypeBytes(args) + ConstnessBytes(args));
      } else {
        assert EntryBytes(format, args) == head;
      }
      return Alive;
    }
  }
}
