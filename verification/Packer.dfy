/** include/binary_log/detail/packer.hpp: three streams, each behind a fixed buffer. */
module Packers {
  import opened Bytes
  import opened Args
  import opened IndexFile
  import opened LogFile
  import opened RunLength
  import opened Wrappers

  const RECORD_SIZE := 10

  /** memcpy of `src` to `dst[at..]`. */
  method Memcpy(dst: array<Byte>, at: nat, src: seq<Byte>)
    requires at + |src| <= dst.Length
    modifies dst
    ensures dst[..at + |src|] == old(dst[..at]) + src
  {
    forall k | 0 <= k < |src| {
      dst[at + k] := src[k];
    }
  }

  /**
   * What the run-length copy loop produces when the buffer holds `size` bytes: every round
   * starts over at the first byte of the record, because the source pointer is not advanced.
   */
  function Slabs(record: seq<Byte>, size: nat, left: nat): (s: seq<Byte>)
    requires 0 < size && left <= |record|
    ensures |s| == left
    decreases left
  {
    if left == 0 then []
    else record[..Min(left, size)] + Slabs(record, size, left - Min(left, size))
  }

  lemma {:induction false} SlabsPrefix(record: seq<Byte>, size: nat, left: nat, k: nat)
    requires 0 < size && k < left <= |record|
    ensures Slabs(record, size, left)[k] == Slabs(record, size, |record|)[k]
    ensures k < size ==> Slabs(record, size, left)[k] == record[k]
    ensures k >= size ==> Slabs(record, size, left)[k] == Slabs(record, size, |record|)[k - size]
    decreases k
  {
    if k >= size {
      SlabsPrefix(record, size, left - size, k - size);
      SlabsPrefix(record, size, |record| - size, k - size);
    }
  }

  lemma {:induction false} SlabsOfPeriodic(record: seq<Byte>, size: nat, k: nat)
    requires 0 < size && k < |record|
    requires forall j :: size <= j < |record| ==> record[j] == record[j - size]
    ensures Slabs(record, size, |record|)[k] == record[k]
    decreases k
  {
    SlabsPrefix(record, size, |record|, k);
    if k >= size {
      SlabsOfPeriodic(record, size, k - size);
    }
  }

  /** The record survives exactly when it fits the buffer, or repeats with the buffer's period. */
  lemma SlabsExactly(record: seq<Byte>, size: nat)
    requires 0 < size
    ensures Slabs(record, size, |record|) == record
       <==> forall k :: size <= k < |record| ==> record[k] == record[k - size]
  {
    if Slabs(record, size, |record|) == record {
      forall k | size <= k < |record|
        ensures record[k] == record[k - size]
      {
        SlabsPrefix(record, size, |record|, k);
      }
    }
    if forall k :: size <= k < |record| ==> record[k] == record[k - size] {
      forall k | 0 <= k < |record|
        ensures Slabs(record, size, |record|)[k] == record[k]
      {
        SlabsOfPeriodic(record, size, k);
      }
    }
  }

  class Packer {
    // What the three files hold so far.
    var logFile: seq<Byte>
    var indexFile: seq<Byte>
    var runlengthFile: seq<Byte>

    const buffer: array<Byte>
    var bufferIndex: nat
    const indexBuffer: array<Byte>
    var indexBufferIndex: nat
    const runlengthBuffer: array<Byte>
    var runlengthBufferIndex: nat

    var runlengthIndex: nat
    var currentRunlength: nat

    /** The least buffer sizes for which every loop below makes progress. */
    ghost predicate Wired()
      reads this
    {
      && buffer != indexBuffer && buffer != runlengthBuffer && indexBuffer != runlengthBuffer
      && buffer.Length >= 1 && indexBuffer.Length >= 2 && runlengthBuffer.Length >= 1
      && bufferIndex <= buffer.Length
      && indexBufferIndex <= indexBuffer.Length
      && runlengthBufferIndex <= runlengthBuffer.Length
      && runlengthIndex < U16_LIMIT && currentRunlength < U64_LIMIT
    }

    /** By SlabsExactly a shorter run-length buffer spoils records. */
    ghost predicate Valid()
      reads this
    {
      Wired() && runlengthBuffer.Length >= RECORD_SIZE
    }

    ghost function LogStream(): seq<Byte>
      reads this, buffer
      requires Wired()
    {
      logFile + buffer[..bufferIndex]
    }

    ghost function IndexStream(): seq<Byte>
      reads this, indexBuffer
      requires Wired()
    {
      indexFile + indexBuffer[..indexBufferIndex]
    }

    ghost function RunlengthStream(): seq<Byte>
      reads this, runlengthBuffer
      requires Wired()
    {
      runlengthFile + runlengthBuffer[..runlengthBufferIndex]
    }

    /** The codec state: everything written, whether or not it has left its buffer. */
    ghost function State(): Codec
      reads this, buffer, runlengthBuffer
      requires Wired()
    {
      Codec(runlengthIndex, currentRunlength, LogStream(), RunlengthStream())
    }

    constructor (logBufferSize: nat, indexBufferSize: nat, runlengthBufferSize: nat)
      requires logBufferSize >= 1 && indexBufferSize >= 2 && runlengthBufferSize >= RECORD_SIZE
      ensures Valid() && fresh(buffer) && fresh(indexBuffer) && fresh(runlengthBuffer)
      ensures buffer.Length == logBufferSize && indexBuffer.Length == indexBufferSize
      ensures runlengthBuffer.Length == runlengthBufferSize
      ensures State() == INITIAL && IndexStream() == []
    {
      logFile, indexFile, runlengthFile := [], [], [];
      buffer := new Byte[logBufferSize];
      indexBuffer := new Byte[indexBufferSize];
      runlengthBuffer := new Byte[runlengthBufferSize];
      bufferIndex, indexBufferIndex, runlengthBufferIndex := 0, 0, 0;
      runlengthIndex, currentRunlength := 0, 0;
    }

    method Fill(input: seq<Byte>)
      requires Valid() && bufferIndex + |input| <= buffer.Length
      modifies this`bufferIndex, buffer
      ensures Valid() && LogStream() == old(LogStream()) + input
    {
      ghost var before := LogStream();
      Memcpy(buffer, bufferIndex, input);
      bufferIndex := bufferIndex + |input|;
      assert LogStream() == before + input;
    }

    method FillIndexBuffer(input: seq<Byte>)
      requires Valid() && indexBufferIndex + |input| <= indexBuffer.Length
      modifies this`indexBufferIndex, indexBuffer
      ensures Valid() && IndexStream() == old(IndexStream()) + input
    {
      ghost var before := IndexStream();
      Memcpy(indexBuffer, indexBufferIndex, input);
      indexBufferIndex := indexBufferIndex + |input|;
      assert IndexStream() == before + input;
    }

    method FillRunlengthBuffer(input: seq<Byte>)
      requires Wired() && runlengthBufferIndex + |input| <= runlengthBuffer.Length
      modifies this`runlengthBufferIndex, runlengthBuffer
      ensures Wired() && RunlengthStream() == old(RunlengthStream()) + input
    {
      ghost var before := RunlengthStream();
      Memcpy(runlengthBuffer, runlengthBufferIndex, input);
      runlengthBufferIndex := runlengthBufferIndex + |input|;
      assert RunlengthStream() == before + input;
    }

    method BufferOrWrite(input: seq<Byte>)
      requires Valid()
      modifies this`logFile, this`bufferIndex, buffer
      ensures Valid()
      ensures LogStream() == old(LogStream()) + input
    {
      var at: nat, bytesLeft: nat := 0, |input|;
      while bytesLeft > 0
        invariant at + bytesLeft == |input| && Valid()
        invariant LogStream() == old(LogStream()) + input[..at]
        decreases bytesLeft
      {
        if bufferIndex + bytesLeft >= buffer.Length {
          logFile := logFile + buffer[..bufferIndex];
          bufferIndex := 0;
          assert buffer[..0] == [];
        }
        var n := Min(bytesLeft, buffer.Length);
        Fill(input[at..at + n]);
        assert input[..at + n] == input[..at] + input[at..at + n];
        at, bytesLeft := at + n, bytesLeft - n;
      }
      assert input[..at] == input;
    }

    method BufferOrWriteIndexFile(input: seq<Byte>)
      requires Valid()
      modifies this`indexFile, this`indexBufferIndex, indexBuffer
      ensures Valid()
      ensures IndexStream() == old(IndexStream()) + input
    {
      var at: nat, bytesLeft: nat := 0, |input|;
      while bytesLeft > 0
        invariant at + bytesLeft == |input| && Valid()
        invariant IndexStream() == old(IndexStream()) + input[..at]
        decreases bytesLeft
      {
        if indexBufferIndex + bytesLeft >= indexBuffer.Length {
          indexFile := indexFile + indexBuffer[..indexBufferIndex];
          indexBufferIndex := 0;
          assert indexBuffer[..0] == [];
        }
        var n := Min(bytesLeft, indexBuffer.Length - 1);
        FillIndexBuffer(input[at..at + n]);
        assert input[..at + n] == input[..at] + input[at..at + n];
        at, bytesLeft := at + n, bytesLeft - n;
      }
      assert input[..at] == input;
    }

    /** The copy loop of the run-length file, for any buffer size at all. */
    method CopyRecord(record: seq<Byte>)
      requires Wired()
      modifies this`runlengthFile, this`runlengthBufferIndex, runlengthBuffer
      ensures Wired()
      ensures RunlengthStream() == old(RunlengthStream()) + Slabs(record, runlengthBuffer.Length, |record|)
    {
      var bytesLeft: nat := |record|;
      while bytesLeft > 0
        invariant bytesLeft <= |record| && Wired()
        invariant RunlengthStream() + Slabs(record, runlengthBuffer.Length, bytesLeft)
               == old(RunlengthStream()) + Slabs(record, runlengthBuffer.Length, |record|)
        decreases bytesLeft
      {
        ghost var before := RunlengthStream();
        if runlengthBufferIndex + bytesLeft >= runlengthBuffer.Length {
          runlengthFile := runlengthFile + runlengthBuffer[..runlengthBufferIndex];
          runlengthBufferIndex := 0;
          assert runlengthBuffer[..0] == [];
        }
        assert RunlengthStream() == before;
        var n := Min(bytesLeft, runlengthBuffer.Length);
        FillRunlengthBuffer(record[..n]);
        bytesLeft := bytesLeft - n;
        Regroup(before, record[..n], Slabs(record, runlengthBuffer.Length, bytesLeft));
      }
    }

    method WriteCurrentRunlengthToRunlengthFile()
      requires Valid()
      modifies this`runlengthFile, this`runlengthBufferIndex, this`currentRunlength, runlengthBuffer
      ensures Valid()
      ensures State() == WriteRunlength(old(State()))
    {
      if currentRunlength > 1 {
        var record := Le(runlengthIndex, 2) + Le(currentRunlength, 8);
        SlabsExactly(record, runlengthBuffer.Length);
        CopyRecord(record);
        currentRunlength := 0;
      }
    }

    method FlushLogFile()
      requires Valid()
      modifies this`logFile, this`bufferIndex
      ensures Valid() && bufferIndex == 0
      ensures LogStream() == old(LogStream())
    {
      logFile := logFile + buffer[..bufferIndex];
      bufferIndex := 0;
      assert buffer[..0] == [];
    }

    method FlushIndexFile()
      requires Valid()
      modifies this`indexFile, this`indexBufferIndex
      ensures Valid() && indexBufferIndex == 0
      ensures IndexStream() == old(IndexStream())
    {
      indexFile := indexFile + indexBuffer[..indexBufferIndex];
      indexBufferIndex := 0;
      assert indexBuffer[..0] == [];
    }

    method FlushRunlengthFile()
      requires Valid()
      modifies this`runlengthFile, this`runlengthBufferIndex, this`currentRunlength, runlengthBuffer
      ensures Valid() && runlengthBufferIndex == 0
      ensures State() == WriteRunlength(old(State()))
    {
      WriteCurrentRunlengthToRunlengthFile();
      runlengthFile := runlengthFile + runlengthBuffer[..runlengthBufferIndex];
      runlengthBufferIndex := 0;
      assert runlengthBuffer[..0] == [];
    }

    /** Afterwards the three files hold all that was ever written. */
    method FlushAll()
      requires Valid()
      modifies this, buffer, indexBuffer, runlengthBuffer
      ensures Valid()
      ensures State() == Step(old(State()), Flush)
      ensures IndexStream() == old(IndexStream())
      ensures logFile == LogStream() && indexFile == IndexStream() && runlengthFile == RunlengthStream()
    {
      FlushIndexFile();
      FlushLogFile();
      FlushRunlengthFile();
      assert buffer[..0] == [] && indexBuffer[..0] == [] && runlengthBuffer[..0] == [];
    }

    method PackFormatStringIndex(index: nat)
      requires Valid() && index < U16_LIMIT
      modifies this, buffer, runlengthBuffer
      ensures Valid()
      ensures State() == PackIndex(old(State()), index)
      ensures IndexStream() == old(IndexStream())
    {
      if runlengthIndex == 0 && index == 0 {
        if currentRunlength == 0 {
          BufferOrWrite(Le(index, 2));
          currentRunlength := (currentRunlength + 1) % U64_LIMIT;
        } else if currentRunlength >= 1 {
          currentRunlength := (currentRunlength + 1) % U64_LIMIT;
        }
      } else {
        if runlengthIndex == index {
          currentRunlength := (currentRunlength + 1) % U64_LIMIT;
        } else {
          WriteCurrentRunlengthToRunlengthFile();
          BufferOrWrite(Le(index, 2));
          currentRunlength := 1;
          runlengthIndex := index;
        }
      }
    }

    method WriteArgValueToLogFile(v: Value)
      requires Valid()
      modifies this`logFile, this`bufferIndex, buffer
      ensures Valid()
      ensures LogStream() == old(LogStream()) + ArgBytes(v)
    {
      ghost var before := LogStream();
      match v {
        case Integer(t, n) =>
          BufferOrWrite(NumberBytes(t, n));
        case Floating(_, raw) =>
          BufferOrWrite(raw);
        case CString(chars) =>
          var size := |chars| % U16_LIMIT;
          BufferOrWrite(Le(size, 2));
          BufferOrWrite(chars[..size]);
          Regroup(before, Le(size, 2), chars[..size]);
        case String(chars) =>
          var size := |chars| % U16_LIMIT;
          BufferOrWrite(Le(size, 2));
          BufferOrWrite(chars[..size]);
          Regroup(before, Le(size, 2), chars[..size]);
      }
    }

    method UpdateLogFile(args: seq<Arg>)
      requires Valid()
      modifies this`logFile, this`bufferIndex, buffer
      ensures Valid()
      ensures LogStream() == old(LogStream()) + CallBytes(args)
    {
      for i := 0 to |args|
        invariant Valid()
        invariant LogStream() + CallBytes(args[i..]) == old(LogStream()) + CallBytes(args)
      {
        ghost var before := LogStream();
        CallBytesFrom(args, i);
        PackArg(args[i]);
        Regroup(before, PackedBytes(args[i]), CallBytes(args[i + 1..]));
      }
      assert LogStream() + [] == LogStream();
    }

    method PackArg(a: Arg)
      requires Valid()
      modifies this`logFile, this`bufferIndex, buffer
      ensures Valid()
      ensures LogStream() == old(LogStream()) + PackedBytes(a)
    {
      if !a.isConstant {
        WriteArgValueToLogFile(a.value);
      }
    }

    method WriteArgValueToIndexFile(v: Value)
      requires Valid()
      modifies this`indexFile, this`indexBufferIndex, indexBuffer
      ensures Valid()
      ensures IndexStream() == old(IndexStream()) + ConstantBytes(v)
    {
      ghost var before := IndexStream();
      match v {
        case Integer(t, n) =>
          BufferOrWriteIndexFile(NumberBytes(t, n));
        case Floating(_, raw) =>
          BufferOrWriteIndexFile(raw);
        case CString(chars) =>
          var size := |chars| % U16_LIMIT;
          BufferOrWriteIndexFile(Le(size, 2));
          BufferOrWriteIndexFile(chars[..size]);
          Regroup(before, Le(size, 2), chars[..size]);
        case String(chars) =>
          var size := |chars| % U16_LIMIT;
          BufferOrWriteIndexFile(Le(size, 2));
          BufferOrWriteIndexFile(chars);
          Regroup(before, Le(size, 2), chars);
      }
    }

    method SaveArgConstness(a: Arg)
      requires Valid()
      modifies this`indexFile, this`indexBufferIndex, indexBuffer
      ensures Valid()
      ensures IndexStream() == old(IndexStream()) + ArgConstness(a)
    {
      if !a.isConstant {
        BufferOrWriteIndexFile([0]);
      } else {
        BufferOrWriteIndexFile([1]);
        WriteArgValueToIndexFile(a.value);
      }
    }

    method SaveArgTypes(args: seq<Arg>)
      requires Valid()
      modifies this`indexFile, this`indexBufferIndex, indexBuffer
      ensures Valid()
      ensures IndexStream() == old(IndexStream()) + TypeBytes(args)
    {
      for i := 0 to |args|
        invariant Valid()
        invariant IndexStream() + TypeBytes(args[i..]) == old(IndexStream()) + TypeBytes(args)
      {
        ghost var before := IndexStream();
        assert args[i..][1..] == args[i + 1..];
        BufferOrWriteIndexFile([TypeByte(args[i].value.Type())]);
        Regroup(before, [TypeByte(args[i].value.Type())], TypeBytes(args[i + 1..]));
      }
      assert IndexStream() + [] == IndexStream();
    }

    method SaveArgsConstness(args: seq<Arg>)
      requires Valid()
      modifies this`indexFile, this`indexBufferIndex, indexBuffer
      ensures Valid()
      ensures IndexStream() == old(IndexStream()) + ConstnessBytes(args)
    {
      for i := 0 to |args|
        invariant Valid()
        invariant IndexStream() + ConstnessBytes(args[i..]) == old(IndexStream()) + ConstnessBytes(args)
      {
        ghost var before := IndexStream();
        assert args[i..][1..] == args[i + 1..];
        SaveArgConstness(args[i]);
        Regroup(before, ArgConstness(args[i]), ConstnessBytes(args[i + 1..]));
      }
      assert IndexStream() + [] == IndexStream();
    }

    /** All the types first, then constness and constants. */
    method UpdateIndexFile(args: seq<Arg>)
      requires Valid()
      modifies this`indexFile, this`indexBufferIndex, indexBuffer
      ensures Valid()
      ensures IndexStream() == old(IndexStream()) + (TypeBytes(args) + ConstnessBytes(args))
    {
      ghost var before := IndexStream();
      SaveArgTypes(args);
      SaveArgsConstness(args);
      Regroup(before, TypeBytes(args), ConstnessBytes(args));
    }

    method WriteFormatStringToIndexFile(format: seq<Byte>)
      requires Valid()
      modifies this`indexFile, this`indexBufferIndex, indexBuffer
      ensures Valid()
      ensures IndexStream() == old(IndexStream()) + CountedChars(format)
    {
      var length := |format| % U16_LIMIT;
      BufferOrWriteIndexFile(Le(length, 2));
      BufferOrWriteIndexFile(format[..length]);
    }

    method WriteNumArgsToIndexFile(numArgs: Byte)
      requires Valid()
      modifies this`indexFile, this`indexBufferIndex, indexBuffer
      ensures Valid()
      ensures IndexStream() == old(IndexStream()) + [numArgs]
    {
      BufferOrWriteIndexFile([numArgs]);
    }

    /** What log_index asks of the packer: one whole entry. */
    method WriteEntry(format: seq<Byte>, args: seq<Arg>)
      requires Valid()
      modifies this`indexFile, this`indexBufferIndex, indexBuffer
      ensures Valid()
      ensures IndexStream() == old(IndexStream()) + EntryBytes(format, args)
      ensures State() == old(State())
    {
      ghost var before := IndexStream();
      var numArgs := |args| % 256;
      WriteFormatStringToIndexFile(format);
      WriteNumArgsToIndexFile(numArgs);
      ghost var body := if numArgs > 0 then TypeBytes(args) + ConstnessBytes(args) else [];
      if numArgs > 0 {
        UpdateIndexFile(args);
      }
      assert IndexStream() == before + CountedChars(format) + [numArgs] + body;
      Regroup(before, CountedChars(format) + [numArgs], body);
      Regroup(before, CountedChars(format), [numArgs]);
    }
  }
}
