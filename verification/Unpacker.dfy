/**
 * tools/unpacker: the two parsers, with their cursors into mapped files. A read outside the
 * mapping is `None`; what the specification functions call `None` is exactly that.
 */
module Unpacker {
  import opened Wrappers
  import opened Bytes
  import opened Args
  import opened IndexFile
  import opened LogFile

  class IndexFileParser {
    const buffer: seq<Byte>
    var index: nat
    var entries: seq<IndexEntry>

    ghost predicate Valid()
      reads this
    {
      index <= |buffer|
    }

    ghost function Unread(): seq<Byte>
      reads this
      requires Valid()
    {
      buffer[index..]
    }

    constructor (mapped: seq<Byte>)
      ensures Valid() && buffer == mapped && Unread() == mapped && entries == []
    {
      buffer := mapped;
      index := 0;
      entries := [];
    }

    /** The next `n` bytes. */
    method Next(n: nat) returns (r: Option<seq<Byte>>)
      requires Valid()
      modifies this`index
      ensures Valid()
      ensures r.Some? <==> Take(old(Unread()), n).Some?
      ensures r.Some? ==> Take(old(Unread()), n) == Some((r.value, Unread()))
    {
      if index + n > |buffer| {
        return None;
      }
      r := Some(buffer[index..index + n]);
      Window(buffer, index, n);
      index := index + n;
    }

    method NextData(kind: FmtArgType) returns (r: Option<seq<Byte>>)
      requires Valid()
      modifies this`index
      ensures Valid()
      ensures r.Some? <==> TakeData(kind, old(Unread())).Some?
      ensures r.Some? ==> TakeData(kind, old(Unread())) == Some((r.value, Unread()))
    {
      var size := SizeofArgType(kind);
      if kind == TypeString {
        var twoBytes :- Next(2);
        size := FromLe(twoBytes);
      }
      r := Next(size);
    }

    method ParseArg(kind: FmtArgType) returns (r: Option<IndexArg>)
      requires Valid()
      modifies this`index
      ensures Valid()
      ensures r.Some? <==> IndexFile.ParseArg(kind, old(Unread())).Some?
      ensures r.Some? ==> IndexFile.ParseArg(kind, old(Unread())) == Some((r.value, Unread()))
    {
      var flag :- Next(1);
      if flag[0] != 0 {
        var data :- NextData(kind);
        return Some(IndexArg(kind, true, data));
      }
      return Some(IndexArg(kind, false, []));
    }

    method ParseArgs(types: seq<Byte>) returns (r: Option<seq<IndexArg>>)
      requires Valid()
      modifies this`index
      ensures Valid()
      ensures r.Some? <==> IndexFile.ParseArgs(types, old(Unread())).Some?
      ensures r.Some? ==> IndexFile.ParseArgs(types, old(Unread())) == Some((r.value, Unread()))
    {
      var args: seq<IndexArg> := [];
      NothingDone(IndexFile.ParseArgs(types, Unread()), None);
      assert types[0..] == types;
      for i := 0 to |types|
        invariant Valid()
        invariant IndexFile.ParseArgs(types, old(Unread()))
               == Then(args, IndexFile.ParseArgs(types[i..], Unread()))
      {
        assert types[i..][1..] == types[i + 1..];
        ghost var before := args;
        var arg :- ParseArg(TypeOfByte(types[i]));
        args := args + [arg];
        AfterStep(before, arg, IndexFile.ParseArgs(types[i + 1..], Unread()));
      }
      assert args + [] == args;
      return Some(args);
    }

    method ParseEntry() returns (ok: bool)
      requires Valid()
      modifies this
      ensures Valid()
      ensures ok <==> IndexFile.ParseEntry(old(Unread())).Some?
      ensures ok ==> exists entry ::
        entries == old(entries) + [entry] && IndexFile.ParseEntry(old(Unread())) == Some((entry, Unread()))
    {
      var size := Next(2);
      if size.None? {
        return false;
      }
      var format := Next(FromLe(size.value));
      if format.None? {
        return false;
      }
      var count := Next(1);
      if count.None? {
        return false;
      }
      var types := Next(count.value[0]);
      if types.None? {
        return false;
      }
      var args := ParseArgs(types.value);
      if args.None? {
        return false;
      }
      entries := entries + [IndexEntry(format.value, args.value)];
      return true;
    }

    method Parse() returns (r: Option<seq<IndexEntry>>)
      requires Valid() && entries == []
      modifies this
      ensures r == IndexFile.Parse(old(Unread()))
    {
      NothingDone(None, IndexFile.Parse(Unread()));
      while index < |buffer|
        invariant Valid()
        invariant IndexFile.Parse(old(Unread())) == Prepend(entries, IndexFile.Parse(Unread()))
        decreases |buffer| - index
      {
        ghost var before, unread := entries, Unread();
        var ok := ParseEntry();
        if !ok {
          return None;
        }
        PrependStep(before, entries[|before|], IndexFile.Parse(Unread()));
      }
      assert entries + [] == entries;
      return Some(entries);
    }
  }

  // ----- Loops that collect results: done so far, then what the specification says of the rest -----

  ghost function Then<T>(done: seq<T>, rest: Option<(seq<T>, seq<Byte>)>): Option<(seq<T>, seq<Byte>)> {
    if rest.None? then None else Some((done + rest.value.0, rest.value.1))
  }

  ghost function Prepend<T>(done: seq<T>, rest: Option<seq<T>>): Option<seq<T>> {
    if rest.None? then None else Some(done + rest.value)
  }

  lemma NothingDone<T>(run: Option<(seq<T>, seq<Byte>)>, all: Option<seq<T>>)
    ensures Then([], run) == run && Prepend([], all) == all
  {
    if run.Some? {
      assert [] + run.value.0 == run.value.0;
    }
    if all.Some? {
      assert [] + all.value == all.value;
    }
  }

  lemma AfterStep<T>(done: seq<T>, x: T, rest: Option<(seq<T>, seq<Byte>)>)
    ensures Then(done + [x], rest) == Then(done, Then([x], rest))
  {
    if rest.Some? {
      Regroup(done, [x], rest.value.0);
    }
  }

  lemma PrependStep<T>(done: seq<T>, x: T, rest: Option<seq<T>>)
    ensures Prepend(done + [x], rest) == Prepend(done, Prepend([x], rest))
  {
    if rest.Some? {
      Regroup(done, [x], rest.value);
    }
  }

  lemma ThenMore<T>(done: seq<T>, more: seq<T>, rest: Option<(seq<T>, seq<Byte>)>)
    ensures Then(done + more, rest) == Then(done, Then(more, rest))
  {
    if rest.Some? {
      Regroup(done, more, rest.value.0);
    }
  }

  class LogFileParser {
    const logfile: seq<Byte>
    var logfileIndex: nat
    const runlengthfile: seq<Byte>
    var runlengthfileIndex: nat
    var printed: seq<Entry> // what each line was printed from

    ghost predicate Valid()
      reads `logfileIndex, `runlengthfileIndex
    {
      logfileIndex <= |logfile| && runlengthfileIndex <= |runlengthfile|
    }

    ghost function UnreadLog(): seq<Byte>
      reads `logfileIndex, `runlengthfileIndex
      requires Valid()
    {
      logfile[logfileIndex..]
    }

    ghost function UnreadRuns(): seq<Byte>
      reads `logfileIndex, `runlengthfileIndex
      requires Valid()
    {
      runlengthfile[runlengthfileIndex..]
    }

    constructor (mappedLog: seq<Byte>, mappedRunlengths: seq<Byte>)
      ensures Valid() && UnreadLog() == mappedLog && UnreadRuns() == mappedRunlengths && printed == []
    {
      logfile, runlengthfile := mappedLog, mappedRunlengths;
      logfileIndex, runlengthfileIndex := 0, 0;
      printed := [];
    }

    method NextLog(n: nat) returns (r: Option<seq<Byte>>)
      requires Valid()
      modifies this`logfileIndex
      ensures Valid()
      ensures r.Some? <==> Take(old(UnreadLog()), n).Some?
      ensures r.Some? ==> Take(old(UnreadLog()), n) == Some((r.value, UnreadLog()))
    {
      if logfileIndex + n > |logfile| {
        return None;
      }
      r := Some(logfile[logfileIndex..logfileIndex + n]);
      Window(logfile, logfileIndex, n);
      logfileIndex := logfileIndex + n;
    }

    method NextRuns(n: nat) returns (r: Option<seq<Byte>>)
      requires Valid()
      modifies this`runlengthfileIndex
      ensures Valid()
      ensures r.Some? <==> Take(old(UnreadRuns()), n).Some?
      ensures r.Some? ==> Take(old(UnreadRuns()), n) == Some((r.value, UnreadRuns()))
    {
      if runlengthfileIndex + n > |runlengthfile| {
        return None;
      }
      r := Some(runlengthfile[runlengthfileIndex..runlengthfileIndex + n]);
      Window(runlengthfile, runlengthfileIndex, n);
      runlengthfileIndex := runlengthfileIndex + n;
    }

    method ParseArg(info: IndexArg) returns (r: Option<ArgValue>)
      requires Valid()
      modifies this`logfileIndex
      ensures Valid()
      ensures r.Some? <==> DecodeArg(info, old(UnreadLog())).Some?
      ensures r.Some? ==> DecodeArg(info, old(UnreadLog())) == Some((r.value, UnreadLog()))
    {
      if info.isConstant {
        return Some(ArgValue(info.kind, info.data));
      }
      var size := SizeofArgType(info.kind);
      if info.kind == TypeString {
        var twoBytes :- NextLog(2);
        size := FromLe(twoBytes);
      }
      var data :- NextLog(size);
      return Some(ArgValue(info.kind, data));
    }

    method ParseArgs(infos: seq<IndexArg>) returns (r: Option<seq<ArgValue>>)
      requires Valid()
      modifies this`logfileIndex
      ensures Valid()
      ensures r.Some? <==> DecodeArgs(infos, old(UnreadLog())).Some?
      ensures r.Some? ==> DecodeArgs(infos, old(UnreadLog())) == Some((r.value, UnreadLog()))
    {
      var store: seq<ArgValue> := [];
      NothingDone(DecodeArgs(infos, UnreadLog()), None);
      assert infos[0..] == infos;
      for i := 0 to |infos|
        invariant Valid()
        invariant DecodeArgs(infos, old(UnreadLog())) == Then(store, DecodeArgs(infos[i..], UnreadLog()))
      {
        assert infos[i..][1..] == infos[i + 1..];
        ghost var before := store;
        var v :- ParseArg(infos[i]);
        store := store + [v];
        AfterStep(before, v, DecodeArgs(infos[i + 1..], UnreadLog()));
      }
      assert store + [] == store;
      return Some(store);
    }

    /** The header, and how many calls it stands for. */
    method ParseHeader() returns (r: Option<(nat, nat)>)
      requires Valid()
      modifies this`logfileIndex, this`runlengthfileIndex
      ensures Valid()
      ensures r.Some? <==>
        && Take(old(UnreadLog()), 2).Some?
        && TakeCount(FromLe(old(UnreadLog())[..2]), old(UnreadRuns())).Some?
      ensures r.Some? ==>
        && Take(old(UnreadLog()), 2).value.1 == UnreadLog()
        && r.value.0 == FromLe(old(UnreadLog())[..2])
        && TakeCount(r.value.0, old(UnreadRuns())) == Some((r.value.1, UnreadRuns()))
    {
      var header :- NextLog(2);
      var index := FromLe(header);
      if |runlengthfile| == 0 || runlengthfileIndex >= |runlengthfile| {
        return Some((index, 1));
      }
      if runlengthfileIndex + 2 > |runlengthfile| {
        return None;
      }
      Window(runlengthfile, runlengthfileIndex, 2);
      var indexInRunlengthFile := FromLe(runlengthfile[runlengthfileIndex..runlengthfileIndex + 2]);
      if indexInRunlengthFile == index {
        Window(runlengthfile, runlengthfileIndex, 2);
        runlengthfileIndex := runlengthfileIndex + 2;
        var count :- NextRuns(8);
        return Some((index, FromLe(count)));
      } else {
        return Some((index, 1));
      }
    }

    /** Prints the entry of one call. */
    method PrintCall(index: nat, row: IndexEntry, ghost calls: nat) returns (line: Option<Entry>)
      requires Valid() && calls > 0
      modifies this`logfileIndex, this`printed
      ensures Valid()
      ensures line.None? ==> DecodeRun(index, row, calls, old(UnreadLog())).None?
      ensures line.Some? ==>
        && printed == old(printed) + [line.value]
        && DecodeRun(index, row, calls, old(UnreadLog()))
           == Then([line.value], DecodeRun(index, row, calls - 1, UnreadLog()))
    {
      var args :- ParseArgs(row.args);
      line := Some(Entry(index, row.format, args));
      printed := printed + [line.value];
    }

    /** Prints one entry per call of the run. */
    method PrintRun(index: nat, row: IndexEntry, runlength: nat) returns (ok: bool)
      requires Valid()
      modifies this`logfileIndex, this`printed
      ensures Valid()
      ensures ok <==> DecodeRun(index, row, runlength, old(UnreadLog())).Some?
      ensures ok ==> exists es ::
        printed == old(printed) + es && DecodeRun(index, row, runlength, old(UnreadLog())) == Some((es, UnreadLog()))
    {
      ghost var was, whole := printed, DecodeRun(index, row, runlength, UnreadLog());
      ghost var es: seq<Entry> := [];
      NothingDone(whole, None);
      assert was + es == was;
      for i := 0 to runlength
        invariant Valid() && printed == was + es
        invariant whole == Then(es, DecodeRun(index, row, runlength - i, UnreadLog()))
      {
        ghost var before := es;
        var line := PrintCall(index, row, runlength - i);
        if line.None? {
          return false;
        }
        AfterStep(before, line.value, DecodeRun(index, row, runlength - i - 1, UnreadLog()));
        Regroup(was, before, [line.value]);
        es := before + [line.value];
      }
      assert es + [] == es;
      return true;
    }

    /** To the end of the log; what is left of the run-length file stays unread. */
    method ParseAndPrint(table: seq<IndexEntry>) returns (ok: bool)
      requires Valid() && printed == []
      modifies this
      ensures Valid()
      ensures ok <==> DecodeLog(table, old(UnreadLog()), old(UnreadRuns())).Some?
      ensures ok ==> UnreadLog() == []
      ensures ok ==> DecodeLog(table, old(UnreadLog()), old(UnreadRuns())) == Some((printed, UnreadRuns()))
    {
      ghost var whole := DecodeLog(table, UnreadLog(), UnreadRuns());
      NothingDone(whole, None);
      while logfileIndex < |logfile|
        invariant Valid()
        invariant whole == Then(printed, DecodeLog(table, UnreadLog(), UnreadRuns()))
        decreases |logfile| - logfileIndex
      {
        ghost var before, size := printed, |UnreadLog()|;
        var header := ParseHeader();
        if header.None? {
          return false;
        }
        var (index, runlength) := header.value;
        if index >= |table| {
          return false;
        }
        var okRun := PrintRun(index, table[index], runlength);
        if !okRun {
          return false;
        }
        assert |UnreadLog()| < size;
        ThenMore(before, printed[|before|..], DecodeLog(table, UnreadLog(), UnreadRuns()));
      }
      assert printed + [] == printed;
      return true;
    }
  }
}
