/** The log and run-length files: record layout, and the decoder that walks both with two cursors. */
module LogFile {
  import opened Wrappers
  import opened Bytes
  import opened Args
  import opened IndexFile

  // ----- Layout -----

  function ArgBytes(v: Value): seq<Byte> {
    if v.IsText() then CountedChars(v.chars) else v.Raw()
  }

  /** Constants leave nothing in the log. */
  function PackedBytes(a: Arg): seq<Byte> {
    if a.isConstant then [] else ArgBytes(a.value)
  }

  /** The arguments of one call. */
  function CallBytes(args: seq<Arg>): seq<Byte> {
    if args == [] then [] else PackedBytes(args[0]) + CallBytes(args[1..])
  }

  lemma CallBytesFrom(args: seq<Arg>, i: nat)
    requires i < |args|
    ensures CallBytes(args[i..]) == PackedBytes(args[i]) + CallBytes(args[i + 1..])
    ensures |CallBytes(args[i..])| == |PackedBytes(args[i])| + |CallBytes(args[i + 1..])|
  {
    assert args[i..][1..] == args[i + 1..];
  }

  /** A run-length record, written for a run of more than one call. */
  datatype Rec = Rec(index: nat, count: nat) {
    predicate Valid() {
      index < U16_LIMIT && count < U64_LIMIT
    }

    function Bytes(): seq<Byte> {
      Le(index, 2) + Le(count, 8)
    }
  }

  function RunsBytes(recs: seq<Rec>): seq<Byte> {
    if recs == [] then [] else recs[0].Bytes() + RunsBytes(recs[1..])
  }

  lemma {:induction false} RunsBytesAppend(recs: seq<Rec>, r: Rec)
    ensures RunsBytes(recs + [r]) == RunsBytes(recs) + r.Bytes()
  {
    if recs == [] {
      assert (recs + [r])[1..] == [];
    } else {
      assert (recs + [r])[1..] == recs[1..] + [r];
      RunsBytesAppend(recs[1..], r);
    }
  }

  // ----- Decoding -----

  datatype ArgValue = ArgValue(kind: FmtArgType, data: seq<Byte>)

  /** What one line is printed from: a table row, that row's format string, and the argument values. */
  datatype Entry = Entry(index: nat, format: seq<Byte>, args: seq<ArgValue>)

  /** What can be seen of it: the row is not printed, and bytes are printed as what their type says. */
  datatype Line = Line(format: seq<Byte>, args: seq<Shown>)

  function ShownArgs(vs: seq<ArgValue>): (shown: seq<Shown>)
    ensures |shown| == |vs|
    ensures forall k :: 0 <= k < |vs| ==> shown[k] == UpdateStore(vs[k].kind, vs[k].data)
  {
    seq(|vs|, k requires 0 <= k < |vs| => UpdateStore(vs[k].kind, vs[k].data))
  }

  function Lines(es: seq<Entry>): (lines: seq<Line>)
    ensures |lines| == |es|
    ensures forall k :: 0 <= k < |es| ==> lines[k] == Line(es[k].format, ShownArgs(es[k].args))
  {
    seq(|es|, k requires 0 <= k < |es| => Line(es[k].format, ShownArgs(es[k].args)))
  }

  function DecodeArg(info: IndexArg, s: seq<Byte>): (r: Option<(ArgValue, seq<Byte>)>)
    ensures r.Some? ==> |r.value.1| <= |s|
  {
    if info.isConstant then Some((ArgValue(info.kind, info.data), s))
    else
      var (data, rest) :- TakeData(info.kind, s);
      Some((ArgValue(info.kind, data), rest))
  }

  function DecodeArgs(infos: seq<IndexArg>, s: seq<Byte>): (r: Option<(seq<ArgValue>, seq<Byte>)>)
    ensures r.Some? ==> |r.value.1| <= |s|
    decreases |infos|
  {
    if infos == [] then Some(([], s))
    else
      var (v, rest) :- DecodeArg(infos[0], s);
      var (vs, rest') :- DecodeArgs(infos[1..], rest);
      Some(([v] + vs, rest'))
  }

  /** `n` calls of the same row, one after the other. */
  function DecodeRun(index: nat, row: IndexEntry, n: nat, s: seq<Byte>): (r: Option<(seq<Entry>, seq<Byte>)>)
    ensures r.Some? ==> |r.value.1| <= |s| && |r.value.0| == n
    decreases n
  {
    if n == 0 then Some(([], s))
    else
      var (args, rest) :- DecodeArgs(row.args, s);
      var (entries, rest') :- DecodeRun(index, row, n - 1, rest);
      Some(([Entry(index, row.format, args)] + entries, rest'))
  }

  /** The next run-length record belongs to this header if and only if it carries the same index. */
  function TakeCount(index: nat, runs: seq<Byte>): Option<(nat, seq<Byte>)> {
    if runs == [] then Some((1, runs))
    else
      var (i, rest) :- Take(runs, 2);
      if FromLe(i) == index then
        var (count, rest') :- Take(rest, 8);
        Some((FromLe(count), rest'))
      else
        Some((1, runs))
  }

  /** The whole unpacker, and what it leaves of the run-length file; `None` when it reads outside an input. */
  function DecodeLog(table: seq<IndexEntry>, s: seq<Byte>, runs: seq<Byte>): Option<(seq<Entry>, seq<Byte>)>
    decreases |s|
  {
    if s == [] then Some(([], runs))
    else
      var (header, s1) :- Take(s, 2);
      var index := FromLe(header);
      var (n, runs') :- TakeCount(index, runs);
      if index >= |table| then None
      else
        var (entries, s2) :- DecodeRun(index, table[index], n, s1);
        var (more, left) :- DecodeLog(table, s2, runs');
        Some((entries + more, left))
  }

  /** The entries alone. */
  function Decoded<T>(r: Option<(seq<Entry>, T)>): Option<seq<Entry>> {
    if r.None? then None else Some(r.value.0)
  }

  // ----- The same decoder over parsed records -----

  function TakeRec(index: nat, recs: seq<Rec>): (nat, seq<Rec>) {
    if recs != [] && recs[0].index == index then (recs[0].count, recs[1..]) else (1, recs)
  }

  function DecodeRecs(table: seq<IndexEntry>, s: seq<Byte>, recs: seq<Rec>): (r: Option<(seq<Entry>, seq<Rec>)>)
    ensures r.Some? ==> |r.value.1| <= |recs| && r.value.1 == recs[|recs| - |r.value.1|..]
    decreases |s|
  {
    if s == [] then Some(([], recs))
    else
      var (header, s1) :- Take(s, 2);
      var index := FromLe(header);
      var (n, recs') := TakeRec(index, recs);
      if index >= |table| then None
      else
        var (entries, s2) :- DecodeRun(index, table[index], n, s1);
        var (more, left) :- DecodeRecs(table, s2, recs');
        Some((entries + more, left))
  }

  lemma TakeCountIsTakeRec(index: nat, recs: seq<Rec>)
    requires forall r <- recs :: r.Valid()
    ensures var (n, recs') := TakeRec(index, recs);
      TakeCount(index, RunsBytes(recs)) == Some((n, RunsBytes(recs')))
  {
    if recs != [] {
      var r := recs[0];
      assert r in recs;
      TakeAfter(Le(r.index, 2), Le(r.count, 8), RunsBytes(recs[1..]));
      TakeFront(Le(r.count, 8), RunsBytes(recs[1..]));
      U16RoundTrip(r.index);
      U64RoundTrip(r.count);
    }
  }

  lemma {:induction false} DecodeLogIsDecodeRecs(table: seq<IndexEntry>, s: seq<Byte>, recs: seq<Rec>)
    requires forall r <- recs :: r.Valid()
    ensures var r := DecodeRecs(table, s, recs);
      DecodeLog(table, s, RunsBytes(recs)) == if r.None? then None else Some((r.value.0, RunsBytes(r.value.1)))
    decreases |s|
  {
    if 2 <= |s| {
      var (header, s1) := Take(s, 2).value;
      var index := FromLe(header);
      TakeCountIsTakeRec(index, recs);
      var (n, recs') := TakeRec(index, recs);
      if index < |table| && DecodeRun(index, table[index], n, s1).Some? {
        DecodeLogIsDecodeRecs(table, DecodeRun(index, table[index], n, s1).value.1, recs');
      }
    }
  }

  // ----- One call -----

  function ValuesOf(args: seq<Arg>): (vs: seq<ArgValue>)
    ensures |vs| == |args|
  {
    if args == [] then [] else [ArgValue(args[0].value.Type(), args[0].value.Data())] + ValuesOf(args[1..])
  }

  lemma {:induction false} ValuesAt(args: seq<Arg>, k: nat)
    requires k < |args|
    ensures ValuesOf(args)[k] == ArgValue(args[k].value.Type(), args[k].value.Data())
  {
    if k > 0 {
      ValuesAt(args[1..], k - 1);
    }
  }

  /** What the arguments of a call are meant to be printed as. */
  function Meanings(args: seq<Arg>): (shown: seq<Shown>)
    ensures |shown| == |args|
  {
    seq(|args|, k requires 0 <= k < |args| => args[k].value.Meaning())
  }

  /** A known type, and data of its size unless it is a string. */
  predicate WellTyped(v: ArgValue) {
    !v.kind.TypeInvalid? && (v.kind.TypeString? || |v.data| == SizeofArgType(v.kind))
  }

  /** The values to be found have the types of the arguments and show what the arguments are. */
  lemma ValuesMean(args: seq<Arg>)
    requires ValidArgs(args)
    ensures ShownArgs(ValuesOf(args)) == Meanings(args)
    ensures forall k :: 0 <= k < |args| ==> LoggedAs(args[k].value, ValuesOf(args)[k].kind)
    ensures forall v <- ValuesOf(args) :: WellTyped(v)
  {
    forall k | 0 <= k < |args|
      ensures ShownArgs(ValuesOf(args))[k] == Meanings(args)[k]
      ensures LoggedAs(args[k].value, ValuesOf(args)[k].kind)
      ensures WellTyped(ValuesOf(args)[k])
    {
      var v := args[k].value;
      assert args[k] in args;
      ValuesAt(args, k);
      DataShows(v);
      if !v.IsText() {
        RawSize(v);
      }
    }
  }

  predicate Fits(args: seq<Arg>) {
    ValidArgs(args) && forall a <- args :: FitsU16(a.value.Data())
  }

  lemma {:induction false} DecodeCall(args: seq<Arg>, rest: seq<Byte>)
    requires Fits(args)
    ensures DecodeArgs(DescribedArgs(args), CallBytes(args) + rest) == Some((ValuesOf(args), rest))
    decreases |args|
  {
    if args == [] {
      assert CallBytes(args) + rest == rest;
    } else {
      var a := args[0];
      assert a in args;
      var front := PackedBytes(a);
      var back := CallBytes(args[1..]) + rest;
      assert CallBytes(args) + rest == front + back;
      DecodeCall(args[1..], rest);
      if a.isConstant {
        assert front + back == back;
      } else if a.value.IsText() {
        TakeChars(a.value.chars, back);
      } else {
        RawSize(a.value);
        TakeFront(a.value.Raw(), back);
      }
      assert DescribedArgs(args)[1..] == DescribedArgs(args[1..]);
    }
  }

  function CallsBytes(calls: seq<seq<Arg>>): seq<Byte> {
    if calls == [] then [] else CallBytes(calls[0]) + CallsBytes(calls[1..])
  }

  lemma {:induction false} CallsBytesAppend(calls: seq<seq<Arg>>, args: seq<Arg>)
    ensures CallsBytes(calls + [args]) == CallsBytes(calls) + CallBytes(args)
  {
    if calls == [] {
      assert (calls + [args])[1..] == [];
    } else {
      assert (calls + [args])[1..] == calls[1..] + [args];
      CallsBytesAppend(calls[1..], args);
    }
  }

  function EntriesOf(index: nat, format: seq<Byte>, calls: seq<seq<Arg>>): (es: seq<Entry>)
    ensures |es| == |calls|
    ensures forall k :: 0 <= k < |calls| ==> es[k] == Entry(index, format, ValuesOf(calls[k]))
  {
    if calls == [] then [] else [Entry(index, format, ValuesOf(calls[0]))] + EntriesOf(index, format, calls[1..])
  }

  lemma {:induction false} DecodeCalls(index: nat, row: IndexEntry, calls: seq<seq<Arg>>, rest: seq<Byte>)
    requires forall args <- calls :: Fits(args) && row.args == DescribedArgs(args)
    ensures DecodeRun(index, row, |calls|, CallsBytes(calls) + rest)
         == Some((EntriesOf(index, row.format, calls), rest))
    decreases |calls|
  {
    if calls == [] {
      assert CallsBytes(calls) + rest == rest;
    } else {
      assert calls[0] in calls;
      var back := CallsBytes(calls[1..]) + rest;
      assert CallsBytes(calls) + rest == CallBytes(calls[0]) + back;
      DecodeCall(calls[0], back);
      DecodeCalls(index, row, calls[1..], rest);
    }
  }

  // ----- Conservation: where every byte of the log goes -----

  /** Log bytes that the arguments of one decoded entry came from. */
  function ArgsSize(infos: seq<IndexArg>, vs: seq<ArgValue>): nat
    requires |infos| == |vs|
  {
    if infos == [] then 0
    else
      (if infos[0].isConstant then 0
       else if infos[0].kind == TypeString then 2 + |vs[0].data|
       else |vs[0].data|) + ArgsSize(infos[1..], vs[1..])
  }

  /** Entries that name a row of the table and have that row's number of arguments. */
  predicate Shaped(table: seq<IndexEntry>, es: seq<Entry>) {
    forall e <- es :: e.index < |table| && |e.args| == |table[e.index].args|
  }

  function EntriesSize(table: seq<IndexEntry>, es: seq<Entry>): nat
    requires Shaped(table, es)
  {
    if es == [] then 0
    else
      assert es[0] in es;
      ArgsSize(table[es[0].index].args, es[0].args) + EntriesSize(table, es[1..])
  }

  lemma {:induction false} EntriesSizeConcat(table: seq<IndexEntry>, a: seq<Entry>, b: seq<Entry>)
    requires Shaped(table, a) && Shaped(table, b)
    ensures Shaped(table, a + b)
    ensures EntriesSize(table, a + b) == EntriesSize(table, a) + EntriesSize(table, b)
  {
    if a == [] {
      assert a + b == b;
    } else {
      assert (a + b)[1..] == a[1..] + b;
      EntriesSizeConcat(table, a[1..], b);
    }
  }

  lemma {:induction false} DecodeArgsSize(infos: seq<IndexArg>, s: seq<Byte>)
    requires DecodeArgs(infos, s).Some?
    ensures var (vs, rest) := DecodeArgs(infos, s).value;
      |vs| == |infos| && |s| == |rest| + ArgsSize(infos, vs)
    decreases |infos|
  {
    if infos != [] {
      var (v, rest) := DecodeArg(infos[0], s).value;
      DecodeArgsSize(infos[1..], rest);
      var (vs, _) := DecodeArgs(infos[1..], rest).value;
      assert ([v] + vs)[1..] == vs;
    }
  }

  lemma {:induction false} DecodeRunSize(table: seq<IndexEntry>, index: nat, n: nat, s: seq<Byte>)
    requires index < |table| && DecodeRun(index, table[index], n, s).Some?
    ensures var (es, rest) := DecodeRun(index, table[index], n, s).value;
      Shaped(table, es) && |s| == |rest| + EntriesSize(table, es)
    decreases n
  {
    if n > 0 {
      var row := table[index];
      DecodeArgsSize(row.args, s);
      var (args, rest) := DecodeArgs(row.args, s).value;
      DecodeRunSize(table, index, n - 1, rest);
      var (es, _) := DecodeRun(index, row, n - 1, rest).value;
      assert ([Entry(index, row.format, args)] + es)[1..] == es;
    }
  }

  /** Calls beyond the first that the records announce. */
  function Excess(recs: seq<Rec>): int {
    if recs == [] then 0 else recs[0].count - 1 + Excess(recs[1..])
  }

  lemma {:induction false} ExcessPositive(recs: seq<Rec>)
    requires forall r <- recs :: r.count > 1
    ensures Excess(recs) >= 0
  {
    if recs != [] {
      assert recs[0] in recs;
      ExcessPositive(recs[1..]);
    }
  }

  /**
   * Whatever the decoder is fed, every byte of the log is a header's or an argument's, and every
   * header stands for one entry but for what the records it used up announce.
   */
  lemma {:induction false} DecodeConserves(table: seq<IndexEntry>, s: seq<Byte>, recs: seq<Rec>)
    requires DecodeRecs(table, s, recs).Some?
    ensures var (es, left) := DecodeRecs(table, s, recs).value;
      Shaped(table, es) && 2 * |es| + EntriesSize(table, es) == |s| + 2 * (Excess(recs) - Excess(left))
    decreases |s|
  {
    if s != [] {
      var (header, s1) := Take(s, 2).value;
      var index := FromLe(header);
      var (n, recs') := TakeRec(index, recs);
      DecodeRunSize(table, index, n, s1);
      var (entries, s2) := DecodeRun(index, table[index], n, s1).value;
      DecodeConserves(table, s2, recs');
      EntriesSizeConcat(table, entries, DecodeRecs(table, s2, recs').value.0);
      assert Excess(recs) == n - 1 + Excess(recs');
    }
  }

  lemma {:induction false} CallSize(args: seq<Arg>)
    requires Fits(args)
    ensures |CallBytes(args)| == ArgsSize(DescribedArgs(args), ValuesOf(args))
    decreases |args|
  {
    if args != [] {
      var a := args[0];
      assert a in args;
      CallSize(args[1..]);
      if a.value.IsText() {
        CountedWhole(a.value.chars);
      } else {
        RawSize(a.value);
      }
      assert DescribedArgs(args)[1..] == DescribedArgs(args[1..]);
      assert ValuesOf(args)[1..] == ValuesOf(args[1..]);
    }
  }

  lemma {:induction false} CallsSize(table: seq<IndexEntry>, index: nat, calls: seq<seq<Arg>>)
    requires index < |table|
    requires forall args <- calls :: Fits(args) && table[index].args == DescribedArgs(args)
    ensures Shaped(table, EntriesOf(index, table[index].format, calls))
    ensures |CallsBytes(calls)| == EntriesSize(table, EntriesOf(index, table[index].format, calls))
    decreases |calls|
  {
    if calls != [] {
      assert calls[0] in calls;
      CallSize(calls[0]);
      CallsSize(table, index, calls[1..]);
      var es := EntriesOf(index, table[index].format, calls);
      assert es[1..] == EntriesOf(index, table[index].format, calls[1..]);
    }
  }

  // ----- What can come out at all -----

  predicate BoundedEntry(e: Entry) {
    FitsU16(e.format) && |e.args| < 256 && forall v <- e.args :: Sized(v.kind, v.data)
  }

  lemma {:induction false} DecodeArgsBounded(infos: seq<IndexArg>, s: seq<Byte>)
    requires forall i <- infos :: BoundedArg(i)
    requires DecodeArgs(infos, s).Some?
    ensures var vs := DecodeArgs(infos, s).value.0;
      |vs| == |infos| && forall v <- vs :: Sized(v.kind, v.data)
    decreases |infos|
  {
    if infos != [] {
      assert infos[0] in infos;
      DecodeArgsBounded(infos[1..], DecodeArg(infos[0], s).value.1);
    }
  }

  lemma {:induction false} DecodeRunBounded(index: nat, row: IndexEntry, n: nat, s: seq<Byte>)
    requires Bounded(row) && DecodeRun(index, row, n, s).Some?
    ensures forall e <- DecodeRun(index, row, n, s).value.0 :: BoundedEntry(e)
    decreases n
  {
    if n > 0 {
      DecodeArgsBounded(row.args, s);
      DecodeRunBounded(index, row, n - 1, DecodeArgs(row.args, s).value.1);
    }
  }

  lemma {:induction false} DecodeBounded(table: seq<IndexEntry>, s: seq<Byte>, runs: seq<Byte>)
    requires forall row <- table :: Bounded(row)
    requires DecodeLog(table, s, runs).Some?
    ensures forall e <- DecodeLog(table, s, runs).value.0 :: BoundedEntry(e)
    decreases |s|
  {
    if s != [] {
      var (header, s1) := Take(s, 2).value;
      var index := FromLe(header);
      var (n, runs') := TakeCount(index, runs).value;
      assert table[index] in table;
      DecodeRunBounded(index, table[index], n, s1);
      DecodeBounded(table, DecodeRun(index, table[index], n, s1).value.1, runs');
    }
  }

  /** Every entry carries the format string of its row. */
  predicate Rowed(table: seq<IndexEntry>, es: seq<Entry>) {
    forall e <- es :: e.index < |table| && e.format == table[e.index].format
  }

  lemma {:induction false} DecodeRunRowed(table: seq<IndexEntry>, index: nat, n: nat, s: seq<Byte>)
    requires index < |table| && DecodeRun(index, table[index], n, s).Some?
    ensures Rowed(table, DecodeRun(index, table[index], n, s).value.0)
    decreases n
  {
    if n > 0 {
      DecodeRunRowed(table, index, n - 1, DecodeArgs(table[index].args, s).value.1);
    }
  }

  lemma {:induction false} DecodeRowed(table: seq<IndexEntry>, s: seq<Byte>, runs: seq<Byte>)
    requires DecodeLog(table, s, runs).Some?
    ensures Rowed(table, DecodeLog(table, s, runs).value.0)
    decreases |s|
  {
    if s != [] {
      var (header, s1) := Take(s, 2).value;
      var index := FromLe(header);
      var (n, runs') := TakeCount(index, runs).value;
      DecodeRunRowed(table, index, n, s1);
      DecodeRowed(table, DecodeRun(index, table[index], n, s1).value.1, runs');
    }
  }

  predicate DistinctFormats(table: seq<IndexEntry>) {
    forall i, j :: 0 <= i < j < |table| ==> table[i].format != table[j].format
  }

  /** Values of the right sizes that look the same are the same. */
  lemma ShownTellValues(a: seq<ArgValue>, b: seq<ArgValue>)
    requires (forall v <- a :: Sized(v.kind, v.data)) && (forall v <- b :: Sized(v.kind, v.data) && WellTyped(v))
    requires ShownArgs(a) == ShownArgs(b)
    ensures a == b
  {
    assert |ShownArgs(a)| == |ShownArgs(b)|;
    forall k | 0 <= k < |a|
      ensures a[k] == b[k]
    {
      assert a[k] in a && b[k] in b && ShownArgs(a)[k] == ShownArgs(b)[k];
      ShownTells(a[k].kind, a[k].data, b[k].kind, b[k].data);
    }
  }

  /** Where no two rows share a format string, the line tells the row and the bytes. */
  lemma LinesTellRows(table: seq<IndexEntry>, a: seq<Entry>, b: seq<Entry>)
    requires DistinctFormats(table) && Rowed(table, a) && Rowed(table, b)
    requires forall e <- a :: BoundedEntry(e)
    requires forall e <- b :: BoundedEntry(e) && forall v <- e.args :: WellTyped(v)
    ensures Lines(a) == Lines(b) <==> a == b
  {
    if Lines(a) == Lines(b) {
      assert |Lines(a)| == |Lines(b)|;
      forall k | 0 <= k < |a|
        ensures a[k] == b[k]
      {
        assert a[k] in a && b[k] in b && Lines(a)[k] == Lines(b)[k];
        ShownTellValues(a[k].args, b[k].args);
      }
    }
  }
}
