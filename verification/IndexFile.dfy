/** The index file: what the packer writes for a call site, what the unpacker reads back. */
module IndexFile {
  import opened Wrappers
  import opened Bytes
  import opened Args

  datatype IndexArg = IndexArg(kind: FmtArgType, isConstant: bool, data: seq<Byte>)
  datatype IndexEntry = IndexEntry(format: seq<Byte>, args: seq<IndexArg>)

  // ----- Layout -----

  /** A string preceded by its length; the length is cast to 16 bits and cuts the string. */
  function CountedChars(chars: seq<Byte>): seq<Byte> {
    var size := |chars| % U16_LIMIT;
    Le(size, 2) + chars[..size]
  }

  /** A constant's value. For std::string only the length is cut to 16 bits, not the characters. */
  function ConstantBytes(v: Value): seq<Byte> {
    match v
    case Integer(t, n) => NumberBytes(t, n)
    case Floating(_, raw) => raw
    case CString(chars) => CountedChars(chars)
    case String(chars) => Le(|chars| % U16_LIMIT, 2) + chars
  }

  function ArgConstness(a: Arg): seq<Byte> {
    if a.isConstant then [1] + ConstantBytes(a.value) else [0]
  }

  function ConstnessBytes(args: seq<Arg>): seq<Byte> {
    if args == [] then [] else ArgConstness(args[0]) + ConstnessBytes(args[1..])
  }

  function TypeBytes(args: seq<Arg>): (s: seq<Byte>)
    ensures |s| == |args|
  {
    if args == [] then [] else [TypeByte(args[0].value.Type())] + TypeBytes(args[1..])
  }

  /** One entry. The argument count is narrowed to a byte, but every argument is written when it is non-zero. */
  function EntryBytes(format: seq<Byte>, args: seq<Arg>): seq<Byte> {
    CountedChars(format) + [|args| % 256] +
    (if |args| % 256 > 0 then TypeBytes(args) + ConstnessBytes(args) else [])
  }

  // ----- Parsing -----

  function Take(s: seq<Byte>, n: nat): (r: Option<(seq<Byte>, seq<Byte>)>)
    ensures r.Some? <==> n <= |s|
  {
    if n <= |s| then Some((s[..n], s[n..])) else None
  }

  /** A string_view of the size its 16-bit prefix gives, or of the type's own size. */
  function TakeData(kind: FmtArgType, s: seq<Byte>): (r: Option<(seq<Byte>, seq<Byte>)>)
    ensures r.Some? ==> |r.value.1| <= |s| && Sized(kind, r.value.0)
  {
    if kind == TypeString then
      var (size, rest) :- Take(s, 2);
      U16Bound(size);
      Take(rest, FromLe(size))
    else
      Take(s, SizeofArgType(kind))
  }

  function ParseArg(kind: FmtArgType, s: seq<Byte>): (r: Option<(IndexArg, seq<Byte>)>)
    ensures r.Some? ==> |r.value.1| < |s|
  {
    var (flag, rest) :- Take(s, 1);
    if flag[0] != 0 then
      var (data, rest') :- TakeData(kind, rest);
      Some((IndexArg(kind, true, data), rest'))
    else
      Some((IndexArg(kind, false, []), rest))
  }

  function ParseArgs(types: seq<Byte>, s: seq<Byte>): (r: Option<(seq<IndexArg>, seq<Byte>)>)
    ensures r.Some? ==> |r.value.1| <= |s| && |r.value.0| == |types|
  {
    if types == [] then Some(([], s))
    else
      var (arg, rest) :- ParseArg(TypeOfByte(types[0]), s);
      var (args, rest') :- ParseArgs(types[1..], rest);
      Some(([arg] + args, rest'))
  }

  function ParseEntry(s: seq<Byte>): (r: Option<(IndexEntry, seq<Byte>)>)
    ensures r.Some? ==> |r.value.1| < |s|
  {
    var (size, s1) :- Take(s, 2);
    var (format, s2) :- Take(s1, FromLe(size));
    var (count, s3) :- Take(s2, 1);
    var (types, s4) :- Take(s3, count[0]);
    var (args, s5) :- ParseArgs(types, s4);
    Some((IndexEntry(format, args), s5))
  }

  function Parse(s: seq<Byte>): Option<seq<IndexEntry>>
    decreases |s|
  {
    if s == [] then Some([])
    else
      var (entry, rest) :- ParseEntry(s);
      var entries :- Parse(rest);
      Some([entry] + entries)
  }

  // ----- Round trip -----

  predicate FitsU16(chars: seq<Byte>) {
    |chars| < U16_LIMIT
  }

  /** Exactly what 16-bit lengths and an 8-bit argument count can hold. */
  predicate Representable(format: seq<Byte>, args: seq<Arg>) {
    && FitsU16(format)
    && |args| < 256
    && forall a <- args | a.isConstant :: FitsU16(a.value.Data())
  }

  function Described(a: Arg): IndexArg {
    IndexArg(a.value.Type(), a.isConstant, if a.isConstant then a.value.Data() else [])
  }

  function DescribedArgs(args: seq<Arg>): (r: seq<IndexArg>)
    ensures |r| == |args|
  {
    if args == [] then [] else [Described(args[0])] + DescribedArgs(args[1..])
  }

  /** The row of the index table a registration is meant to produce. */
  function EntryOf(format: seq<Byte>, args: seq<Arg>): IndexEntry {
    IndexEntry(format, DescribedArgs(args))
  }

  lemma TakeFront(a: seq<Byte>, rest: seq<Byte>)
    ensures Take(a + rest, |a|) == Some((a, rest))
  {
    Cut(a, rest);
  }

  lemma TakeAfter(a: seq<Byte>, b: seq<Byte>, rest: seq<Byte>)
    ensures Take(a + b + rest, |a|) == Some((a, b + rest))
  {
    assert a + b + rest == a + (b + rest);
    TakeFront(a, b + rest);
  }

  lemma CountedWhole(chars: seq<Byte>)
    requires FitsU16(chars)
    ensures CountedChars(chars) == Le(|chars|, 2) + chars
  {
    UncutLength(|chars|);
    WholeAt(chars, |chars| % U16_LIMIT);
  }

  lemma WholeAt(chars: seq<Byte>, size: nat)
    requires size == |chars|
    ensures Le(size, 2) + chars[..size] == Le(|chars|, 2) + chars
  {
    assert chars[..size] == chars;
  }

  lemma UncutLength(n: nat)
    requires n < U16_LIMIT
    ensures n % U16_LIMIT == n
  {
  }

  lemma TakeChars(chars: seq<Byte>, rest: seq<Byte>)
    requires FitsU16(chars)
    ensures Take(CountedChars(chars) + rest, 2) == Some((Le(|chars|, 2), chars + rest))
    ensures FromLe(Le(|chars|, 2)) == |chars|
    ensures Take(chars + rest, |chars|) == Some((chars, rest))
  {
    CountedWhole(chars);
    TakeAfter(Le(|chars|, 2), chars, rest);
    TakeFront(chars, rest);
    U16RoundTrip(|chars|);
  }

  lemma TypeOfTypeByte(t: FmtArgType)
    requires !t.TypeInvalid?
    ensures TypeOfByte(TypeByte(t)) == t
  {
  }

  lemma LoggedType(v: Value)
    requires v.Valid()
    ensures !v.Type().TypeInvalid?
  {
    if !v.IsText() {
      RawSize(v);
    }
  }

  lemma ParseArgRoundTrip(a: Arg, rest: seq<Byte>)
    requires a.value.Valid()
    requires a.isConstant ==> FitsU16(a.value.Data())
    ensures ParseArg(a.value.Type(), ArgConstness(a) + rest) == Some((Described(a), rest))
  {
    var flag: seq<Byte> := [if a.isConstant then 1 else 0];
    var body := if a.isConstant then ConstantBytes(a.value) else [];
    assert ArgConstness(a) == flag + body;
    TakeAfter(flag, body, rest);
    if a.isConstant {
      if !a.value.IsText() {
        RawSize(a.value);
        TakeFront(a.value.Raw(), rest);
      } else {
        CountedWhole(a.value.chars);
        TakeChars(a.value.chars, rest);
      }
    } else {
      assert body + rest == rest;
    }
  }

  lemma {:induction false} ParseArgsRoundTrip(args: seq<Arg>, rest: seq<Byte>)
    requires ValidArgs(args)
    requires forall a <- args | a.isConstant :: FitsU16(a.value.Data())
    ensures ParseArgs(TypeBytes(args), ConstnessBytes(args) + rest) == Some((DescribedArgs(args), rest))
    decreases |args|
  {
    if args == [] {
      assert ConstnessBytes(args) + rest == rest;
    } else {
      var head, tail := args[0], args[1..];
      assert head in args;
      ParseArgsRoundTrip(tail, rest);
      assert ConstnessBytes(args) + rest == ArgConstness(head) + (ConstnessBytes(tail) + rest);
      ParseArgRoundTrip(head, ConstnessBytes(tail) + rest);
      LoggedType(head.value);
      TypeOfTypeByte(head.value.Type());
      assert TypeBytes(args) == [TypeByte(head.value.Type())] + TypeBytes(tail);
    }
  }

  /** Entries are self-delimiting: one is read back whole whatever follows it. */
  lemma ParseEntryRoundTrip(format: seq<Byte>, args: seq<Arg>, rest: seq<Byte>)
    requires ValidArgs(args) && Representable(format, args)
    ensures ParseEntry(EntryBytes(format, args) + rest) == Some((EntryOf(format, args), rest))
  {
    var count: seq<Byte> := [|args|];
    var tail := TypeBytes(args) + ConstnessBytes(args);
    assert EntryBytes(format, args) + rest == CountedChars(format) + (count + (tail + rest)) by {
      if args == [] {
        assert tail == [];
      }
    }
    TakeChars(format, count + (tail + rest));
    TakeFront(count, tail + rest);
    TakeAfter(TypeBytes(args), ConstnessBytes(args), rest);
    ParseArgsRoundTrip(args, rest);
  }

  datatype Registration = Registration(format: seq<Byte>, args: seq<Arg>) {
    predicate Ok() {
      ValidArgs(args) && Representable(format, args)
    }
  }

  function IndexBytes(regs: seq<Registration>): seq<Byte> {
    if regs == [] then [] else EntryBytes(regs[0].format, regs[0].args) + IndexBytes(regs[1..])
  }

  function TableOf(regs: seq<Registration>): (t: seq<IndexEntry>)
    ensures |t| == |regs|
    ensures forall k :: 0 <= k < |regs| ==> t[k] == EntryOf(regs[k].format, regs[k].args)
  {
    if regs == [] then [] else [EntryOf(regs[0].format, regs[0].args)] + TableOf(regs[1..])
  }

  lemma {:induction false} IndexBytesAppend(regs: seq<Registration>, r: Registration)
    ensures IndexBytes(regs + [r]) == IndexBytes(regs) + EntryBytes(r.format, r.args)
  {
    if regs == [] {
      assert (regs + [r])[1..] == [];
    } else {
      assert (regs + [r])[1..] == regs[1..] + [r];
      IndexBytesAppend(regs[1..], r);
    }
  }

  lemma {:induction false} ParseRoundTrip(regs: seq<Registration>)
    requires forall r <- regs :: r.Ok()
    ensures Parse(IndexBytes(regs)) == Some(TableOf(regs))
  {
    if regs != [] {
      var r := regs[0];
      assert r in regs;
      ParseEntryRoundTrip(r.format, r.args, IndexBytes(regs[1..]));
      ParseRoundTrip(regs[1..]);
    }
  }

  /** A constant has the size of its type, or as many characters as its length field can say. */
  predicate BoundedArg(a: IndexArg) {
    if a.isConstant then Sized(a.kind, a.data) else a.data == []
  }

  /** Nothing longer than the length fields allow ever comes out of the parser. */
  predicate Bounded(e: IndexEntry) {
    FitsU16(e.format) && |e.args| < 256 && forall a <- e.args :: BoundedArg(a)
  }

  lemma {:induction false} ParseArgsBounded(types: seq<Byte>, s: seq<Byte>)
    requires ParseArgs(types, s).Some?
    ensures forall a <- ParseArgs(types, s).value.0 :: BoundedArg(a)
    decreases |types|
  {
    if types != [] {
      var (arg, rest) := ParseArg(TypeOfByte(types[0]), s).value;
      ParseArgsBounded(types[1..], rest);
    }
  }

  lemma {:induction false} ParseBounded(s: seq<Byte>)
    requires Parse(s).Some?
    ensures forall e <- Parse(s).value :: Bounded(e)
    decreases |s|
  {
    if s != [] {
      var (size, s1) := Take(s, 2).value;
      U16Bound(size);
      var (_, s2) := Take(s1, FromLe(size)).value;
      var (count, s3) := Take(s2, 1).value;
      var (types, s4) := Take(s3, count[0]).value;
      ParseArgsBounded(types, s4);
      ParseBounded(ParseEntry(s).value.1);
    }
  }

  lemma {:induction false} DescribedArgsAt(args: seq<Arg>, k: nat)
    requires k < |args|
    ensures DescribedArgs(args)[k] == Described(args[k])
  {
    if k > 0 {
      DescribedArgsAt(args[1..], k - 1);
    }
  }

  /** Of a logged value only the characters of a string can be too long. */
  lemma DataSized(v: Value)
    requires v.Valid()
    ensures Sized(v.Type(), v.Data()) <==> FitsU16(v.Data())
  {
    if !v.IsText() {
      RawSize(v);
    }
  }

  /** A row has the types of the arguments, tells the constant ones, and shows what those are. */
  lemma RowDescribes(format: seq<Byte>, args: seq<Arg>, k: nat)
    requires ValidArgs(args) && k < |args|
    ensures EntryOf(format, args).format == format && |EntryOf(format, args).args| == |args|
    ensures var a, d := args[k], EntryOf(format, args).args[k];
      && LoggedAs(a.value, d.kind) && d.isConstant == a.isConstant
      && (a.isConstant ==> UpdateStore(d.kind, d.data) == a.value.Meaning())
  {
    DescribedArgsAt(args, k);
    assert args[k] in args;
    DataShows(args[k].value);
  }

  lemma BoundedIsRepresentable(format: seq<Byte>, args: seq<Arg>)
    requires ValidArgs(args)
    ensures Bounded(EntryOf(format, args)) <==> Representable(format, args)
  {
    forall k | 0 <= k < |args|
      ensures DescribedArgs(args)[k] == Described(args[k])
    {
      DescribedArgsAt(args, k);
    }
    forall a | a in args
      ensures Sized(a.value.Type(), a.value.Data()) <==> FitsU16(a.value.Data())
    {
      DataSized(a.value);
    }
    if Bounded(EntryOf(format, args)) {
      forall a | a in args && a.isConstant
        ensures FitsU16(a.value.Data())
      {
        var k :| 0 <= k < |args| && args[k] == a;
        assert DescribedArgs(args)[k] in EntryOf(format, args).args;
      }
    }
  }

  /**
   * The whole index file round-trips exactly when every registration is representable:
   * any over-long string or argument list changes the table that is read back.
   */
  lemma IndexRoundTripExactly(regs: seq<Registration>)
    requires forall r <- regs :: ValidArgs(r.args)
    ensures Parse(IndexBytes(regs)) == Some(TableOf(regs))
       <==> forall r <- regs :: Representable(r.format, r.args)
  {
    if forall r <- regs :: Representable(r.format, r.args) {
      ParseRoundTrip(regs);
    } else {
      var k :| 0 <= k < |regs| && !Representable(regs[k].format, regs[k].args);
      BoundedIsRepresentable(regs[k].format, regs[k].args);
      assert TableOf(regs)[k] in TableOf(regs);
      if Parse(IndexBytes(regs)) == Some(TableOf(regs)) {
        ParseBounded(IndexBytes(regs));
      }
    }
  }
}
