/**
 * The bytes of a small session, written out: a call site with the format string "{}", an int32_t
 * and the constant string "hi", called twice with -5.
 */
module Layout {
  import opened Bytes
  import opened Args
  import opened IndexFile
  import opened LogFile
  import opened RunLength

  const FORMAT: seq<Byte> := [123, 125]
  const MINUS_FIVE := Arg(Integer(TypeInt32, -5), false)
  const HI := Arg(CString([104, 105]), true)

  /** Length and characters, argument count, types; then 0 for a variable, 1 and the value for a constant. */
  lemma EntryInBytes()
    ensures EntryBytes(FORMAT, [MINUS_FIVE, HI]) == [2, 0, 123, 125, 2, 9, 14, 0, 1, 2, 0, 104, 105]
  {
    var args := [MINUS_FIVE, HI];
    assert args[1..] == [HI] && args[1..][1..] == [];
    ShortString(FORMAT);
    ShortString(HI.value.chars);
    assert TypeBytes(args) == [9, 14];
    assert ConstnessBytes([HI]) == [1, 2, 0, 104, 105];
    assert ConstnessBytes(args) == [0] + [1, 2, 0, 104, 105];
  }

  lemma ShortString(chars: seq<Byte>)
    requires |chars| < 256
    ensures CountedChars(chars) == [|chars|, 0] + chars
  {
    CountedWhole(chars);
    LeDigit(|chars|, 2, 0);
    LeDigit(|chars|, 2, 1);
  }

  /** The site index once, both calls' variable arguments, and a record of index and count. */
  lemma CallsInBytes(ops: seq<Op>)
    requires ops == [Log(0, [MINUS_FIVE, HI]), Log(0, [MINUS_FIVE, HI]), Flush]
    ensures After(ops).log == [0, 0, 251, 255, 255, 255, 251, 255, 255, 255]
    ensures After(ops).runs == [0, 0, 2, 0, 0, 0, 0, 0, 0, 0]
  {
    var args, index := ops[0].args, ops[0].index;
    TwoCalls(ops, args, index);
    ArgsInBytes(args);
    RecordInBytes(index, 2);
    Joined(Le(index, 2), CallBytes(args), Le(2, 8));
  }

  lemma Joined(header: seq<Byte>, args: seq<Byte>, count: seq<Byte>)
    requires header == [0, 0] && args == [251, 255, 255, 255] && count == [2, 0, 0, 0, 0, 0, 0, 0]
    ensures header + args + args == [0, 0, 251, 255, 255, 255, 251, 255, 255, 255]
    ensures header + count == [0, 0, 2, 0, 0, 0, 0, 0, 0, 0]
  {
  }

  lemma ArgsInBytes(args: seq<Arg>)
    requires args == [MINUS_FIVE, HI]
    ensures CallBytes(args) == [251, 255, 255, 255]
  {
    MinusFive();
    assert args[1..] == [HI] && args[1..][1..] == [];
    assert CallBytes(args[1..]) == [];
  }

  lemma RecordInBytes(index: nat, count: nat)
    requires index < 256 && count < 256
    ensures Le(index, 2) == [index, 0]
    ensures Le(count, 8) == [count, 0, 0, 0, 0, 0, 0, 0]
  {
    SmallLe(index, 2);
    SmallLe(count, 8);
  }

  lemma TwoCalls(ops: seq<Op>, args: seq<Arg>, index: nat)
    requires ops == [Log(index, args), Log(index, args), Flush] && index == 0
    ensures After(ops)
         == Codec(index, 0, Le(index, 2) + CallBytes(args) + CallBytes(args), Le(index, 2) + Le(2, 8))
  {
    var call, bytes, empty := ops[0], CallBytes(args), ops[..0];
    var one := Codec(index, 1, Le(index, 2) + bytes, []);
    var two := Codec(index, 2, Le(index, 2) + bytes + bytes, []);
    assert Step(INITIAL, call) == one && Step(one, call) == two;
    AfterStep(empty, INITIAL, call);
    AfterStep(ops[..1], one, call);
    AfterStep(ops[..2], two, Flush);
    assert empty + [call] == ops[..1] && ops[..1] + [call] == ops[..2] && ops[..2] + [Flush] == ops;
  }

  lemma AfterStep(ops: seq<Op>, c: Codec, op: Op)
    requires After(ops) == c
    ensures After(ops + [op]) == Step(c, op)
  {
    assert (ops + [op])[..|ops|] == ops;
  }

  lemma MinusFive()
    ensures ArgBytes(MINUS_FIVE.value) == [251, 255, 255, 255]
  {
    Pow256Values();
    WidthsAgree(TypeInt32);
    MinusOne(3);
    assert Le(-5, 4)[1..] == Le(-1, 3);
  }

  lemma {:induction false} MinusOne(width: nat)
    ensures forall k :: 0 <= k < width ==> Le(-1, width)[k] == 255
    decreases width
  {
    if width > 0 {
      MinusOne(width - 1);
    }
  }

  /** One byte's worth, then zeros. */
  lemma {:induction false} SmallLe(n: nat, width: nat)
    requires n < 256 && width > 0
    ensures Le(n, width)[0] == n && forall k :: 0 < k < width ==> Le(n, width)[k] == 0
    decreases width
  {
    if width > 1 {
      SmallLe(0, width - 1);
    }
  }
}
