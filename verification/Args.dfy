/** Argument types and values: include/binary_log/detail/args.hpp. */
module Args {
  import Powers
  import opened Bytes

  datatype FmtArgType =
    | TypeBool | TypeChar
    | TypeUint8 | TypeUint16 | TypeUint32 | TypeUint64 | TypeUint128
    | TypeInt8 | TypeInt16 | TypeInt32 | TypeInt64 | TypeInt128
    | TypeFloat | TypeDouble | TypeString
    | TypeInvalid(code: Byte) // a byte of the index file that names no type

  function SizeofArgType(t: FmtArgType): (size: nat)
    ensures size <= 16 && (size == 0 <==> t.TypeInvalid?)
  {
    match t
    case TypeBool => 1
    case TypeChar => 1
    case TypeUint8 => 1
    case TypeUint16 => 2
    case TypeUint32 => 4
    case TypeUint64 => 8
    case TypeUint128 => 16
    case TypeInt8 => 1
    case TypeInt16 => 2
    case TypeInt32 => 4
    case TypeInt64 => 8
    case TypeInt128 => 16
    case TypeFloat => 4
    case TypeDouble => 8
    case TypeString => 1
    case TypeInvalid(_) => 0
  }

  function TypeByte(t: FmtArgType): Byte {
    match t
    case TypeBool => 0
    case TypeChar => 1
    case TypeUint8 => 2
    case TypeUint16 => 3
    case TypeUint32 => 4
    case TypeUint64 => 5
    case TypeUint128 => 6
    case TypeInt8 => 7
    case TypeInt16 => 8
    case TypeInt32 => 9
    case TypeInt64 => 10
    case TypeInt128 => 11
    case TypeFloat => 12
    case TypeDouble => 13
    case TypeString => 14
    case TypeInvalid(c) => c
  }

  function TypeOfByte(b: Byte): FmtArgType {
    if b == 0 then TypeBool
    else if b == 1 then TypeChar
    else if b == 2 then TypeUint8
    else if b == 3 then TypeUint16
    else if b == 4 then TypeUint32
    else if b == 5 then TypeUint64
    else if b == 6 then TypeUint128
    else if b == 7 then TypeInt8
    else if b == 8 then TypeInt16
    else if b == 9 then TypeInt32
    else if b == 10 then TypeInt64
    else if b == 11 then TypeInt128
    else if b == 12 then TypeFloat
    else if b == 13 then TypeDouble
    else if b == 14 then TypeString
    else TypeInvalid(b)
  }

  /** The enumerators in the order of their declaration. */
  const ARG_TYPES := [
    TypeBool, TypeChar,
    TypeUint8, TypeUint16, TypeUint32, TypeUint64, TypeUint128,
    TypeInt8, TypeInt16, TypeInt32, TypeInt64, TypeInt128,
    TypeFloat, TypeDouble, TypeString
  ]

  /** A type is stored as its position there. */
  lemma TypeNumbers(b: Byte)
    ensures |ARG_TYPES| == 15
    ensures b < 15 ==> TypeByte(ARG_TYPES[b]) == b && TypeOfByte(b) == ARG_TYPES[b]
    ensures b >= 15 ==> TypeOfByte(b) == TypeInvalid(b)
  {
  }

  // ----- Numbers by value -----

  /** bool, char and the integers; a char counts as its byte. */
  predicate IsInteger(t: FmtArgType) {
    !t.TypeFloat? && !t.TypeDouble? && !t.TypeString? && !t.TypeInvalid?
  }

  /** The least number a variable of the C++ type holds. */
  function Lowest(t: FmtArgType): int {
    match t
    case TypeInt8 => -0x80
    case TypeInt16 => -0x8000
    case TypeInt32 => -0x8000_0000
    case TypeInt64 => -0x8000_0000_0000_0000
    case TypeInt128 => -0x8000_0000_0000_0000_0000_0000_0000_0000
    case _ => 0
  }

  /** The greatest one. */
  function Highest(t: FmtArgType): int {
    match t
    case TypeBool => 1
    case TypeChar => 0xFF
    case TypeUint8 => 0xFF
    case TypeUint16 => 0xFFFF
    case TypeUint32 => 0xFFFF_FFFF
    case TypeUint64 => 0xFFFF_FFFF_FFFF_FFFF
    case TypeUint128 => 0xFFFF_FFFF_FFFF_FFFF_FFFF_FFFF_FFFF_FFFF
    case TypeInt8 => 0x7F
    case TypeInt16 => 0x7FFF
    case TypeInt32 => 0x7FFF_FFFF
    case TypeInt64 => 0x7FFF_FFFF_FFFF_FFFF
    case TypeInt128 => 0x7FFF_FFFF_FFFF_FFFF_FFFF_FFFF_FFFF_FFFF
    case _ => 0
  }

  predicate Holds(t: FmtArgType, n: int) {
    IsInteger(t) && Lowest(t) <= n <= Highest(t)
  }

  function BytesFor(values: nat): nat {
    if values <= 1 then 0 else 1 + BytesFor((values + 255) / 256)
  }

  /** sizeof of the C++ type, which has no more bytes than its numbers need. */
  function ObjectSize(t: FmtArgType): nat {
    BytesFor(Highest(t) - Lowest(t) + 1)
  }

  /** A number in memory: two's complement, least significant byte first. */
  function NumberBytes(t: FmtArgType, n: int): (s: seq<Byte>)
    ensures |s| == ObjectSize(t)
  {
    Le(n, ObjectSize(t))
  }

  /** The number read from there. */
  function NumberOf(t: FmtArgType, s: seq<Byte>): int {
    var n := FromLe(s);
    if Lowest(t) < 0 && n > Highest(t) then n - Pow256(|s|) else n
  }

  /** The reader's table of widths has the writer's sizes, and each width the numbers of its type and no others. */
  lemma WidthsAgree(t: FmtArgType)
    requires IsInteger(t)
    ensures SizeofArgType(t) == ObjectSize(t)
    ensures !t.TypeBool? ==> Pow256(SizeofArgType(t)) == Highest(t) - Lowest(t) + 1
    ensures t.TypeBool? ==> SizeofArgType(t) == 1
  {
    Sizes();
  }

  lemma Sizes()
    ensures BytesFor(2) == 1 && BytesFor(0x100) == 1 && BytesFor(0x1_0000) == 2 && BytesFor(0x1_0000_0000) == 4
    ensures BytesFor(U64_LIMIT) == 8 && BytesFor(0x1_0000_0000_0000_0000_0000_0000_0000_0000) == 16
    ensures Pow256(1) == 0x100 && Pow256(2) == 0x1_0000 && Pow256(4) == 0x1_0000_0000
    ensures Pow256(8) == U64_LIMIT && Pow256(16) == 0x1_0000_0000_0000_0000_0000_0000_0000_0000
  {
    Pow256Values();
    Pow256Of16();
    BytesForPower(1);
    BytesForPower(2);
    BytesForPower(4);
    BytesForPower(8);
    BytesForPower(16);
    assert BytesFor(2) == 1 + BytesFor(1);
  }

  lemma Pow256Of16()
    ensures Pow256(16) == 0x1_0000_0000_0000_0000_0000_0000_0000_0000
  {
    Pow256Values();
    Pow256Sum(8, 8);
  }

  lemma {:induction false} Pow256Sum(x: nat, y: nat)
    ensures Pow256(x + y) == Pow256(x) * Pow256(y)
    decreases x
  {
    if x > 0 {
      Pow256Sum(x - 1, y);
      Powers.MulAssoc(256, Pow256(x - 1), Pow256(y));
    }
  }

  lemma {:induction false} BytesForPower(k: nat)
    ensures BytesFor(Pow256(k)) == k
    decreases k
  {
    if k > 0 {
      BytesForPower(k - 1);
      assert (256 * Pow256(k - 1) + 255) / 256 == Pow256(k - 1);
    }
  }

  lemma NumberRoundTrip(t: FmtArgType, n: int)
    requires Holds(t, n)
    ensures |NumberBytes(t, n)| == SizeofArgType(t)
    ensures NumberOf(t, NumberBytes(t, n)) == n
  {
    WidthsAgree(t);
    if n >= 0 {
      FromLeOfLe(n, ObjectSize(t));
    } else {
      FromLeOfNegative(n, ObjectSize(t));
    }
  }

  /** Different bytes of a type's width are different numbers. */
  lemma NumberInjective(t: FmtArgType, a: seq<Byte>, b: seq<Byte>)
    requires |a| == |b| && NumberOf(t, a) == NumberOf(t, b)
    ensures a == b
  {
    LeOfFromLe(a);
    LeOfFromLe(b);
  }

  // ----- Values -----

  /** A value as the packer's overloads see it. Both string forms carry type_string. */
  datatype Value =
    | Integer(kind: FmtArgType, n: int)
    | Floating(kind: FmtArgType, raw: seq<Byte>) // a float or double, as it is in memory
    | CString(chars: seq<Byte>)                  // const char*, up to its terminator
    | String(chars: seq<Byte>)                   // std::string and std::string_view
  {
    predicate Valid() {
      match this
      case Integer(t, n) => Holds(t, n)
      case Floating(t, raw) => (t.TypeFloat? && |raw| == 4) || (t.TypeDouble? && |raw| == 8)
      case CString(_) => true
      case String(_) => true
    }

    predicate IsText() {
      CString? || String?
    }

    function Type(): FmtArgType {
      if IsText() then TypeString else kind
    }

    /** What sizeof bytes at the value's address hold. */
    function Raw(): seq<Byte>
      requires !IsText()
    {
      match this
      case Integer(t, n) => NumberBytes(t, n)
      case Floating(_, raw) => raw
    }

    /** The bytes a reader of the logs is meant to get back. */
    function Data(): seq<Byte> {
      if IsText() then chars else Raw()
    }

    /** What is meant to be printed. */
    function Meaning(): Shown {
      match this
      case Integer(t, n) => Number(t, n)
      case Floating(t, raw) => Real(t, raw)
      case CString(chars) => Text(chars)
      case String(chars) => Text(chars)
    }
  }

  lemma RawSize(v: Value)
    requires v.Valid() && !v.IsText()
    ensures |v.Raw()| == SizeofArgType(v.Type())
    ensures !v.Type().TypeString? && !v.Type().TypeInvalid?
  {
    if v.Integer? {
      NumberRoundTrip(v.kind, v.n);
    }
  }

  /** The type a value is logged with. */
  predicate LoggedAs(v: Value, t: FmtArgType) {
    match v
    case Integer(kind, _) => t == kind
    case Floating(kind, _) => t == kind
    case CString(_) => t.TypeString?
    case String(_) => t.TypeString?
  }

  /** A typed value as it reaches the formatter; a byte that names no type makes none. */
  datatype Shown =
    | Number(kind: FmtArgType, n: int)
    | Real(kind: FmtArgType, raw: seq<Byte>)
    | Text(chars: seq<Byte>)
    | Nothing

  /** update_store: bytes read as what their type says. */
  function UpdateStore(t: FmtArgType, data: seq<Byte>): Shown {
    if t.TypeString? then Text(data)
    else if t.TypeFloat? || t.TypeDouble? then Real(t, data)
    else if t.TypeInvalid? then Nothing
    else Number(t, NumberOf(t, data))
  }

  /** What is stored of a value shows its meaning. */
  lemma DataShows(v: Value)
    requires v.Valid()
    ensures UpdateStore(v.Type(), v.Data()) == v.Meaning()
  {
    if v.Integer? {
      NumberRoundTrip(v.kind, v.n);
    }
  }

  /** Data as long as its type says, or as 16 bits can. */
  predicate Sized(t: FmtArgType, data: seq<Byte>) {
    if t.TypeString? then |data| < U16_LIMIT else |data| == SizeofArgType(t)
  }

  /** What is shown tells type and bytes. */
  lemma ShownTells(t: FmtArgType, a: seq<Byte>, u: FmtArgType, b: seq<Byte>)
    requires Sized(t, a) && Sized(u, b) && !u.TypeInvalid?
    requires UpdateStore(t, a) == UpdateStore(u, b)
    ensures t == u && a == b
  {
    if IsInteger(t) {
      NumberInjective(t, a, b);
    }
  }

  /** An argument of a log call; a constant one is wrapped in binary_log::constant. */
  datatype Arg = Arg(value: Value, isConstant: bool)

  predicate ValidArgs(args: seq<Arg>) {
    forall a <- args :: a.value.Valid()
  }

  predicate AllArgsAreConstants(args: seq<Arg>)
    requires args != []
  {
    if args[0].isConstant then
      |args| == 1 || AllArgsAreConstants(args[1..])
    else
      false
  }
}
