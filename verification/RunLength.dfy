/**
 * The run-length codec, split over the log and run-length streams, against the decoder.
 *
 * `Codec` is the state both packers keep; `Pieces` says what a sequence of calls and flushes
 * means without mentioning a single byte. The main result, `DecodesExactly`, holds for every
 * such sequence: the unpacker finds the calls that were made if and only if no call after a
 * flush lost its header and no single call takes the record of a later run.
 */
module RunLength {
  import opened Wrappers
  import opened Bytes
  import opened Args
  import opened IndexFile
  import opened LogFile

  datatype Op = Log(index: nat, args: seq<Arg>) | Flush

  /** `index` and `run` are m_runlength_index and m_current_runlength; the rest is all that was ever written. */
  datatype Codec = Codec(index: nat, run: nat, log: seq<Byte>, runs: seq<Byte>) {
    predicate Valid() {
      index < U16_LIMIT && run < U64_LIMIT
    }
  }

  const INITIAL := Codec(0, 0, [], [])

  function WriteRunlength(c: Codec): Codec {
    if c.run > 1 then c.(runs := c.runs + Rec(c.index, c.run).Bytes(), run := 0) else c
  }

  /** pack_format_string_index; the counter is a 64-bit one. */
  function PackIndex(c: Codec, index: nat): Codec {
    if c.index == 0 && index == 0 then
      if c.run == 0 then
        c.(log := c.log + Le(index, 2), run := (c.run + 1) % U64_LIMIT)
      else
        c.(run := (c.run + 1) % U64_LIMIT)
    else if c.index == index then
      c.(run := (c.run + 1) % U64_LIMIT)
    else
      var c' := WriteRunlength(c);
      c'.(log := c'.log + Le(index, 2), run := 1, index := index)
  }

  /** Whether a call writes its index to the log, or is only counted. */
  predicate WritesHeader(c: Codec, index: nat) {
    c.index != index || (index == 0 && c.run == 0)
  }

  /** A record is written only when the index changes. */
  lemma RunsAfterPack(c: Codec, index: nat)
    ensures PackIndex(c, index).runs == if c.index == index then c.runs else WriteRunlength(c).runs
    ensures PackIndex(c, index).log == if WritesHeader(c, index) then c.log + Le(index, 2) else c.log
  {
  }

  function Step(c: Codec, op: Op): Codec {
    match op
    case Log(index, args) =>
      var c' := PackIndex(c, index);
      c'.(log := c'.log + CallBytes(args))
    case Flush => WriteRunlength(c)
  }

  function After(ops: seq<Op>): Codec {
    if ops == [] then INITIAL else Step(After(ops[..|ops| - 1]), ops[|ops| - 1])
  }

  // ----- Pieces: one per stretch of calls that one counter counts -----

  /** A piece without a header continues an index whose count was already closed by a flush. */
  datatype Piece = Piece(index: nat, hasHeader: bool, calls: seq<seq<Arg>>)

  datatype Split = Split(pieces: seq<Piece>, counting: bool)

  function AddCall(sp: Split, index: nat, args: seq<Arg>): Split {
    var n := |sp.pieces|;
    if n > 0 && sp.pieces[n - 1].index == index then
      if sp.counting then
        Split(sp.pieces[..n - 1] + [sp.pieces[n - 1].(calls := sp.pieces[n - 1].calls + [args])], true)
      else
        Split(sp.pieces + [Piece(index, index == 0, [args])], true)
    else
      Split(sp.pieces + [Piece(index, true, [args])], true)
  }

  function CloseCount(sp: Split): (sp': Split)
    requires sp.counting ==> sp.pieces != []
    ensures sp'.pieces == sp.pieces
  {
    if sp.counting && |sp.pieces[|sp.pieces| - 1].calls| > 1 then sp.(counting := false) else sp
  }

  function SplitStep(sp: Split, op: Op): (sp': Split)
    requires sp.counting ==> sp.pieces != []
  {
    match op
    case Log(index, args) => AddCall(sp, index, args)
    case Flush => CloseCount(sp)
  }

  function SplitOf(ops: seq<Op>): (sp: Split)
    ensures forall p <- sp.pieces :: p.calls != []
    ensures sp.counting ==> sp.pieces != []
    ensures !sp.counting && sp.pieces != [] ==> |sp.pieces[|sp.pieces| - 1].calls| > 1
  {
    if ops == [] then Split([], false)
    else
      SplitStep(SplitOf(ops[..|ops| - 1]), ops[|ops| - 1])
  }

  function Pieces(ops: seq<Op>): seq<Piece> {
    SplitOf(ops).pieces
  }

  function PieceBytes(p: Piece): seq<Byte> {
    (if p.hasHeader then Le(p.index, 2) else []) + CallsBytes(p.calls)
  }

  function LogBytes(ps: seq<Piece>): seq<Byte> {
    if ps == [] then [] else PieceBytes(ps[0]) + LogBytes(ps[1..])
  }

  function RecsOf(ps: seq<Piece>): seq<Rec> {
    if ps == [] then []
    else (if |ps[0].calls| > 1 then [Rec(ps[0].index, |ps[0].calls|)] else []) + RecsOf(ps[1..])
  }

  function CallCount(ps: seq<Piece>): nat {
    if ps == [] then 0 else |ps[0].calls| + CallCount(ps[1..])
  }

  lemma Append(ps: seq<Piece>, p: Piece)
    ensures LogBytes(ps + [p]) == LogBytes(ps) + PieceBytes(p)
    ensures RecsOf(ps + [p]) == RecsOf(ps) + RecsOf([p])
    ensures CallCount(ps + [p]) == CallCount(ps) + |p.calls|
  {
    AppendBytes(ps, p);
    AppendRecs(ps, p);
  }

  lemma {:induction false} AppendBytes(ps: seq<Piece>, p: Piece)
    ensures LogBytes(ps + [p]) == LogBytes(ps) + PieceBytes(p)
    decreases |ps|
  {
    var all := ps + [p];
    if ps == [] {
      assert all == [p];
      assert LogBytes([p]) == PieceBytes(p) + [];
    } else {
      assert all[0] == ps[0] && all[1..] == ps[1..] + [p];
      AppendBytes(ps[1..], p);
      Regroup(PieceBytes(ps[0]), LogBytes(ps[1..]), PieceBytes(p));
    }
  }

  lemma {:induction false} AppendRecs(ps: seq<Piece>, p: Piece)
    ensures RecsOf(ps + [p]) == RecsOf(ps) + RecsOf([p])
    ensures CallCount(ps + [p]) == CallCount(ps) + |p.calls|
    decreases |ps|
  {
    var all := ps + [p];
    if ps == [] {
      assert all == [p];
    } else {
      assert all[0] == ps[0] && all[1..] == ps[1..] + [p];
      AppendRecs(ps[1..], p);
    }
  }

  /** Everything but the piece still being counted, whose record is not written yet. */
  function Closed(sp: Split): seq<Piece>
    requires sp.counting ==> sp.pieces != []
  {
    if sp.counting then sp.pieces[..|sp.pieces| - 1] else sp.pieces
  }

  ghost predicate Agree(c: Codec, sp: Split)
    requires sp.counting ==> sp.pieces != []
  {
    var n := |sp.pieces|;
    && c.index == (if n == 0 then 0 else sp.pieces[n - 1].index)
    && c.run == (if sp.counting then |sp.pieces[n - 1].calls| else 0)
    && c.log == LogBytes(sp.pieces)
    && c.runs == RunsBytes(RecsOf(Closed(sp)))
  }

  lemma WriteRunlengthAgrees(c: Codec, sp: Split)
    requires sp.counting && sp.pieces != [] && Agree(c, sp)
    ensures WriteRunlength(c).runs == RunsBytes(RecsOf(sp.pieces))
  {
    var n := |sp.pieces|;
    var last := sp.pieces[n - 1];
    assert sp.pieces == sp.pieces[..n - 1] + [last];
    Append(sp.pieces[..n - 1], last);
    if |last.calls| > 1 {
      var r := Rec(last.index, |last.calls|);
      assert RecsOf([last]) == [r];
      RunsBytesAppend(RecsOf(sp.pieces[..n - 1]), r);
    } else {
      assert RecsOf([last]) == [];
      assert RecsOf(sp.pieces[..n - 1]) + [] == RecsOf(sp.pieces[..n - 1]);
    }
  }

  lemma ExtendLastPiece(sp: Split, args: seq<Arg>)
    requires sp.pieces != []
    ensures var n := |sp.pieces|;
      var last := sp.pieces[n - 1];
      LogBytes(sp.pieces[..n - 1] + [last.(calls := last.calls + [args])])
        == LogBytes(sp.pieces) + CallBytes(args)
  {
    var n := |sp.pieces|;
    var last := sp.pieces[n - 1];
    assert sp.pieces == sp.pieces[..n - 1] + [last];
    Append(sp.pieces[..n - 1], last);
    Append(sp.pieces[..n - 1], last.(calls := last.calls + [args]));
    CallsBytesAppend(last.calls, args);
  }

  lemma NewPiece(sp: Split, p: Piece, args: seq<Arg>)
    requires p.calls == [args]
    ensures LogBytes(sp.pieces + [p])
         == LogBytes(sp.pieces) + (if p.hasHeader then Le(p.index, 2) else []) + CallBytes(args)
  {
    Append(sp.pieces, p);
    OneCall(args);
    Regroup(LogBytes(sp.pieces), if p.hasHeader then Le(p.index, 2) else [], CallBytes(args));
  }

  lemma OneCall(args: seq<Arg>)
    ensures CallsBytes([args]) == CallBytes(args)
  {
    assert CallsBytes([args]) == CallBytes(args) + [];
  }

  /** The codec where a new count begins. */
  lemma PackStarts(c: Codec, index: nat)
    requires c.index != index || c.run == 0
    ensures var header := if c.index != index || index == 0 then Le(index, 2) else [];
      var runs := if c.index == index then c.runs else WriteRunlength(c).runs;
      PackIndex(c, index) == Codec(index, 1, c.log + header, runs)
  {
    assert c.log + [] == c.log;
  }

  lemma AddCallAgrees(c: Codec, sp: Split, index: nat, args: seq<Arg>)
    requires sp.counting ==> sp.pieces != []
    requires forall p <- sp.pieces :: p.calls != []
    requires Agree(c, sp) && c.run < U64_LIMIT - 1
    ensures Agree(Step(c, Log(index, args)), AddCall(sp, index, args))
  {
    var n := |sp.pieces|;
    if n > 0 && sp.pieces[n - 1].index == index && sp.counting {
      CountAgrees(c, sp, args);
    } else {
      StartAgrees(c, sp, index, args);
    }
  }

  lemma CountAgrees(c: Codec, sp: Split, args: seq<Arg>)
    requires sp.counting && sp.pieces != []
    requires sp.pieces[|sp.pieces| - 1].calls != []
    requires Agree(c, sp) && c.run < U64_LIMIT - 1
    ensures Agree(Step(c, Log(c.index, args)), AddCall(sp, c.index, args))
  {
    var sp' := AddCall(sp, c.index, args);
    var c' := PackIndex(c, c.index);
    assert c' == c.(run := c.run + 1);
    ExtendLastPiece(sp, args);
    assert Closed(sp') == Closed(sp);
  }

  lemma StartAgrees(c: Codec, sp: Split, index: nat, args: seq<Arg>)
    requires sp.counting ==> sp.pieces != [] && sp.pieces[|sp.pieces| - 1].index != index
    requires Agree(c, sp)
    ensures Agree(Step(c, Log(index, args)), AddCall(sp, index, args))
  {
    var n := |sp.pieces|;
    var sp' := AddCall(sp, index, args);
    var p := sp'.pieces[n];
    NewPiece(sp, p, args);
    PackStarts(c, index);
    assert sp'.pieces == sp.pieces + [p] && p.calls == [args] && Closed(sp') == sp.pieces;
    if sp.counting {
      WriteRunlengthAgrees(c, sp);
    }
  }

  lemma FlushAgrees(c: Codec, sp: Split)
    requires sp.counting ==> sp.pieces != []
    requires Agree(c, sp)
    ensures Agree(WriteRunlength(c), CloseCount(sp))
  {
    if sp.counting {
      WriteRunlengthAgrees(c, sp);
    }
  }

  lemma StepAgrees(c: Codec, sp: Split, op: Op)
    requires sp.counting ==> sp.pieces != []
    requires forall p <- sp.pieces :: p.calls != []
    requires Agree(c, sp) && c.run < U64_LIMIT - 1
    ensures Agree(Step(c, op), SplitStep(sp, op)) && Step(c, op).run <= c.run + 1
  {
    match op {
      case Log(index, args) => AddCallAgrees(c, sp, index, args);
      case Flush => FlushAgrees(c, sp);
    }
  }

  /** The packer's two streams are exactly what the pieces say, after any run. */
  lemma {:induction false} CodecMatchesPieces(ops: seq<Op>)
    requires |ops| < U64_LIMIT
    ensures Agree(After(ops), SplitOf(ops)) && After(ops).run <= |ops|
  {
    if ops != [] {
      var before := ops[..|ops| - 1];
      CodecMatchesPieces(before);
      StepAgrees(After(before), SplitOf(before), ops[|ops| - 1]);
    }
  }

  /** The three streams' users call flush last (the destructors do). */
  lemma FinalStreams(ops: seq<Op>)
    requires |ops| + 1 < U64_LIMIT
    ensures After(ops + [Flush]).log == LogBytes(Pieces(ops))
    ensures After(ops + [Flush]).runs == RunsBytes(RecsOf(Pieces(ops)))
    ensures Pieces(ops + [Flush]) == Pieces(ops)
  {
    assert (ops + [Flush])[..|ops|] == ops;
    CodecMatchesPieces(ops);
    var sp := SplitOf(ops);
    if sp.counting {
      WriteRunlengthAgrees(After(ops), sp);
    }
  }

  // ----- What the unpacker is meant to print -----

  predicate OpFits(table: seq<IndexEntry>, op: Op) {
    op.Log? ==>
      op.index < |table| && op.index < U16_LIMIT && Fits(op.args) && table[op.index].args == DescribedArgs(op.args)
  }

  predicate PieceFits(table: seq<IndexEntry>, p: Piece) {
    && p.calls != [] && p.index < |table| && p.index < U16_LIMIT
    && forall args <- p.calls :: Fits(args) && table[p.index].args == DescribedArgs(args)
  }

  function LoggedEntry(table: seq<IndexEntry>, op: Op): Entry
    requires op.Log? && op.index < |table|
  {
    Entry(op.index, table[op.index].format, ValuesOf(op.args))
  }

  /** One entry per call, in call order. */
  function Logged(table: seq<IndexEntry>, ops: seq<Op>): (es: seq<Entry>)
    requires forall op <- ops :: OpFits(table, op)
  {
    if ops == [] then []
    else
      var last := ops[|ops| - 1];
      assert OpFits(table, last);
      Logged(table, ops[..|ops| - 1]) + (if last.Log? then [LoggedEntry(table, last)] else [])
  }

  function PieceEntries(table: seq<IndexEntry>, p: Piece): (es: seq<Entry>)
    requires p.index < |table|
    ensures |es| == |p.calls|
  {
    EntriesOf(p.index, table[p.index].format, p.calls)
  }

  function AllEntries(table: seq<IndexEntry>, ps: seq<Piece>): (es: seq<Entry>)
    requires forall p <- ps :: PieceFits(table, p)
  {
    if ps == [] then []
    else
      assert PieceFits(table, ps[0]);
      PieceEntries(table, ps[0]) + AllEntries(table, ps[1..])
  }

  lemma {:induction false} AllEntriesAppend(table: seq<IndexEntry>, ps: seq<Piece>, p: Piece)
    requires PieceFits(table, p) && forall q <- ps :: PieceFits(table, q)
    ensures AllEntries(table, ps + [p]) == AllEntries(table, ps) + PieceEntries(table, p)
  {
    var all := ps + [p];
    if ps == [] {
      assert all == [p] && all[1..] == [];
    } else {
      assert all[0] == ps[0] && all[1..] == ps[1..] + [p];
      AllEntriesAppend(table, ps[1..], p);
      assert PieceFits(table, ps[0]);
      Regroup(PieceEntries(table, ps[0]), AllEntries(table, ps[1..]), PieceEntries(table, p));
    }
  }

  lemma ExtendedEntries(table: seq<IndexEntry>, front: seq<Piece>, was: Piece, op: Op)
    requires PieceFits(table, was) && forall p <- front :: PieceFits(table, p)
    requires op.Log? && OpFits(table, op) && was.index == op.index
    ensures var grown := was.(calls := was.calls + [op.args]);
      && (forall p <- front + [grown] :: PieceFits(table, p))
      && AllEntries(table, front + [grown]) == AllEntries(table, front + [was]) + [LoggedEntry(table, op)]
  {
    var grown := was.(calls := was.calls + [op.args]);
    GrownPiece(table, was, op);
    AllEntriesAppend(table, front, was);
    AllEntriesAppend(table, front, grown);
    var es := AllEntries(table, front);
    assert es + (PieceEntries(table, was) + [LoggedEntry(table, op)])
        == es + PieceEntries(table, was) + [LoggedEntry(table, op)];
  }

  lemma GrownPiece(table: seq<IndexEntry>, p: Piece, op: Op)
    requires PieceFits(table, p)
    requires op.Log? && OpFits(table, op) && p.index == op.index
    ensures var grown := p.(calls := p.calls + [op.args]);
      && PieceFits(table, grown)
      && PieceEntries(table, grown) == PieceEntries(table, p) + [LoggedEntry(table, op)]
  {
  }

  lemma AddCallEntries(table: seq<IndexEntry>, sp: Split, op: Op)
    requires forall p <- sp.pieces :: PieceFits(table, p)
    requires op.Log? && OpFits(table, op)
    ensures var ps := AddCall(sp, op.index, op.args).pieces;
      && (forall p <- ps :: PieceFits(table, p))
      && AllEntries(table, ps) == AllEntries(table, sp.pieces) + [LoggedEntry(table, op)]
  {
    var n := |sp.pieces|;
    var ps := AddCall(sp, op.index, op.args).pieces;
    if |ps| == n {
      var front, was := sp.pieces[..n - 1], sp.pieces[n - 1];
      assert sp.pieces == front + [was];
      assert PieceFits(table, was) && forall p <- front :: p in sp.pieces;
      ExtendedEntries(table, front, was, op);
    } else {
      var added := ps[n];
      assert ps == sp.pieces + [added];
      AllEntriesAppend(table, sp.pieces, added);
      assert PieceEntries(table, added) == [LoggedEntry(table, op)];
    }
  }

  lemma {:induction false} PiecesCoverCalls(table: seq<IndexEntry>, ops: seq<Op>)
    requires forall op <- ops :: OpFits(table, op)
    ensures forall p <- Pieces(ops) :: PieceFits(table, p)
    ensures AllEntries(table, Pieces(ops)) == Logged(table, ops)
    decreases |ops|
  {
    if ops != [] {
      var before, last := ops[..|ops| - 1], ops[|ops| - 1];
      assert OpFits(table, last);
      PiecesCoverCalls(table, before);
      if last.Log? {
        AddCallEntries(table, SplitOf(before), last);
      }
    }
  }

  // ----- The exact condition -----

  /** The first piece that writes a record. */
  function NextLong(ps: seq<Piece>): (r: Option<Piece>)
    ensures r.Some? ==> |r.value.calls| > 1
  {
    if ps == [] then None
    else if |ps[0].calls| > 1 then Some(ps[0])
    else NextLong(ps[1..])
  }

  /** No single call shares its index with the next run of several. */
  predicate Unambiguous(ps: seq<Piece>) {
    ps == [] ||
    (&& (|ps[0].calls| == 1 ==> NextLong(ps[1..]).None? || NextLong(ps[1..]).value.index != ps[0].index)
     && Unambiguous(ps[1..]))
  }

  predicate AllHeaders(ps: seq<Piece>) {
    forall p <- ps :: p.hasHeader
  }

  lemma {:induction false} HeadRecord(ps: seq<Piece>)
    ensures NextLong(ps).None? ==> RecsOf(ps) == []
    ensures NextLong(ps).Some? ==>
      RecsOf(ps) != [] && RecsOf(ps)[0] == Rec(NextLong(ps).value.index, |NextLong(ps).value.calls|)
  {
    if ps != [] && |ps[0].calls| <= 1 {
      HeadRecord(ps[1..]);
    }
  }

  /** What the decoder does with a piece whose header it is looking at. */
  lemma DecodePieceHeader(table: seq<IndexEntry>, ps: seq<Piece>)
    requires forall p <- ps :: PieceFits(table, p)
    requires ps != [] && ps[0].hasHeader
    ensures var p := ps[0];
      var s1 := CallsBytes(p.calls) + LogBytes(ps[1..]);
      && Take(LogBytes(ps), 2) == Some((Le(p.index, 2), s1))
      && FromLe(Le(p.index, 2)) == p.index
  {
    var p := ps[0];
    assert p in ps;
    TakeAfter(Le(p.index, 2), CallsBytes(p.calls), LogBytes(ps[1..]));
    U16RoundTrip(p.index);
  }

  lemma DecodeOwnPiece(table: seq<IndexEntry>, ps: seq<Piece>)
    requires forall p <- ps :: PieceFits(table, p)
    requires ps != [] && ps[0].hasHeader
    requires TakeRec(ps[0].index, RecsOf(ps)) == (|ps[0].calls|, RecsOf(ps[1..]))
    ensures var more := DecodeRecs(table, LogBytes(ps[1..]), RecsOf(ps[1..]));
      assert PieceFits(table, ps[0]);
      DecodeRecs(table, LogBytes(ps), RecsOf(ps))
        == if more.None? then None else Some((PieceEntries(table, ps[0]) + more.value.0, more.value.1))
  {
    var p := ps[0];
    assert p in ps;
    DecodePieceHeader(table, ps);
    DecodeCalls(p.index, table[p.index], p.calls, LogBytes(ps[1..]));
    DecodeStep(table, LogBytes(ps), RecsOf(ps), Le(p.index, 2), CallsBytes(p.calls) + LogBytes(ps[1..]), |p.calls|,
               RecsOf(ps[1..]), PieceEntries(table, p), LogBytes(ps[1..]));
  }

  /** One round of the decoder. */
  lemma DecodeStep(table: seq<IndexEntry>, s: seq<Byte>, recs: seq<Rec>, header: seq<Byte>, s1: seq<Byte>, n: nat,
                   recs': seq<Rec>, entries: seq<Entry>, s2: seq<Byte>)
    requires Take(s, 2) == Some((header, s1)) && FromLe(header) < |table|
    requires TakeRec(FromLe(header), recs) == (n, recs')
    requires DecodeRun(FromLe(header), table[FromLe(header)], n, s1) == Some((entries, s2))
    ensures var more := DecodeRecs(table, s2, recs');
      DecodeRecs(table, s, recs) == if more.None? then None else Some((entries + more.value.0, more.value.1))
  {
  }

  lemma OwnRecord(ps: seq<Piece>)
    requires ps != [] && ps[0].calls != []
    requires |ps[0].calls| == 1 ==> NextLong(ps[1..]).None? || NextLong(ps[1..]).value.index != ps[0].index
    ensures TakeRec(ps[0].index, RecsOf(ps)) == (|ps[0].calls|, RecsOf(ps[1..]))
  {
    HeadRecord(ps[1..]);
    if |ps[0].calls| == 1 {
      assert RecsOf(ps) == RecsOf(ps[1..]);
    } else {
      assert RecsOf(ps)[1..] == RecsOf(ps[1..]);
    }
  }

  /** To the end of both streams. */
  lemma {:induction false} UnambiguousDecodes(table: seq<IndexEntry>, ps: seq<Piece>)
    requires forall p <- ps :: PieceFits(table, p)
    requires AllHeaders(ps) && Unambiguous(ps)
    ensures DecodeRecs(table, LogBytes(ps), RecsOf(ps)) == Some((AllEntries(table, ps), []))
    decreases |ps|
  {
    if ps != [] {
      assert ps[0] in ps;
      OwnRecord(ps);
      DecodeOwnPiece(table, ps);
      UnambiguousDecodes(table, ps[1..]);
    }
  }

  /** After a single call the next piece has another index. */
  predicate SinglesAreRuns(ps: seq<Piece>) {
    forall k :: 0 <= k < |ps| - 1 && |ps[k].calls| == 1 ==> ps[k + 1].index != ps[k].index
  }

  lemma {:induction false} PiecesSinglesAreRuns(ops: seq<Op>)
    ensures SinglesAreRuns(Pieces(ops))
  {
    if ops != [] {
      PiecesSinglesAreRuns(ops[..|ops| - 1]);
    }
  }

  lemma SinglesTail(ps: seq<Piece>)
    requires ps != [] && SinglesAreRuns(ps)
    ensures SinglesAreRuns(ps[1..])
  {
    forall k | 0 <= k < |ps[1..]| - 1 && |ps[1..][k].calls| == 1
      ensures ps[1..][k + 1].index != ps[1..][k].index
    {
      assert ps[1..][k] == ps[k + 1] && ps[1..][k + 1] == ps[k + 2];
    }
  }

  lemma StolenRecord(table: seq<IndexEntry>, ps: seq<Piece>)
    requires forall p <- ps :: PieceFits(table, p)
    requires AllHeaders(ps) && SinglesAreRuns(ps) && ps != []
    requires |ps[0].calls| == 1 && NextLong(ps[1..]).Some? && NextLong(ps[1..]).value.index == ps[0].index
    ensures Decoded(DecodeRecs(table, LogBytes(ps), RecsOf(ps))) != Some(AllEntries(table, ps))
  {
    var p := ps[0];
    assert PieceFits(table, p) && p in ps;
    HeadRecord(ps[1..]);
    DecodePieceHeader(table, ps);
    assert RecsOf(ps) == RecsOf(ps[1..]);
    var count := RecsOf(ps)[0].count;
    var s1 := CallsBytes(p.calls) + LogBytes(ps[1..]);
    if DecodeRun(p.index, table[p.index], count, s1).Some? {
      RepeatsIndex(p.index, table[p.index], count, s1);
      SecondEntry(table, ps);
      var es := DecodeRun(p.index, table[p.index], count, s1).value.0;
      assert es[1] in es;
    }
  }

  lemma SecondEntry(table: seq<IndexEntry>, ps: seq<Piece>)
    requires forall p <- ps :: PieceFits(table, p)
    requires SinglesAreRuns(ps) && |ps| > 1 && |ps[0].calls| == 1
    ensures |AllEntries(table, ps)| > 1 && AllEntries(table, ps)[1].index != ps[0].index
  {
    assert PieceFits(table, ps[0]) && PieceFits(table, ps[1]);
    assert ps[1..][0] == ps[1];
    var a, b := PieceEntries(table, ps[0]), PieceEntries(table, ps[1]);
    assert AllEntries(table, ps[1..]) == b + AllEntries(table, ps[1..][1..]);
    assert AllEntries(table, ps) == a + AllEntries(table, ps[1..]);
    assert AllEntries(table, ps)[1] == b[0];
  }

  /** A stolen record makes the single call repeat where the next piece's call belongs. */
  lemma {:induction false} AmbiguousMisdecodes(table: seq<IndexEntry>, ps: seq<Piece>)
    requires forall p <- ps :: PieceFits(table, p)
    requires AllHeaders(ps) && SinglesAreRuns(ps) && !Unambiguous(ps)
    ensures Decoded(DecodeRecs(table, LogBytes(ps), RecsOf(ps))) != Some(AllEntries(table, ps))
    decreases |ps|
  {
    var p := ps[0];
    assert p in ps;
    assert PieceFits(table, p);
    if |p.calls| == 1 && NextLong(ps[1..]).Some? && NextLong(ps[1..]).value.index == p.index {
      StolenRecord(table, ps);
    } else {
      OwnRecord(ps);
      DecodeOwnPiece(table, ps);
      SinglesTail(ps);
      AmbiguousMisdecodes(table, ps[1..]);
      if DecodeRecs(table, LogBytes(ps[1..]), RecsOf(ps[1..])).Some? {
        CancelPrefix(PieceEntries(table, p), DecodeRecs(table, LogBytes(ps[1..]), RecsOf(ps[1..])).value.0,
                     AllEntries(table, ps[1..]));
      }
    }
  }

  lemma {:induction false} RepeatsIndex(index: nat, row: IndexEntry, n: nat, s: seq<Byte>)
    requires DecodeRun(index, row, n, s).Some?
    ensures forall e <- DecodeRun(index, row, n, s).value.0 :: e.index == index
    decreases n
  {
    if n > 0 {
      RepeatsIndex(index, row, n - 1, DecodeArgs(row.args, s).value.1);
    }
  }

  // ----- Lost headers, by counting bytes -----

  function Headers(ps: seq<Piece>): nat {
    if ps == [] then 0 else (if ps[0].hasHeader then 1 else 0) + Headers(ps[1..])
  }

  lemma {:induction false} PiecesConserve(table: seq<IndexEntry>, ps: seq<Piece>)
    requires forall p <- ps :: PieceFits(table, p)
    ensures forall r <- RecsOf(ps) :: r.count > 1
    ensures Shaped(table, AllEntries(table, ps))
    ensures |LogBytes(ps)| == 2 * Headers(ps) + EntriesSize(table, AllEntries(table, ps))
    ensures |AllEntries(table, ps)| == |ps| + Excess(RecsOf(ps))
    decreases |ps|
  {
    if ps != [] {
      var p := ps[0];
      assert p in ps;
      PiecesConserve(table, ps[1..]);
      CallsSize(table, p.index, p.calls);
      EntriesSizeConcat(table, PieceEntries(table, p), AllEntries(table, ps[1..]));
      if |p.calls| > 1 {
        assert RecsOf(ps)[1..] == RecsOf(ps[1..]);
      } else {
        assert RecsOf(ps) == RecsOf(ps[1..]);
      }
    }
  }

  lemma {:induction false} MissingHeaders(ps: seq<Piece>)
    ensures Headers(ps) <= |ps|
    ensures Headers(ps) == |ps| <==> AllHeaders(ps)
  {
    if ps != [] {
      MissingHeaders(ps[1..]);
      assert ps == [ps[0]] + ps[1..];
    }
  }

  /** With a header missing the log is too short for that many calls, whatever their bytes are. */
  lemma LostHeaderMisdecodes(table: seq<IndexEntry>, ps: seq<Piece>)
    requires forall p <- ps :: PieceFits(table, p)
    requires !AllHeaders(ps)
    ensures Decoded(DecodeRecs(table, LogBytes(ps), RecsOf(ps))) != Some(AllEntries(table, ps))
  {
    PiecesConserve(table, ps);
    MissingHeaders(ps);
    if DecodeRecs(table, LogBytes(ps), RecsOf(ps)).Some? {
      DecodeConserves(table, LogBytes(ps), RecsOf(ps));
      ExcessPositive(DecodeRecs(table, LogBytes(ps), RecsOf(ps)).value.1);
    }
  }

  lemma {:induction false} RecsValid(table: seq<IndexEntry>, ps: seq<Piece>)
    requires forall p <- ps :: PieceFits(table, p)
    requires CallCount(ps) < U64_LIMIT
    ensures forall r <- RecsOf(ps) :: r.Valid()
    decreases |ps|
  {
    if ps != [] {
      assert ps[0] in ps;
      RecsValid(table, ps[1..]);
    }
  }

  lemma {:induction false} CallCountOfPieces(ops: seq<Op>)
    ensures CallCount(Pieces(ops)) <= |ops|
  {
    if ops != [] {
      var before := ops[..|ops| - 1];
      CallCountOfPieces(before);
      var ps := Pieces(before);
      var n := |ps|;
      var ps' := Pieces(ops);
      if ps' != ps {
        if |ps'| == n {
          assert ps == ps[..n - 1] + [ps[n - 1]];
          Append(ps[..n - 1], ps[n - 1]);
          Append(ps[..n - 1], ps'[n - 1]);
        } else {
          Append(ps, ps'[n]);
        }
      }
    }
  }

  /** What a caller has to respect for the logs to be readable. */
  predicate Decodable(ops: seq<Op>) {
    AllHeaders(Pieces(ops)) && Unambiguous(Pieces(ops))
  }

  /**
   * MAIN RESULT. For every sequence of calls and flushes with a final flush, the unpacker's entries
   * are exactly the calls made, in order, if and only if the sequence is decodable; and then it
   * reaches the end of both streams.
   */
  lemma DecodesExactly(table: seq<IndexEntry>, ops: seq<Op>)
    requires |ops| + 1 < U64_LIMIT
    requires forall op <- ops :: OpFits(table, op)
    ensures var c := After(ops + [Flush]);
      && (Decoded(DecodeLog(table, c.log, c.runs)) == Some(Logged(table, ops)) <==> Decodable(ops))
      && (Decodable(ops) ==> DecodeLog(table, c.log, c.runs) == Some((Logged(table, ops), [])))
  {
    var ps := Pieces(ops);
    FinalStreams(ops);
    PiecesCoverCalls(table, ops);
    CallCountOfPieces(ops);
    RecsValid(table, ps);
    DecodeLogIsDecodeRecs(table, LogBytes(ps), RecsOf(ps));
    if !AllHeaders(ps) {
      LostHeaderMisdecodes(table, ps);
    } else if Unambiguous(ps) {
      UnambiguousDecodes(table, ps);
    } else {
      PiecesSinglesAreRuns(ops);
      AmbiguousMisdecodes(table, ps);
    }
  }
}
