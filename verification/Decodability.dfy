/**
 * The two halves of `RunLength.Decodable` in terms a caller can check: which flushes lose a
 * header, and which single calls steal a record. With two concrete sequences that fail.
 */
module Decodability {
  import opened Wrappers
  import opened Bytes
  import opened Args
  import opened IndexFile
  import opened LogFile
  import opened RunLength

  // ----- Flushes -----

  /**
   * Call j repeats the non-zero index of the previous call i, with nothing but flushes between,
   * and the run counter exceeded 1 when the first of those flushes came.
   */
  ghost predicate Resumes(ops: seq<Op>, i: nat, j: nat) {
    && i + 1 < j < |ops|
    && ops[i].Log? && ops[j].Log? && ops[i].index == ops[j].index != 0
    && (forall k :: i < k < j ==> ops[k].Flush?)
    && After(ops[..i + 1]).run > 1
  }

  ghost predicate SafeFlushes(ops: seq<Op>) {
    forall i: nat, j: nat :: !Resumes(ops, i, j)
  }

  /** Position of the last call, or -1. */
  function LastCall(ops: seq<Op>): (i: int)
    ensures -1 <= i < |ops|
    ensures i >= 0 ==> ops[i].Log?
    ensures forall k :: i < k < |ops| ==> ops[k].Flush?
  {
    if ops == [] then -1
    else if ops[|ops| - 1].Log? then |ops| - 1
    else LastCall(ops[..|ops| - 1])
  }

  /**
   * What the last piece has to do with the last call, which has that index and left the counter at
   * `runThen`; `atEnd` if nothing came after it.
   */
  predicate PieceFacts(sp: Split, run: nat, index: nat, runThen: nat, atEnd: bool) {
    && sp.pieces != [] && sp.pieces[|sp.pieces| - 1].index == index
    && (sp.counting <==> atEnd || runThen <= 1)
    && (sp.counting ==> run == runThen)
  }

  ghost predicate LastPieceFacts(ops: seq<Op>) {
    var i := LastCall(ops);
    if i == -1 then SplitOf(ops).pieces == []
    else PieceFacts(SplitOf(ops), After(ops).run, ops[i].index, After(ops[..i + 1]).run, i == |ops| - 1)
  }

  lemma {:induction false} LastPieceIsLastCall(ops: seq<Op>)
    requires |ops| < U64_LIMIT
    ensures LastPieceFacts(ops)
  {
    if ops != [] {
      var n := |ops| - 1;
      LastPieceIsLastCall(ops[..n]);
      if ops[n].Log? {
        CallMakesFacts(ops);
      } else {
        FlushKeepsFacts(ops);
      }
    }
  }

  lemma CallMakesFacts(ops: seq<Op>)
    requires ops != [] && ops[|ops| - 1].Log?
    ensures LastPieceFacts(ops)
  {
    var n := |ops| - 1;
    AddedPieceFacts(SplitOf(ops[..n]), ops[n].index, ops[n].args, After(ops).run);
    assert ops[..n + 1] == ops && SplitOf(ops) == AddCall(SplitOf(ops[..n]), ops[n].index, ops[n].args);
  }

  lemma AddedPieceFacts(sp: Split, index: nat, args: seq<Arg>, run: nat)
    ensures PieceFacts(AddCall(sp, index, args), run, index, run, true)
  {
  }

  lemma FlushRun(c: Codec, sp: Split)
    requires sp.counting ==> sp.pieces != [] && c.run == |sp.pieces[|sp.pieces| - 1].calls|
    ensures CloseCount(sp).counting <==> sp.counting && c.run <= 1
    ensures CloseCount(sp).counting ==> WriteRunlength(c).run == c.run
  {
  }

  lemma FlushPieceFacts(c: Codec, sp: Split, index: nat, runThen: nat, atEnd: bool)
    requires sp.counting ==> sp.pieces != [] && c.run == |sp.pieces[|sp.pieces| - 1].calls|
    requires PieceFacts(sp, c.run, index, runThen, atEnd)
    ensures PieceFacts(CloseCount(sp), WriteRunlength(c).run, index, runThen, false)
  {
    FlushRun(c, sp);
  }

  lemma RunCounts(ops: seq<Op>)
    requires |ops| < U64_LIMIT
    ensures var sp := SplitOf(ops);
      sp.counting ==> After(ops).run == |sp.pieces[|sp.pieces| - 1].calls|
  {
    CodecMatchesPieces(ops);
  }

  lemma FlushStep(ops: seq<Op>, before: seq<Op>)
    requires ops == before + [Flush]
    ensures After(ops) == WriteRunlength(After(before)) && SplitOf(ops) == CloseCount(SplitOf(before))
    ensures LastCall(ops) == LastCall(before)
  {
    assert ops[..|before|] == before;
  }

  lemma FlushKeepsFacts(ops: seq<Op>)
    requires 0 < |ops| < U64_LIMIT && ops[|ops| - 1].Flush?
    requires LastPieceFacts(ops[..|ops| - 1])
    ensures LastPieceFacts(ops)
  {
    var before := ops[..|ops| - 1];
    var i := LastCall(before);
    FlushStep(ops, before);
    if i >= 0 {
      assert ops[..i + 1] == before[..i + 1];
      RunCounts(before);
      FlushPieceFacts(After(before), SplitOf(before), ops[i].index, After(ops[..i + 1]).run, i == |before| - 1);
    }
  }

  /** Flushing anywhere else keeps every header. */
  lemma {:induction false} HeadersKeptExactly(ops: seq<Op>)
    requires |ops| < U64_LIMIT
    ensures AllHeaders(Pieces(ops)) <==> SafeFlushes(ops)
  {
    if ops != [] {
      var n := |ops| - 1;
      HeadersKeptExactly(ops[..n]);
      LastPieceIsLastCall(ops[..n]);
      ResumesPrefix(ops);
      PiecesGrow(ops);
      ResumesOnlyLastCall(ops);
    }
  }

  ghost predicate NoneResumedAt(ops: seq<Op>, j: nat) {
    forall i: nat :: !Resumes(ops, i, j)
  }

  lemma ResumesOnlyLastCall(ops: seq<Op>)
    requires ops != [] && LastPieceFacts(ops[..|ops| - 1])
    ensures var n := |ops| - 1;
      var sp := SplitOf(ops[..n]);
      NoneResumedAt(ops, n) <==>
        (ops[n].Log? && sp.pieces != [] && sp.pieces[|sp.pieces| - 1].index == ops[n].index && !sp.counting
         ==> ops[n].index == 0)
  {
    var n := |ops| - 1;
    var i := LastCall(ops[..n]);
    ResumedIsLast(ops, n, i);
    if i >= 0 {
      assert ops[..n][..i + 1] == ops[..i + 1];
      LastCallResumed(ops, n, i, SplitOf(ops[..n]), After(ops[..n]).run, After(ops[..i + 1]).run);
    }
  }

  lemma LastCallResumed(ops: seq<Op>, n: nat, i: nat, sp: Split, run: nat, runThen: nat)
    requires n + 1 == |ops| && i == LastCall(ops[..n]) && runThen == After(ops[..i + 1]).run
    requires PieceFacts(sp, run, ops[i].index, runThen, i == n - 1)
    ensures !Resumes(ops, i, n) <==>
      (ops[n].Log? && sp.pieces[|sp.pieces| - 1].index == ops[n].index && !sp.counting ==> ops[n].index == 0)
  {
    ResumesAt(ops, i);
  }

  lemma ResumedIsLast(ops: seq<Op>, n: nat, i: int)
    requires n + 1 == |ops| && i == LastCall(ops[..n])
    ensures NoneResumedAt(ops, n) <==> i < 0 || !Resumes(ops, i, n)
  {
    forall k: nat | Resumes(ops, k, n)
      ensures k == i
    {
      assert ops[k] == ops[..n][k];
    }
  }

  lemma ResumesAt(ops: seq<Op>, i: nat)
    requires ops != [] && i == LastCall(ops[..|ops| - 1])
    ensures var n := |ops| - 1;
      Resumes(ops, i, n) <==>
        i + 1 < n && ops[n].Log? && ops[i].index == ops[n].index != 0 && After(ops[..i + 1]).run > 1
  {
    var n := |ops| - 1;
    assert forall k :: i <= k < n ==> ops[k] == ops[..n][k];
  }

  lemma ResumesPrefix(ops: seq<Op>)
    requires ops != []
    ensures SafeFlushes(ops) <==> SafeFlushes(ops[..|ops| - 1]) && NoneResumedAt(ops, |ops| - 1)
  {
    var before := ops[..|ops| - 1];
    forall i: nat, j: nat | j < |before|
      ensures Resumes(ops, i, j) <==> Resumes(before, i, j)
    {
      if i < j {
        assert ops[..i + 1] == before[..i + 1];
        assert forall k :: i <= k <= j ==> ops[k] == before[k];
      }
    }
    if SafeFlushes(before) && NoneResumedAt(ops, |ops| - 1) {
      forall i: nat, j: nat
        ensures !Resumes(ops, i, j)
      {
        assert !Resumes(before, i, j);
      }
    }
    if SafeFlushes(ops) {
      forall i: nat, j: nat
        ensures !Resumes(before, i, j)
      {
        assert !Resumes(ops, i, j);
      }
    }
  }

  lemma PiecesGrow(ops: seq<Op>)
    requires ops != []
    ensures var n := |ops| - 1;
      var sp := SplitOf(ops[..n]);
      AllHeaders(Pieces(ops)) <==>
        AllHeaders(sp.pieces) &&
        (ops[n].Log? && sp.pieces != [] && sp.pieces[|sp.pieces| - 1].index == ops[n].index && !sp.counting
         ==> ops[n].index == 0)
  {
    var n := |ops| - 1;
    var sp := SplitOf(ops[..n]);
    if ops[n].Log? {
      AddCallHeaders(sp, ops[n].index, ops[n].args);
    }
  }

  lemma AddCallHeaders(sp: Split, index: nat, args: seq<Arg>)
    ensures AllHeaders(AddCall(sp, index, args).pieces) <==>
      AllHeaders(sp.pieces) &&
      (sp.pieces != [] && sp.pieces[|sp.pieces| - 1].index == index && !sp.counting ==> index == 0)
  {
    var m := |sp.pieces|;
    if m > 0 && sp.pieces[m - 1].index == index && sp.counting {
      GrownPieceHeaders(sp.pieces[..m - 1], sp.pieces[m - 1], args);
      assert sp.pieces == sp.pieces[..m - 1] + [sp.pieces[m - 1]];
    } else {
      HeadersAppend(sp.pieces, AddCall(sp, index, args).pieces[m]);
    }
  }

  lemma GrownPieceHeaders(front: seq<Piece>, p: Piece, args: seq<Arg>)
    ensures AllHeaders(front + [p.(calls := p.calls + [args])]) <==> AllHeaders(front + [p])
  {
    HeadersAppend(front, p);
    HeadersAppend(front, p.(calls := p.calls + [args]));
  }

  lemma HeadersAppend(ps: seq<Piece>, p: Piece)
    ensures AllHeaders(ps + [p]) <==> AllHeaders(ps) && p.hasHeader
  {
    assert p in ps + [p];
    assert forall q :: q in ps + [p] <==> q in ps || q == p;
  }

  // ----- Single calls -----

  /** Single call i carries the index of the next run longer than one, j. */
  ghost predicate Steals(ps: seq<Piece>, i: nat, j: nat) {
    && i < j < |ps| && |ps[i].calls| == 1 && |ps[j].calls| > 1
    && ps[i].index == ps[j].index
    && forall k :: i < k < j ==> |ps[k].calls| <= 1
  }

  lemma {:induction false} NextLongAt(ps: seq<Piece>) returns (j: nat)
    ensures NextLong(ps).None? ==> j == |ps|
    ensures NextLong(ps).Some? ==> j < |ps| && ps[j] == NextLong(ps).value
    ensures forall k :: 0 <= k < j ==> |ps[k].calls| <= 1
  {
    if ps == [] || |ps[0].calls| > 1 {
      j := 0;
    } else {
      j := NextLongAt(ps[1..]);
      j := j + 1;
    }
  }

  lemma {:induction false} UnambiguousExactly(ps: seq<Piece>)
    ensures Unambiguous(ps) <==> forall i: nat, j: nat :: !Steals(ps, i, j)
    decreases |ps|
  {
    if ps != [] {
      var rest := ps[1..];
      UnambiguousExactly(rest);
      forall i: nat, j: nat
        ensures Steals(rest, i, j) <==> Steals(ps, i + 1, j + 1)
      {
        if i < j < |rest| {
          assert (forall k :: i < k < j ==> |rest[k].calls| <= 1)
            <==> forall k :: i + 1 < k < j + 1 ==> |ps[k].calls| <= 1 by {
            assert forall k :: i < k < j ==> rest[k] == ps[k + 1];
            assert forall k :: i + 1 < k < j + 1 ==> ps[k] == rest[k - 1];
          }
        }
      }
      var m := NextLongAt(rest);
      assert forall k :: 0 < k < m + 1 ==> ps[k] == rest[k - 1];
      if NextLong(rest).Some? && |ps[0].calls| == 1 && NextLong(rest).value.index == ps[0].index {
        assert Steals(ps, 0, m + 1);
      } else {
        forall j: nat
          ensures !Steals(ps, 0, j)
        {
          if 0 < j < |ps| && |ps[j].calls| > 1 && forall k :: 0 < k < j ==> |ps[k].calls| <= 1 {
            assert forall k :: 0 < k <= j ==> ps[k] == rest[k - 1];
            assert forall k :: 0 <= k < j - 1 ==> rest[k] == ps[k + 1];
            assert m == j - 1;
          }
        }
      }
      if i: nat, j: nat :| Steals(ps, i, j) && i > 0 {
        assert Steals(rest, i - 1, j - 1);
      }
    }
  }

  // ----- Without flushes the pieces are the maximal runs -----

  lemma {:induction false} RunsAreMaximal(ops: seq<Op>)
    requires forall op <- ops :: op.Log?
    ensures AllHeaders(Pieces(ops))
    ensures forall k :: 0 <= k < |Pieces(ops)| - 1 ==> Pieces(ops)[k].index != Pieces(ops)[k + 1].index
    ensures ops != [] ==> SplitOf(ops).counting
    decreases |ops|
  {
    if ops != [] {
      assert ops[|ops| - 1] in ops;
      RunsAreMaximal(ops[..|ops| - 1]);
    }
  }

  /**
   * Without flushes the calls come back if and only if no run of one call has the index of the
   * first later run of several.
   */
  lemma FlushFreeDecodesExactly(table: seq<IndexEntry>, ops: seq<Op>)
    requires |ops| + 1 < U64_LIMIT
    requires forall op <- ops :: op.Log? && OpFits(table, op)
    ensures var c := After(ops + [Flush]);
      Decoded(DecodeLog(table, c.log, c.runs)) == Some(Logged(table, ops)) <==>
      forall i: nat, j: nat :: !Steals(Pieces(ops), i, j)
  {
    RunsAreMaximal(ops);
    UnambiguousExactly(Pieces(ops));
    DecodesExactly(table, ops);
  }

  // ----- Flush transparency -----

  function WithoutFlushes(ops: seq<Op>): (calls: seq<Op>)
    ensures forall op <- calls :: op.Log? && op in ops
    ensures |calls| <= |ops|
  {
    if ops == [] then []
    else
      var last := ops[|ops| - 1];
      WithoutFlushes(ops[..|ops| - 1]) + (if last.Log? then [last] else [])
  }

  lemma SplitSnoc(ops: seq<Op>, op: Op)
    ensures SplitOf(ops + [op]) == SplitStep(SplitOf(ops), op)
  {
    assert (ops + [op])[..|ops|] == ops;
  }

  lemma {:induction false} SameCallsLogged(table: seq<IndexEntry>, ops: seq<Op>)
    requires forall op <- ops :: OpFits(table, op)
    ensures forall op <- WithoutFlushes(ops) :: OpFits(table, op)
    ensures Logged(table, WithoutFlushes(ops)) == Logged(table, ops)
    decreases |ops|
  {
    if ops != [] {
      var before, last := ops[..|ops| - 1], ops[|ops| - 1];
      assert OpFits(table, last);
      SameCallsLogged(table, before);
      if last.Log? {
        assert WithoutFlushes(ops)[..|WithoutFlushes(ops)| - 1] == WithoutFlushes(before);
      } else {
        assert WithoutFlushes(ops) == WithoutFlushes(before);
      }
    }
  }

  /** A piece put in front of others joins the first one if they share the index. */
  function JoinedFront(h: Piece, ms: seq<Piece>): (r: seq<Piece>)
    ensures r != []
  {
    if ms != [] && ms[0].index == h.index then
      [Piece(h.index, true, h.calls + ms[0].calls)] + ms[1..]
    else
      [Piece(h.index, true, h.calls)] + ms
  }

  /** A piece put behind others joins the last one if they share the index. */
  function JoinedBack(ms: seq<Piece>, p: Piece): (r: seq<Piece>)
    ensures r != []
  {
    var n := |ms|;
    if n > 0 && ms[n - 1].index == p.index then
      ms[..n - 1] + [Piece(p.index, true, ms[n - 1].calls + p.calls)]
    else
      ms + [Piece(p.index, true, p.calls)]
  }

  /** Neighbouring pieces of one index joined: the runs that flushes have cut. */
  function Merge(ps: seq<Piece>): (ms: seq<Piece>)
    ensures ps == [] <==> ms == []
  {
    if ps == [] then [] else JoinedFront(ps[0], Merge(ps[1..]))
  }

  lemma FrontAndBack(h: Piece, ms: seq<Piece>, p: Piece)
    ensures JoinedBack(JoinedFront(h, ms), p) == JoinedFront(h, JoinedBack(ms, p))
  {
    if |ms| > 1 {
      BackInside(ms, p);
      BackInside(JoinedFront(h, ms), p);
    } else if |ms| == 1 && ms[0].index == p.index == h.index {
      Regroup(h.calls, ms[0].calls, p.calls);
    }
  }

  lemma BackInside(ms: seq<Piece>, p: Piece)
    requires |ms| > 1
    ensures JoinedBack(ms, p) == [ms[0]] + JoinedBack(ms[1..], p)
  {
    var n := |ms|;
    assert ms == [ms[0]] + ms[1..] && ms[1..][n - 2] == ms[n - 1];
    assert ms[..n - 1] == [ms[0]] + ms[1..][..n - 2];
  }

  lemma {:induction false} MergeSnoc(ps: seq<Piece>, p: Piece)
    ensures Merge(ps + [p]) == JoinedBack(Merge(ps), p)
    decreases |ps|
  {
    var all := ps + [p];
    if ps == [] {
      assert all == [p] && all[1..] == [];
    } else {
      assert all[0] == ps[0] && all[1..] == ps[1..] + [p];
      MergeSnoc(ps[1..], p);
      FrontAndBack(ps[0], Merge(ps[1..]), p);
    }
  }

  lemma BackTwice(ms: seq<Piece>, p: Piece, args: seq<Arg>)
    ensures JoinedBack(JoinedBack(ms, p), Piece(p.index, true, [args]))
         == JoinedBack(ms, p.(calls := p.calls + [args]))
  {
    var n := |ms|;
    if n > 0 && ms[n - 1].index == p.index {
      Regroup(ms[n - 1].calls, p.calls, [args]);
    }
  }

  lemma MergeAddCall(sp: Split, index: nat, args: seq<Arg>)
    ensures Merge(AddCall(sp, index, args).pieces) == JoinedBack(Merge(sp.pieces), Piece(index, true, [args]))
  {
    var n := |sp.pieces|;
    if n > 0 && sp.pieces[n - 1].index == index && sp.counting {
      var front, was := sp.pieces[..n - 1], sp.pieces[n - 1];
      assert sp.pieces == front + [was];
      MergeSnoc(front, was);
      MergeSnoc(front, was.(calls := was.calls + [args]));
      BackTwice(Merge(front), was, args);
    } else {
      MergeSnoc(sp.pieces, AddCall(sp, index, args).pieces[n]);
    }
  }

  /** What flushes do to the pieces is undone by joining them. */
  lemma {:induction false} MergedPieces(ops: seq<Op>)
    ensures Pieces(WithoutFlushes(ops)) == Merge(Pieces(ops))
    ensures WithoutFlushes(ops) != [] ==> SplitOf(WithoutFlushes(ops)).counting
    decreases |ops|
  {
    if ops != [] {
      var before, last := ops[..|ops| - 1], ops[|ops| - 1];
      MergedPieces(before);
      var calls := WithoutFlushes(before);
      if last.Log? {
        SplitSnoc(calls, last);
        MergeAddCall(SplitOf(before), last.index, last.args);
        CountedCall(calls, last.index, last.args);
      } else {
        assert WithoutFlushes(ops) == calls;
      }
    }
  }

  lemma CountedCall(calls: seq<Op>, index: nat, args: seq<Arg>)
    requires (forall op <- calls :: op.Log?) && (calls != [] ==> SplitOf(calls).counting)
    ensures AddCall(SplitOf(calls), index, args)
         == Split(JoinedBack(Pieces(calls), Piece(index, true, [args])), true)
  {
    RunsAreMaximal(calls);
    var n := |Pieces(calls)|;
    if n > 0 {
      assert Pieces(calls)[n - 1] in Pieces(calls);
    }
  }

  /** Joining keeps which index the next long run has: a single call never has its own as neighbour. */
  lemma {:induction false} MergeKeepsNextLong(ps: seq<Piece>)
    requires SinglesAreRuns(ps) && forall p <- ps :: p.calls != []
    ensures ps != [] ==> Merge(ps)[0].index == ps[0].index
    ensures forall m <- Merge(ps) :: m.calls != []
    ensures NextLong(Merge(ps)).None? <==> NextLong(ps).None?
    ensures NextLong(ps).Some? ==> NextLong(Merge(ps)).value.index == NextLong(ps).value.index
  {
    if ps != [] {
      assert ps[0] in ps;
      SinglesTail(ps);
      MergeKeepsNextLong(ps[1..]);
      assert Merge(ps)[1..] == Merge(ps[1..]) || Merge(ps)[1..] == Merge(ps[1..])[1..];
    }
  }

  lemma {:induction false} MergeUnambiguous(ps: seq<Piece>)
    requires SinglesAreRuns(ps) && forall p <- ps :: p.calls != []
    requires Unambiguous(ps)
    ensures Unambiguous(Merge(ps))
  {
    if ps != [] {
      var ms := Merge(ps[1..]);
      SinglesTail(ps);
      MergeUnambiguous(ps[1..]);
      MergeKeepsNextLong(ps[1..]);
      assert ps[0] in ps;
      assert Merge(ps)[1..] == if ms != [] && ms[0].index == ps[0].index then ms[1..] else ms;
      assert ms != [] ==> ms[0] in ms;
    }
  }

  /** Flushing where no counted run of a non-zero index goes on does not change what a decodable sequence yields. */
  lemma FlushTransparency(table: seq<IndexEntry>, ops: seq<Op>)
    requires |ops| + 1 < U64_LIMIT
    requires forall op <- ops :: OpFits(table, op)
    requires SafeFlushes(ops) && Unambiguous(Pieces(ops))
    ensures var a, b := After(ops + [Flush]), After(WithoutFlushes(ops) + [Flush]);
      && DecodeLog(table, a.log, a.runs) == DecodeLog(table, b.log, b.runs)
      && DecodeLog(table, a.log, a.runs) == Some((Logged(table, ops), []))
  {
    var calls := WithoutFlushes(ops);
    SameCallsLogged(table, ops);
    HeadersKeptExactly(ops);
    RunsAreMaximal(calls);
    PiecesSinglesAreRuns(ops);
    MergedPieces(ops);
    MergeUnambiguous(Pieces(ops));
    DecodesExactly(table, ops);
    DecodesExactly(table, calls);
  }

  // ----- Sequences that are not decodable, whatever the arguments are -----

  lemma PiecesOfABAA(w: Op, x: Op, y: Op, z: Op)
    requires w.Log? && x.Log? && y.Log? && z.Log?
    requires w.index == y.index == z.index != x.index
    ensures Pieces([w, x, y, z])
         == [Piece(w.index, true, [w.args]), Piece(x.index, true, [x.args]), Piece(y.index, true, [y.args, z.args])]
  {
    var p, q, r := Piece(w.index, true, [w.args]), Piece(x.index, true, [x.args]), Piece(y.index, true, [y.args]);
    var ops := [w, x, y];
    assert SplitOf([w]) == Split([p], true) by {
      SplitSnoc([], w);
      assert [] + [w] == [w];
    }
    assert SplitOf([w, x]) == Split([p, q], true) by {
      SplitSnoc([w], x);
      assert [w] + [x] == [w, x];
    }
    assert SplitOf(ops) == Split([p, q, r], true) by {
      SplitSnoc([w, x], y);
      assert [w, x] + [y] == ops;
    }
    SplitSnoc(ops, z);
    assert ops + [z] == [w, x, y, z];
    assert [p, q, r][..2] == [p, q] && [y.args] + [z.args] == [y.args, z.args];
  }

  /** A B A A: the first A takes the record of the last two. */
  lemma SingleCallTakesLaterRecord(table: seq<IndexEntry>, w: Op, x: Op, y: Op, z: Op)
    requires w.Log? && x.Log? && y.Log? && z.Log?
    requires w.index == y.index == z.index != x.index
    requires forall op <- [w, x, y, z] :: OpFits(table, op)
    ensures var ops := [w, x, y, z];
      var c := After(ops + [Flush]);
      Decoded(DecodeLog(table, c.log, c.runs)) != Some(Logged(table, ops))
  {
    PiecesOfABAA(w, x, y, z);
    assert Steals(Pieces([w, x, y, z]), 0, 2);
    UnambiguousExactly(Pieces([w, x, y, z]));
    DecodesExactly(table, [w, x, y, z]);
  }

  /** B B, flush, B: the third call writes no header, and its arguments are taken for one. */
  lemma FlushLosesHeader(table: seq<IndexEntry>, x: Op, y: Op, z: Op)
    requires x.Log? && y.Log? && z.Log?
    requires x.index == y.index == z.index != 0
    requires forall op <- [x, y, Flush, z] :: OpFits(table, op)
    ensures var ops := [x, y, Flush, z];
      var c := After(ops + [Flush]);
      Decoded(DecodeLog(table, c.log, c.runs)) != Some(Logged(table, ops))
  {
    var ops := [x, y, Flush, z];
    assert ops[..2] == [x, y] && ops[..2][..1] == [x] && ops[..2][..1][..0] == [];
    assert After([x]).run == 1 && After([x]).index == x.index;
    assert Resumes(ops, 1, 3);
    HeadersKeptExactly(ops);
    DecodesExactly(table, ops);
  }
}
