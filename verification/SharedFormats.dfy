/**
 * Why `EndToEnd.PrintedExactly` asks for distinct format strings: where two sites share one, a
 * stolen record need not show.
 */
module SharedFormats {
  import opened Wrappers
  import opened Bytes
  import opened Args
  import opened IndexFile
  import opened LogFile
  import opened RunLength
  import opened BinaryLogs
  import opened EndToEnd
  import Decodability

  /** The pieces of the calls A B A A and A A B A, without arguments. */
  const ABAA := [Piece(0, true, [[]]), Piece(1, true, [[]]), Piece(0, true, [[], []])]
  const AABA := [Piece(0, true, [[], []]), Piece(1, true, [[]]), Piece(0, true, [[]])]

  /** Both sequences leave the same two streams. */
  lemma SameStreams()
    ensures LogBytes(ABAA) == LogBytes(AABA) && RecsOf(ABAA) == RecsOf(AABA)
  {
    NoBytes();
    ThreePieces(ABAA);
    ThreePieces(AABA);
  }

  lemma ThreePieces(ps: seq<Piece>)
    requires |ps| == 3
    ensures LogBytes(ps) == PieceBytes(ps[0]) + (PieceBytes(ps[1]) + (PieceBytes(ps[2]) + []))
    ensures RecsOf(ps) == RecsOf([ps[0]]) + (RecsOf([ps[1]]) + RecsOf([ps[2]]))
  {
    assert ps[1..] == [ps[1], ps[2]] && ps[1..][1..] == [ps[2]];
    assert LogBytes([ps[2]]) == PieceBytes(ps[2]) + [];
  }

  lemma NoBytes()
    ensures CallsBytes([[]]) == [] && CallsBytes([[], []]) == []
  {
    var one: seq<seq<Arg>> := [[]];
    assert [[], []][1..] == one && one[1..] == [];
  }

  /** Every line is nothing but the format string. */
  predicate Plain(es: seq<Entry>, format: seq<Byte>) {
    forall e <- es :: e.format == format && e.args == []
  }

  lemma PlainCalls(index: nat, format: seq<Byte>, calls: seq<seq<Arg>>)
    requires forall args <- calls :: args == []
    ensures Plain(EntriesOf(index, format, calls), format)
  {
    var es := EntriesOf(index, format, calls);
    forall e <- es
      ensures e.format == format && e.args == []
    {
      var k :| 0 <= k < |es| && es[k] == e;
      assert calls[k] in calls;
    }
  }

  lemma {:induction false} PlainEntries(table: seq<IndexEntry>, ps: seq<Piece>, format: seq<Byte>)
    requires forall p <- ps :: PieceFits(table, p) && table[p.index].format == format
    requires forall p <- ps :: forall args <- p.calls :: args == []
    ensures Plain(AllEntries(table, ps), format) && |AllEntries(table, ps)| == CallCount(ps)
    decreases |ps|
  {
    if ps != [] {
      var p := ps[0];
      assert PieceFits(table, p) && p in ps;
      PlainEntries(table, ps[1..], format);
      PlainCalls(p.index, format, p.calls);
    }
  }

  lemma PlainLines(a: seq<Entry>, b: seq<Entry>, format: seq<Byte>)
    requires |a| == |b| && Plain(a, format) && Plain(b, format)
    ensures Lines(a) == Lines(b)
  {
    forall k | 0 <= k < |a|
      ensures Lines(a)[k] == Lines(b)[k]
    {
      assert a[k] in a && b[k] in b;
    }
  }

  function AbaaEvents(a: Site, b: Site): seq<Event> {
    [Call(a, []), Call(b, []), Call(a, []), Call(a, [])]
  }

  /** What a program leaves behind: the sites met, their registrations, and the operations. */
  predicate Leaves(events: seq<Event>, sites: seq<Site>, regs: seq<Registration>, ops: seq<Op>) {
    SitesOf(events) == sites && RegistrationsOf(events) == regs && OpsOf(events) == ops
  }

  lemma NewSite(events: seq<Event>, now: seq<Event>, site: Site, sites: seq<Site>, regs: seq<Registration>,
                ops: seq<Op>)
    requires Leaves(events, sites, regs, ops) && site !in sites && now == events + [Call(site, [])]
    ensures Leaves(now, sites + [site], regs + [Registration(site.format, [])], ops + [Log(|sites|, [])])
  {
    assert now[..|now| - 1] == events;
    IdsAreUnique(sites + [site], |sites|);
  }

  lemma KnownSite(events: seq<Event>, now: seq<Event>, id: nat, sites: seq<Site>, regs: seq<Registration>,
                  ops: seq<Op>)
    requires Leaves(events, sites, regs, ops)
    requires id < |sites| && sites[id] !in sites[..id] && now == events + [Call(sites[id], [])]
    ensures Leaves(now, sites, regs, ops + [Log(id, [])])
  {
    assert now[..|now| - 1] == events;
    IdsAreUnique(sites, id);
  }

  lemma IdsAreUnique(sites: seq<Site>, id: nat)
    requires id < |sites| && sites[id] !in sites[..id]
    ensures IdOf(sites, sites[id]) == id
  {
  }

  lemma AbaaProgram(a: Site, b: Site)
    requires a != b
    ensures Leaves(AbaaEvents(a, b), [a, b], [Registration(a.format, []), Registration(b.format, [])],
                   [Log(0, []), Log(1, []), Log(0, []), Log(0, [])])
  {
    var regs := [Registration(a.format, []), Registration(b.format, [])];
    var events := AbaaEvents(a, b);
    NewSite([], events[..1], a, [], [], []);
    NewSite(events[..1], events[..2], b, [a], regs[..1], [Log(0, [])]);
    KnownSite(events[..2], events[..3], 0, [a, b], regs, [Log(0, []), Log(1, [])]);
    KnownSite(events[..3], events, 0, [a, b], regs, [Log(0, []), Log(1, []), Log(0, [])]);
  }

  lemma AbaaConsistent(a: Site, b: Site)
    requires a != b
    ensures Consistent(AbaaEvents(a, b))
  {
    AbaaProgram(a, b);
  }

  predicate PiecesFit(table: seq<IndexEntry>, format: seq<Byte>, ps: seq<Piece>) {
    && (forall p <- ps :: PieceFits(table, p) && table[p.index].format == format)
    && (forall p <- ps :: forall args <- p.calls :: args == [])
  }

  lemma BothFit(table: seq<IndexEntry>, format: seq<Byte>)
    requires table == [IndexEntry(format, []), IndexEntry(format, [])]
    ensures PiecesFit(table, format, ABAA) && PiecesFit(table, format, AABA)
  {
  }

  lemma AabaDecodes(table: seq<IndexEntry>, format: seq<Byte>)
    requires PiecesFit(table, format, AABA)
    ensures DecodeLog(table, LogBytes(ABAA), RunsBytes(RecsOf(ABAA))) == Some((AllEntries(table, AABA), []))
  {
    SameStreams();
    SameCount();
    RecsValid(table, AABA);
    DecodeLogIsDecodeRecs(table, LogBytes(AABA), RecsOf(AABA));
    NoTheft();
    UnambiguousDecodes(table, AABA);
  }

  lemma SameLines(table: seq<IndexEntry>, format: seq<Byte>)
    requires PiecesFit(table, format, AABA) && PiecesFit(table, format, ABAA)
    ensures Lines(AllEntries(table, AABA)) == Lines(AllEntries(table, ABAA))
  {
    PlainEntries(table, AABA, format);
    PlainEntries(table, ABAA, format);
    SameCount();
    PlainLines(AllEntries(table, AABA), AllEntries(table, ABAA), format);
  }

  lemma NoTheft()
    ensures AllHeaders(AABA) && Unambiguous(AABA)
  {
    assert AABA[1..] == [AABA[1], AABA[2]] && AABA[1..][1..] == [AABA[2]] && AABA[1..][1..][1..] == [];
  }

  lemma SameCount()
    ensures CallCount(AABA) == 4 == CallCount(ABAA)
  {
    assert AABA[1..] == [AABA[1], AABA[2]] && AABA[1..][1..] == [AABA[2]];
    assert ABAA[1..] == [ABAA[1], ABAA[2]] && ABAA[1..][1..] == [ABAA[2]];
  }

  lemma AbaaPieces(ops: seq<Op>)
    requires ops == [Log(0, []), Log(1, []), Log(0, []), Log(0, [])]
    ensures Pieces(ops) == ABAA && !Decodable(ops)
    ensures var c := After(ops + [Flush]);
      c.log == LogBytes(ABAA) && c.runs == RunsBytes(RecsOf(ABAA))
  {
    Decodability.PiecesOfABAA(ops[0], ops[1], ops[2], ops[3]);
    FinalStreams(ops);
    assert Decodability.Steals(ABAA, 0, 2);
    Decodability.UnambiguousExactly(ABAA);
  }

  lemma AbaaTable(a: Site, b: Site)
    requires a != b && a.format == b.format
    ensures TableOf(RegistrationsOf(AbaaEvents(a, b))) == [IndexEntry(a.format, []), IndexEntry(a.format, [])]
  {
    AbaaProgram(a, b);
    var regs := [Registration(a.format, []), Registration(b.format, [])];
    assert regs[1..] == [regs[1]] && regs[1..][1..] == [];
  }

  lemma AbaaUnpacked(events: seq<Event>, format: seq<Byte>, table: seq<IndexEntry>)
    requires Consistent(events) && |SitesOf(events)| <= MAX_SITES
    requires forall e <- events :: CallRepresentable(e)
    requires table == TableOf(RegistrationsOf(events)) == [IndexEntry(format, []), IndexEntry(format, [])]
    requires OpsOf(events) == [Log(0, []), Log(1, []), Log(0, []), Log(0, [])]
    ensures PiecesFit(table, format, AABA) && PiecesFit(table, format, ABAA)
    ensures Unpacked(events) == Some((AllEntries(table, AABA), []))
    ensures Expected(events) == AllEntries(table, ABAA)
  {
    TableFits(events);
    AbaaPieces(OpsOf(events));
    PiecesCoverCalls(table, OpsOf(events));
    BothFit(table, format);
    AabaDecodes(table, format);
  }

  /** A B A A at two sites of one format string and no arguments: not readable, and printed right. */
  lemma TheftDoesNotShow(a: Site, b: Site)
    requires a != b && a.format == b.format && FitsU16(a.format)
    ensures var events := AbaaEvents(a, b);
      && Consistent(events) && |SitesOf(events)| <= MAX_SITES
      && !Readable(events)
      && Printed(Unpacked(events)) == Some(Meant(events))
  {
    var events, table := AbaaEvents(a, b), [IndexEntry(a.format, []), IndexEntry(a.format, [])];
    AbaaProgram(a, b);
    AbaaConsistent(a, b);
    AbaaTable(a, b);
    AbaaPieces(OpsOf(events));
    AbaaUnpacked(events, a.format, table);
    SameLines(table, a.format);
    ExpectedMeans(events);
  }
}
