/**
 * From BINARY_LOG to the unpacker's output: a program's calls and flushes, the three files it
 * leaves behind, and what the unpacker prints from them.
 */
module EndToEnd {
  import opened Wrappers
  import opened Bytes
  import opened Args
  import opened IndexFile
  import opened LogFile
  import opened RunLength
  import opened Packers
  import opened BinaryLogs
  import opened Unpacker

  datatype Event = Call(site: Site, args: seq<Arg>) | FlushNow

  // ----- What the macro's statics do -----

  /** Sites in the order of their first calls. */
  function SitesOf(events: seq<Event>): seq<Site> {
    if events == [] then []
    else
      var before, last := SitesOf(events[..|events| - 1]), events[|events| - 1];
      if last.Call? && last.site !in before then before + [last.site] else before
  }

  /** What each site's first call wrote to the index file. */
  function RegistrationsOf(events: seq<Event>): seq<Registration> {
    if events == [] then []
    else
      var before, last := events[..|events| - 1], events[|events| - 1];
      if last.Call? && last.site !in SitesOf(before) then
        RegistrationsOf(before) + [Registration(last.site.format, last.args)]
      else
        RegistrationsOf(before)
  }

  function IdOf(sites: seq<Site>, site: Site): (id: nat)
    requires site in sites
    ensures id < |sites| && sites[id] == site && site !in sites[..id]
  {
    if sites[0] == site then 0 else 1 + IdOf(sites[1..], site)
  }

  lemma {:induction false} IdStays(sites: seq<Site>, more: seq<Site>, site: Site)
    requires site in sites
    ensures IdOf(sites + more, site) == IdOf(sites, site)
  {
    if sites[0] != site {
      assert (sites + more)[1..] == sites[1..] + more;
      IdStays(sites[1..], more, site);
    }
  }

  function OpsOf(events: seq<Event>): (ops: seq<Op>)
    ensures |ops| == |events|
  {
    if events == [] then []
    else
      var before, last := OpsOf(events[..|events| - 1]), events[|events| - 1];
      match last
      case Call(site, args) =>
        LastSiteKnown(events);
        before + [Log(IdOf(SitesOf(events), site), args)]
      case FlushNow => before + [Flush]
  }

  lemma LastSiteKnown(events: seq<Event>)
    requires events != [] && events[|events| - 1].Call?
    ensures events[|events| - 1].site in SitesOf(events)
  {
  }

  /** What the unpacker is meant to find: every call, in order. */
  function Expected(events: seq<Event>): seq<Entry> {
    if events == [] then []
    else
      var before, last := Expected(events[..|events| - 1]), events[|events| - 1];
      match last
      case Call(site, args) =>
        LastSiteKnown(events);
        before + [Entry(IdOf(SitesOf(events), site), site.format, ValuesOf(args))]
      case FlushNow => before
  }

  // ----- Assumptions on the program -----

  /** The C++ types of a site's arguments never change, nor do its constants. */
  predicate CallMatches(regs: seq<Registration>, sites: seq<Site>, e: Event) {
    e.Call? ==>
      && ValidArgs(e.args) && e.site in sites && |regs| == |sites|
      && DescribedArgs(e.args) == DescribedArgs(regs[IdOf(sites, e.site)].args)
  }

  predicate Consistent(events: seq<Event>) {
    forall e <- events :: CallMatches(RegistrationsOf(events), SitesOf(events), e)
  }

  predicate CallRepresentable(e: Event) {
    e.Call? ==> FitsU16(e.site.format) && |e.args| < 256 && Fits(e.args)
  }

  // ----- Bookkeeping -----

  predicate RegisteredBy(r: Registration, events: seq<Event>) {
    exists e <- events :: e.Call? && e.site.format == r.format && e.args == r.args
  }

  lemma {:induction false} RegistrationsMatchSites(events: seq<Event>)
    ensures |RegistrationsOf(events)| == |SitesOf(events)|
    ensures forall k :: 0 <= k < |SitesOf(events)| ==> RegistrationsOf(events)[k].format == SitesOf(events)[k].format
    ensures forall r <- RegistrationsOf(events) :: RegisteredBy(r, events)
  {
    if events != [] {
      var before, last := events[..|events| - 1], events[|events| - 1];
      assert last in events;
      RegistrationsMatchSites(before);
      forall r | r in RegistrationsOf(events)
        ensures RegisteredBy(r, events)
      {
        if r in RegistrationsOf(before) {
          var e :| e in before && e.Call? && e.site.format == r.format && e.args == r.args;
          assert e in events;
        } else {
          assert last.Call? && r == Registration(last.site.format, last.args);
        }
      }
    }
  }

  /** Later sites do not change the table rows or ids that earlier calls used. */
  lemma {:induction false} PrefixSites(events: seq<Event>, n: nat)
    requires n <= |events|
    ensures SitesOf(events[..n]) <= SitesOf(events)
    decreases |events|
  {
    if n == |events| {
      assert events[..n] == events;
    } else {
      assert events[..|events| - 1][..n] == events[..n];
      PrefixSites(events[..|events| - 1], n);
    }
  }

  /** The k-th operation is the k-th event with its site's id. */
  lemma {:induction false} OpAt(events: seq<Event>, k: nat)
    requires k < |events|
    ensures events[k].FlushNow? <==> OpsOf(events)[k].Flush?
    ensures events[k].Call? ==>
      && events[k].site in SitesOf(events)
      && OpsOf(events)[k] == Log(IdOf(SitesOf(events), events[k].site), events[k].args)
    decreases |events|
  {
    var n := |events| - 1;
    if k < n {
      OpAt(events[..n], k);
      PrefixSites(events, n);
      if events[k].Call? {
        var sites := SitesOf(events[..n]);
        assert SitesOf(events) == sites + SitesOf(events)[|sites|..];
        IdStays(sites, SitesOf(events)[|sites|..], events[k].site);
      }
    } else if events[k].Call? {
      LastSiteKnown(events);
    }
  }

  lemma OpsFit(events: seq<Event>)
    requires Consistent(events) && forall e <- events :: CallRepresentable(e)
    requires |SitesOf(events)| <= MAX_SITES
    ensures forall op <- OpsOf(events) :: OpFits(TableOf(RegistrationsOf(events)), op)
  {
    var table := TableOf(RegistrationsOf(events));
    RegistrationsMatchSites(events);
    forall op | op in OpsOf(events)
      ensures OpFits(table, op)
    {
      var k :| 0 <= k < |OpsOf(events)| && OpsOf(events)[k] == op;
      OpAt(events, k);
      assert CallMatches(RegistrationsOf(events), SitesOf(events), events[k]);
      assert CallRepresentable(events[k]);
    }
  }

  predicate FormatsMatch(table: seq<IndexEntry>, sites: seq<Site>) {
    |sites| <= |table| && forall k :: 0 <= k < |sites| ==> table[k].format == sites[k].format
  }

  lemma {:induction false} LoggedIsExpected(table: seq<IndexEntry>, events: seq<Event>)
    requires forall op <- OpsOf(events) :: OpFits(table, op)
    requires FormatsMatch(table, SitesOf(events))
    ensures Logged(table, OpsOf(events)) == Expected(events)
    decreases |events|
  {
    if events != [] {
      var n := |events| - 1;
      assert FormatsMatch(table, SitesOf(events[..n])) by {
        PrefixSites(events, n);
        assert forall k :: 0 <= k < |SitesOf(events[..n])| ==> SitesOf(events[..n])[k] == SitesOf(events)[k];
      }
      assert OpsOf(events)[..n] == OpsOf(events[..n]);
      assert OpFits(table, OpsOf(events)[n]);
      LoggedIsExpected(table, events[..n]);
    }
  }

  /** The lines meant: each call's format string, and its numbers and strings. */
  function Meant(events: seq<Event>): seq<Line> {
    if events == [] then []
    else
      var before, last := Meant(events[..|events| - 1]), events[|events| - 1];
      if last.Call? then before + [Line(last.site.format, Meanings(last.args))] else before
  }

  predicate ValidCalls(events: seq<Event>) {
    forall e <- events :: e.Call? ==> ValidArgs(e.args)
  }

  predicate TypedEntries(es: seq<Entry>) {
    forall e <- es :: forall v <- e.args :: WellTyped(v)
  }

  /** The entries to be found print as what was logged. */
  lemma {:induction false} ExpectedMeans(events: seq<Event>)
    requires ValidCalls(events)
    ensures Lines(Expected(events)) == Meant(events) && TypedEntries(Expected(events))
    decreases |events|
  {
    if events != [] {
      var before, last := events[..|events| - 1], events[|events| - 1];
      assert last in events;
      ExpectedMeans(before);
      if last.Call? {
        ValuesMean(last.args);
        var x := Expected(events)[|Expected(before)|];
        assert Expected(events) == Expected(before) + [x] && x.args == ValuesOf(last.args);
        assert Lines(Expected(events)) == Lines(Expected(before)) + [Line(x.format, ShownArgs(x.args))];
      }
    }
  }

  lemma {:induction false} ExpectedBounded(events: seq<Event>)
    requires ValidCalls(events) && forall e <- events :: CallRepresentable(e)
    ensures forall e <- Expected(events) :: BoundedEntry(e)
    decreases |events|
  {
    if events != [] {
      var before, last := events[..|events| - 1], events[|events| - 1];
      assert last in events;
      ExpectedBounded(before);
      if last.Call? {
        forall k | 0 <= k < |last.args|
          ensures Sized(ValuesOf(last.args)[k].kind, ValuesOf(last.args)[k].data)
        {
          assert CallRepresentable(last) && last.args[k] in last.args;
          ValuesAt(last.args, k);
          DataSized(last.args[k].value);
        }
      }
    }
  }

  /** A call that does not fit the length fields is expected to print something the decoder cannot. */
  lemma {:induction false} UnrepresentableExpected(events: seq<Event>, e: Event)
    requires e in events && !CallRepresentable(e) && ValidArgs(e.args)
    ensures exists x <- Expected(events) :: !BoundedEntry(x)
    decreases |events|
  {
    var n := |events| - 1;
    var before, last := events[..n], events[n];
    if e in before {
      UnrepresentableExpected(before, e);
      var x :| x in Expected(before) && !BoundedEntry(x);
      assert x in Expected(events);
    } else {
      assert e == last;
      LastSiteKnown(events);
      var x := Entry(IdOf(SitesOf(events), e.site), e.site.format, ValuesOf(e.args));
      assert Expected(events)[|Expected(before)|] == x;
      if FitsU16(e.site.format) && |e.args| < 256 {
        var a :| a in e.args && !FitsU16(a.value.Data());
        var k :| 0 <= k < |e.args| && e.args[k] == a;
        ValuesAt(e.args, k);
        DataSized(a.value);
        assert !Sized(x.args[k].kind, x.args[k].data) && x.args[k] in x.args;
      }
      assert !BoundedEntry(x);
    }
  }

  // ----- The end-to-end theorem -----

  /** The unpacker's entries and what it leaves unread, or None if it reads outside one of the files. */
  function Unpack(indexFile: seq<Byte>, logFile: seq<Byte>, runlengthFile: seq<Byte>)
    : Option<(seq<Entry>, seq<Byte>)>
  {
    var table :- Parse(indexFile);
    DecodeLog(table, logFile, runlengthFile)
  }

  /** What a program's three files unpack to. */
  function Unpacked(events: seq<Event>): Option<(seq<Entry>, seq<Byte>)> {
    var c := After(OpsOf(events) + [Flush]);
    Unpack(IndexBytes(RegistrationsOf(events)), c.log, c.runs)
  }

  /** The lines printed from it. */
  function Printed(r: Option<(seq<Entry>, seq<Byte>)>): Option<seq<Line>> {
    if r.None? then None else Some(Lines(r.value.0))
  }

  /** The condition a program has to meet, checkable on its calls and flushes alone. */
  predicate Readable(events: seq<Event>) {
    (forall e <- events :: CallRepresentable(e)) && Decodable(OpsOf(events))
  }

  lemma TableFits(events: seq<Event>)
    requires Consistent(events) && forall e <- events :: CallRepresentable(e)
    requires |SitesOf(events)| <= MAX_SITES
    ensures var table := TableOf(RegistrationsOf(events));
      && Parse(IndexBytes(RegistrationsOf(events))) == Some(table)
      && FormatsMatch(table, SitesOf(events)) && |table| == |SitesOf(events)|
      && (forall op <- OpsOf(events) :: OpFits(table, op))
      && Logged(table, OpsOf(events)) == Expected(events)
  {
    var regs := RegistrationsOf(events);
    RegistrationsMatchSites(events);
    OpsFit(events);
    forall r | r in regs
      ensures r.Ok()
    {
      assert RegisteredBy(r, events);
      var e :| e in events && e.Call? && e.site.format == r.format && e.args == r.args;
      assert CallMatches(regs, SitesOf(events), e) && CallRepresentable(e);
    }
    ParseRoundTrip(regs);
    LoggedIsExpected(TableOf(regs), events);
  }

  /** No decoder output has the lines of a call that does not fit the length fields. */
  lemma UnrepresentableMisunpacks(events: seq<Event>, log: seq<Byte>, runs: seq<Byte>)
    requires Consistent(events) && !forall e <- events :: CallRepresentable(e)
    ensures Printed(Unpack(IndexBytes(RegistrationsOf(events)), log, runs)) != Some(Lines(Expected(events)))
  {
    ConsistentIsValid(events);
    ExpectedMeans(events);
    var index := IndexBytes(RegistrationsOf(events));
    var e :| e in events && !CallRepresentable(e);
    assert CallMatches(RegistrationsOf(events), SitesOf(events), e);
    UnrepresentableExpected(events, e);
    var x :| x in Expected(events) && !BoundedEntry(x);
    var k :| 0 <= k < |Expected(events)| && Expected(events)[k] == x;
    var r := Unpack(index, log, runs);
    if r.Some? {
      ParseBounded(index);
      DecodeBounded(Parse(index).value, log, runs);
      if Lines(r.value.0) == Lines(Expected(events)) {
        LineLooksBounded(Expected(events), r.value.0, k);
      }
    }
  }

  lemma ConsistentIsValid(events: seq<Event>)
    requires Consistent(events)
    ensures ValidCalls(events)
  {
    forall e | e in events
      ensures e.Call? ==> ValidArgs(e.args)
    {
      assert CallMatches(RegistrationsOf(events), SitesOf(events), e);
    }
  }

  /** What prints like a bounded entry is one. */
  lemma LooksBounded(e: Entry, x: Entry)
    requires BoundedEntry(e) && forall v <- x.args :: WellTyped(v)
    requires e.format == x.format && ShownArgs(e.args) == ShownArgs(x.args)
    ensures BoundedEntry(x)
  {
    assert |ShownArgs(e.args)| == |ShownArgs(x.args)|;
    forall j | 0 <= j < |x.args|
      ensures Sized(x.args[j].kind, x.args[j].data)
    {
      assert x.args[j] in x.args && e.args[j] in e.args;
      assert ShownArgs(e.args)[j] == ShownArgs(x.args)[j];
    }
  }

  lemma LineLooksBounded(expected: seq<Entry>, es: seq<Entry>, k: nat)
    requires k < |expected| && forall v <- expected[k].args :: WellTyped(v)
    requires (forall e <- es :: BoundedEntry(e)) && Lines(es) == Lines(expected)
    ensures BoundedEntry(expected[k])
  {
    assert |Lines(es)| == |Lines(expected)| && Lines(es)[k] == Lines(expected)[k];
    assert es[k] in es;
    LooksBounded(es[k], expected[k]);
  }

  /**
   * END TO END, with the table rows. The entries found are exactly those of the calls made, in
   * order, if and only if every call fits the length fields and the call sequence is decodable;
   * and then the unpacker has read both streams to the end.
   */
  lemma UnpackedExactly(events: seq<Event>)
    requires Consistent(events)
    requires |SitesOf(events)| <= MAX_SITES && |events| + 1 < U64_LIMIT
    ensures Decoded(Unpacked(events)) == Some(Expected(events)) <==> Readable(events)
    ensures Readable(events) ==> Unpacked(events) == Some((Expected(events), []))
  {
    if forall e <- events :: CallRepresentable(e) {
      TableFits(events);
      DecodesExactly(TableOf(RegistrationsOf(events)), OpsOf(events));
    } else {
      var c := After(OpsOf(events) + [Flush]);
      UnrepresentableMisunpacks(events, c.log, c.runs);
    }
  }

  predicate DistinctSiteFormats(sites: seq<Site>) {
    forall i, j :: 0 <= i < j < |sites| ==> sites[i].format != sites[j].format
  }

  lemma {:induction false} LoggedRowed(table: seq<IndexEntry>, ops: seq<Op>)
    requires forall op <- ops :: OpFits(table, op)
    ensures Rowed(table, Logged(table, ops))
  {
    if ops != [] {
      assert OpFits(table, ops[|ops| - 1]);
      LoggedRowed(table, ops[..|ops| - 1]);
    }
  }

  /**
   * END TO END, as printed: format strings, numbers and strings. A readable program's lines come
   * back; where no two sites share a format string, no other program's do.
   */
  lemma PrintedExactly(events: seq<Event>)
    requires Consistent(events)
    requires |SitesOf(events)| <= MAX_SITES && |events| + 1 < U64_LIMIT
    ensures Readable(events) ==> Printed(Unpacked(events)) == Some(Meant(events))
    ensures DistinctSiteFormats(SitesOf(events)) ==>
      (Printed(Unpacked(events)) == Some(Meant(events)) <==> Readable(events))
  {
    UnpackedExactly(events);
    ConsistentIsValid(events);
    ExpectedMeans(events);
    var c := After(OpsOf(events) + [Flush]);
    if !forall e <- events :: CallRepresentable(e) {
      UnrepresentableMisunpacks(events, c.log, c.runs);
    } else if DistinctSiteFormats(SitesOf(events)) && Unpacked(events).Some? {
      var table := TableOf(RegistrationsOf(events));
      TableFits(events);
      DecodeRowed(table, c.log, c.runs);
      LoggedRowed(table, OpsOf(events));
      ParseBounded(IndexBytes(RegistrationsOf(events)));
      DecodeBounded(table, c.log, c.runs);
      ExpectedBounded(events);
      LinesTellRows(table, Unpacked(events).value.0, Expected(events));
    }
  }

  // ----- The same, run through the packer's and the parsers' own code -----

  /** What the macro's statics and the 8-bit counter hold after some events. */
  ghost predicate Tracks(ids: map<Site, nat>, counter: nat, events: seq<Event>) {
    && counter == |SitesOf(events)| % 256
    && (forall s :: s in ids <==> s in SitesOf(events))
    && (|SitesOf(events)| <= MAX_SITES ==> forall s <- SitesOf(events) :: ids[s] == IdOf(SitesOf(events), s))
  }

  lemma IdTracked(ids: map<Site, nat>, counter: nat, events: seq<Event>, site: Site)
    requires Tracks(ids, counter, events) && |SitesOf(events)| <= MAX_SITES && site in SitesOf(events)
    ensures site in ids && ids[site] % U16_LIMIT == IdOf(SitesOf(events), site)
  {
    var id := ids[site];
    assert id == IdOf(SitesOf(events), site) < MAX_SITES;
    UncutLength(id);
  }

  lemma NewestId(sites: seq<Site>, site: Site)
    requires site !in sites
    ensures IdOf(sites + [site], site) == |sites|
  {
    var id := IdOf(sites + [site], site);
    assert forall k :: 0 <= k < |sites| ==> (sites + [site])[k] == sites[k];
  }

  lemma FirstCall(ids: map<Site, nat>, counter: nat, events: seq<Event>, site: Site, args: seq<Arg>)
    requires Tracks(ids, counter, events) && site !in ids
    ensures var events' := events + [Call(site, args)];
      && Tracks(ids[site := counter], (counter + 1) % 256, events')
      && RegistrationsOf(events') == RegistrationsOf(events) + [Registration(site.format, args)]
  {
    var events' := events + [Call(site, args)];
    assert events'[..|events|] == events;
    var sites, sites' := SitesOf(events), SitesOf(events');
    assert sites' == sites + [site];
    if |sites'| <= MAX_SITES {
      forall s | s in sites'
        ensures ids[site := counter][s] == IdOf(sites', s)
      {
        if s in sites {
          IdStays(sites, [site], s);
        } else {
          NewestId(sites, site);
        }
      }
    }
  }

  lemma LaterCall(ids: map<Site, nat>, counter: nat, events: seq<Event>, site: Site, args: seq<Arg>)
    requires Tracks(ids, counter, events) && site in ids
    ensures var events' := events + [Call(site, args)];
      Tracks(ids, counter, events') && RegistrationsOf(events') == RegistrationsOf(events)
  {
    var events' := events + [Call(site, args)];
    assert events'[..|events|] == events;
  }

  lemma CallOp(events: seq<Event>, site: Site, args: seq<Arg>)
    ensures var events' := events + [Call(site, args)];
      && site in SitesOf(events')
      && After(OpsOf(events')) == Step(After(OpsOf(events)), Log(IdOf(SitesOf(events'), site), args))
  {
    var events' := events + [Call(site, args)];
    assert events'[..|events|] == events;
    StepOps(events');
    OpAt(events', |events|);
  }

  lemma StepOps(events: seq<Event>)
    requires events != []
    ensures var n := |events| - 1;
      After(OpsOf(events)) == Step(After(OpsOf(events[..n])), OpsOf(events)[n])
  {
    var n := |events| - 1;
    assert OpsOf(events)[..n] == OpsOf(events[..n]);
  }

  lemma FlushOp(events: seq<Event>)
    ensures var events' := events + [FlushNow];
      && SitesOf(events') == SitesOf(events) && RegistrationsOf(events') == RegistrationsOf(events)
      && After(OpsOf(events')) == Step(After(OpsOf(events)), Flush)
  {
    var events' := events + [FlushNow];
    assert events'[..|events|] == events;
    StepOps(events');
  }

  /** Everything written so far is what the specification says of the events so far. */
  ghost predicate Ran(p: Program, events: seq<Event>)
    reads p, p.logger, p.logger.packer
    reads p.logger.packer.buffer, p.logger.packer.indexBuffer, p.logger.packer.runlengthBuffer
  {
    && p.Valid()
    && Tracks(p.ids, p.logger.formatStringIndex, events)
    && p.logger.packer.State() == After(OpsOf(events))
    && p.logger.packer.IndexStream() == IndexBytes(RegistrationsOf(events))
  }

  method RunCall(p: Program, ghost done: seq<Event>, site: Site, args: seq<Arg>)
    requires Ran(p, done) && |SitesOf(done + [Call(site, args)])| <= MAX_SITES
    modifies p, p.logger, p.logger.packer
    modifies p.logger.packer.buffer, p.logger.packer.indexBuffer, p.logger.packer.runlengthBuffer
    ensures Ran(p, done + [Call(site, args)])
  {
    ghost var events := done + [Call(site, args)];
    CallOp(done, site, args);
    if site in p.ids {
      LaterCall(p.ids, p.logger.formatStringIndex, done, site, args);
    } else {
      FirstCall(p.ids, p.logger.formatStringIndex, done, site, args);
      IndexBytesAppend(RegistrationsOf(done), Registration(site.format, args));
    }
    p.LogCall(site, args);
    assert Tracks(p.ids, p.logger.formatStringIndex, events);
    IdTracked(p.ids, p.logger.formatStringIndex, events, site);
    assert p.logger.packer.State() == After(OpsOf(events));
  }

  method RunFlush(p: Program, ghost done: seq<Event>)
    requires Ran(p, done)
    modifies p.logger.packer
    modifies p.logger.packer.buffer, p.logger.packer.indexBuffer, p.logger.packer.runlengthBuffer
    ensures Ran(p, done + [FlushNow])
  {
    FlushOp(done);
    assert Tracks(p.ids, p.logger.formatStringIndex, done + [FlushNow]);
    p.logger.packer.FlushAll();
  }

  method RunProgram(p: Program, events: seq<Event>)
    requires Ran(p, [])
    requires |SitesOf(events)| <= MAX_SITES
    modifies p, p.logger, p.logger.packer
    modifies p.logger.packer.buffer, p.logger.packer.indexBuffer, p.logger.packer.runlengthBuffer
    ensures Ran(p, events)
  {
    for i := 0 to |events|
      invariant Ran(p, events[..i])
    {
      assert events[..i + 1] == events[..i] + [events[i]];
      PrefixSites(events, i + 1);
      match events[i] {
        case Call(site, args) => RunCall(p, events[..i], site, args);
        case FlushNow => RunFlush(p, events[..i]);
      }
    }
    assert events[..|events|] == events;
  }

  /**
   * A whole session: log, flush as the destructors do, map the three files, unpack them. The result
   * is what was printed, with the table rows, and what was not read of the run-length file.
   */
  method Session(events: seq<Event>, logBufferSize: nat, indexBufferSize: nat, runlengthBufferSize: nat)
    returns (result: Option<(seq<Entry>, seq<Byte>)>)
    requires logBufferSize >= 1 && indexBufferSize >= 2 && runlengthBufferSize >= RECORD_SIZE
    requires Consistent(events)
    requires |SitesOf(events)| <= MAX_SITES && |events| + 1 < U64_LIMIT
    ensures result == Unpacked(events)
    ensures Decoded(result) == Some(Expected(events)) <==> Readable(events)
    ensures Readable(events) ==> result == Some((Expected(events), [])) && Printed(result) == Some(Meant(events))
    ensures DistinctSiteFormats(SitesOf(events)) ==>
      (Printed(result) == Some(Meant(events)) <==> Readable(events))
  {
    var packer := new Packer(logBufferSize, indexBufferSize, runlengthBufferSize);
    var logger := new BinaryLog(packer);
    var program := new Program(logger);
    RunProgram(program, events);
    packer.FlushAll();
    assert (OpsOf(events) + [Flush])[..|events|] == OpsOf(events);
    assert packer.State() == After(OpsOf(events) + [Flush]);
    UnpackedExactly(events);
    PrintedExactly(events);
    result := UnpackFiles(packer.indexFile, packer.logFile, packer.runlengthFile);
  }

  /** The unpacker's main program. */
  method UnpackFiles(indexFile: seq<Byte>, logFile: seq<Byte>, runlengthFile: seq<Byte>)
    returns (result: Option<(seq<Entry>, seq<Byte>)>)
    ensures result == Unpack(indexFile, logFile, runlengthFile)
  {
    var indexParser := new IndexFileParser(indexFile);
    var table := indexParser.Parse();
    if table.None? {
      return None;
    }
    result := UnpackLog(table.value, logFile, runlengthFile);
  }

  method UnpackLog(table: seq<IndexEntry>, logFile: seq<Byte>, runlengthFile: seq<Byte>)
    returns (result: Option<(seq<Entry>, seq<Byte>)>)
    ensures result == DecodeLog(table, logFile, runlengthFile)
  {
    var logParser := new LogFileParser(logFile, runlengthFile);
    var ok := logParser.ParseAndPrint(table);
    if ok {
      return Some((logParser.printed, logParser.runlengthfile[logParser.runlengthfileIndex..]));
    } else {
      return None;
    }
  }
}
