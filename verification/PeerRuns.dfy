/** Properties of whole receiver runs, over the simple receiver that `PeerState` implements. */
module PeerRuns {
  import opened Basics
  import opened Clock
  import opened Limiter
  import opened Mac
  import opened Peer
  import opened Readings
  import opened Records
  import opened Replay
  import opened Verify
  import opened Wire

  /** What stays fixed over a run: one sender's configuration, one direction, one window size. */
  datatype Receiver = Receiver(cr: Crypto, cfg: PeerConfig, entries: nat, dir: Direction) {
    function Screened(c: Call): Result<Opened> { Screen(cr, c.buf, cfg, c.localEpoch, dir) }

    ghost function Pair(m: Model, c: Call): Option<(u32, u32)> {
      Consumes(Screened(c), m.Recalled(c.buf, c.localEpoch).history, entries)
    }

    ghost function Next(m: Model, c: Call): (m': Model)
      requires m.Valid()
      ensures m'.Valid()
    {
      Step(Screened(c), cfg, entries, m.Recalled(c.buf, c.localEpoch), c.nowMs).0
    }

    ghost function Result(m: Model, c: Call): Result<Accepted>
      requires m.Valid()
    {
      Step(Screened(c), cfg, entries, m.Recalled(c.buf, c.localEpoch), c.nowMs).1
    }

    ghost function After(m: Model, calls: seq<Call>): (m': Model)
      requires m.Valid()
      ensures m'.Valid()
      decreases |calls|
    {
      if calls == [] then m else After(Next(m, calls[0]), calls[1..])
    }

    /** The pairs the replay check let through, in order. */
    ghost function Pairs(m: Model, calls: seq<Call>): seq<(u32, u32)>
      requires m.Valid()
      decreases |calls|
    {
      if calls == [] then []
      else
        var pair := Pair(m, calls[0]);
        (if pair.Some? then [pair.value] else []) + Pairs(Next(m, calls[0]), calls[1..])
    }

    ghost function Results(m: Model, calls: seq<Call>): (rs: seq<Result<Accepted>>)
      requires m.Valid()
      ensures |rs| == |calls|
      decreases |calls|
    {
      if calls == [] then [] else [Result(m, calls[0])] + Results(Next(m, calls[0]), calls[1..])
    }

    /** The calls that consumed an offset, and what they returned. */
    ghost function Consuming(m: Model, calls: seq<Call>): seq<Call>
      requires m.Valid()
      decreases |calls|
    {
      if calls == [] then []
      else (if Pair(m, calls[0]).Some? then [calls[0]] else []) + Consuming(Next(m, calls[0]), calls[1..])
    }

    ghost function ConsumingResults(m: Model, calls: seq<Call>): seq<Result<Accepted>>
      requires m.Valid()
      decreases |calls|
    {
      if calls == [] then []
      else
        (if Pair(m, calls[0]).Some? then [Result(m, calls[0])] else []) + ConsumingResults(Next(m, calls[0]), calls[1..])
    }
  }

  datatype Call = Call(buf: seq<byte>, localEpoch: u32, nowMs: u64)

  /** The calls show a receiver that last pruned at `clock` a local epoch that does not go back. */
  predicate ClockOrdered(clock: u32, calls: seq<Call>)
    decreases |calls|
  {
    calls == [] || (clock <= calls[0].localEpoch && ClockOrdered(calls[0].localEpoch, calls[1..]))
  }

  lemma FreshIsNew(accepted: set<u32>, entries: nat, off: u32)
    requires Fresh(accepted, entries, off)
    ensures off !in accepted
  {
  }

  // ----------------------------------------------------------- no pair twice

  ghost predicate NoRepeats(pairs: seq<(u32, u32)>) {
    forall i, j :: 0 <= i < j < |pairs| ==> pairs[i] != pairs[j]
  }

  /** One call on any clock: a new pair joins what is remembered, or nothing does and the limiter is left alone. */
  lemma NextRemembers(rx: Receiver, m: Model, c: Call)
    requires m.Valid()
    ensures var (pair, h) := (rx.Pair(m, c), m.Recalled(c.buf, c.localEpoch).history);
      && (pair.Some? ==> pair.value !in h && rx.Next(m, c).history == h + {pair.value} && Prunes(c.buf, c.localEpoch)
                         && InAcceptanceWindow(pair.value.0, c.localEpoch))
      && (pair.None? ==> rx.Next(m, c).history == h && rx.Next(m, c).bucket == m.bucket && rx.Result(m, c).Err?)
      && rx.Next(m, c).clock == if Prunes(c.buf, c.localEpoch) then c.localEpoch else m.clock
  {
    hide Open, Fresh, Finish;
    StepCases(rx.Screened(c), rx.cfg, rx.entries, m.Recalled(c.buf, c.localEpoch), c.nowMs);
    var (pair, h) := (rx.Pair(m, c), m.Recalled(c.buf, c.localEpoch).history);
    if pair.Some? {
      EpochLowAt(c.buf);
      FreshIsNew(OffsetsOf(h, pair.value.0), rx.entries, pair.value.1);
      OffsetsOfContains(h, pair.value.0, pair.value.1);
    }
  }

  /** While the clock does not go back nothing is forgotten: the history is everything ever consumed. */
  lemma NextHistory(rx: Receiver, m: Model, c: Call)
    requires m.Valid() && m.clock <= c.localEpoch
    ensures var pair := rx.Pair(m, c);
      && m.Recalled(c.buf, c.localEpoch).history == m.history && rx.Next(m, c).clock <= c.localEpoch
      && (pair.Some? ==> pair.value !in m.history && rx.Next(m, c).history == m.history + {pair.value})
      && (pair.None? ==> rx.Next(m, c).history == m.history && rx.Next(m, c).bucket == m.bucket && rx.Result(m, c).Err?)
  {
    hide Receiver.Pair, Receiver.Next, Receiver.Result;
    NextRemembers(rx, m, c);
  }

  /** In any run on a clock that does not go back, no (epoch, offset) pair passes the replay check twice. */
  lemma {:induction false} NoPairTwice(rx: Receiver, m: Model, calls: seq<Call>)
    requires m.Valid() && ClockOrdered(m.clock, calls)
    ensures NoRepeats(rx.Pairs(m, calls))
    ensures forall p :: p in rx.Pairs(m, calls) ==> p !in m.history
    decreases |calls|
  {
    hide Receiver.Pair, Receiver.Next;
    if calls != [] {
      NextHistory(rx, m, calls[0]);
      NoPairTwice(rx, rx.Next(m, calls[0]), calls[1..]);
    }
  }

  /** A refused offset stays refused: whatever comes between, each later delivery of that pair is a replay. */
  lemma {:induction false} StaleForever(rx: Receiver, m: Model, calls: seq<Call>, pair: (u32, u32), c: Call)
    requires m.Valid() && ClockOrdered(m.clock, calls + [c])
    requires !Fresh(OffsetsOf(m.history, pair.0), rx.entries, pair.1)
    requires rx.Screened(c).Ok? && (rx.Screened(c).value.epochId, rx.Screened(c).value.head.offset) == pair
    ensures rx.Result(rx.After(m, calls), c) == Err(Error.Replay)
    decreases |calls|
  {
    hide Receiver.Screened, OffsetsOf, Fresh;
    if calls == [] {
      assert calls + [c] == [c];
      NextHistory(rx, m, c);
    } else {
      var first := calls[0];
      assert (calls + [c])[1..] == calls[1..] + [c];
      NextHistory(rx, m, first);
      HistoryOnlyAges(m.history, rx.Next(m, first).history, rx.entries, pair);
      StaleForever(rx, rx.Next(m, first), calls[1..], pair, c);
    }
  }

  lemma HistoryOnlyAges(history: set<(u32, u32)>, later: set<(u32, u32)>, entries: nat, pair: (u32, u32))
    requires history <= later && !Fresh(OffsetsOf(history, pair.0), entries, pair.1)
    ensures !Fresh(OffsetsOf(later, pair.0), entries, pair.1)
  {
    assert OffsetsOf(history, pair.0) <= OffsetsOf(later, pair.0);
  }

  /** Whatever is accepted consumed its own pair. */
  lemma AcceptedConsumes(rx: Receiver, m: Model, c: Call)
    requires m.Valid() && rx.Result(m, c).Ok?
    ensures var acc := rx.Result(m, c).value;
      && rx.Screened(c).Ok?
      && rx.Pair(m, c) == Some((acc.epochId, acc.offset))
      && rx.Result(m, c) == Verdict(rx.Screened(c), rx.cfg.layouts, true)
  {
    hide Screen, Fresh;
    StepCases(rx.Screened(c), rx.cfg, rx.entries, m.Recalled(c.buf, c.localEpoch), c.nowMs);
  }

  // --------------------------------------------------------- deleting the rest

  /** On a clock that does not go back, only the history and the bucket decide a verdict. */
  predicate SameState(m: Model, n: Model) { m.history == n.history && m.bucket == n.bucket }

  lemma StepIgnoresStats(rx: Receiver, m: Model, n: Model, c: Call)
    requires m.Valid() && SameState(m, n) && m.clock <= c.localEpoch && n.clock <= c.localEpoch
    ensures rx.Pair(m, c) == rx.Pair(n, c) && rx.Result(m, c) == rx.Result(n, c)
    ensures SameState(rx.Next(m, c), rx.Next(n, c))
  {
    hide Screen, Fresh, Verdict;
    StepCases(rx.Screened(c), rx.cfg, rx.entries, m.Recalled(c.buf, c.localEpoch), c.nowMs);
    StepCases(rx.Screened(c), rx.cfg, rx.entries, n.Recalled(c.buf, c.localEpoch), c.nowMs);
  }

  /**
   * Deleting from a run every call that consumed no offset leaves every remaining verdict as it
   * was: forgeries, junk and replays, with the prunes and empty windows they caused, are invisible
   * to the rest of the run.
   */
  lemma {:induction false} UnconsumingCallsAreInvisible(rx: Receiver, m: Model, n: Model, calls: seq<Call>)
    requires m.Valid() && SameState(m, n) && ClockOrdered(m.clock, calls) && ClockOrdered(n.clock, calls)
    ensures rx.Results(n, rx.Consuming(m, calls)) == rx.ConsumingResults(m, calls)
    ensures rx.Pairs(n, rx.Consuming(m, calls)) == rx.Pairs(m, calls)
    decreases |calls|
  {
    hide Receiver.Pair, Receiver.Next, Receiver.Result;
    if calls != [] {
      var c, rest := calls[0], calls[1..];
      NextHistory(rx, m, c);
      if rx.Pair(m, c).Some? {
        StepIgnoresStats(rx, m, n, c);
        NextHistory(rx, n, c);
        UnconsumingCallsAreInvisible(rx, rx.Next(m, c), rx.Next(n, c), rest);
        assert rx.Consuming(m, calls)[1..] == rx.Consuming(rx.Next(m, c), rest);
      } else {
        UnconsumingCallsAreInvisible(rx, rx.Next(m, c), n, rest);
        assert [] + rx.Consuming(rx.Next(m, c), rest) == rx.Consuming(rx.Next(m, c), rest);
      }
    }
  }

  /** The calls that remain still show the receiver a clock that does not go back. */
  lemma {:induction false} ConsumingKeepsClockOrder(rx: Receiver, m: Model, clock: u32, calls: seq<Call>)
    requires m.Valid() && ClockOrdered(clock, calls)
    ensures ClockOrdered(clock, rx.Consuming(m, calls))
    decreases |calls|
  {
    if calls != [] {
      var rest := rx.Consuming(rx.Next(m, calls[0]), calls[1..]);
      ConsumingKeepsClockOrder(rx, rx.Next(m, calls[0]), calls[0].localEpoch, calls[1..]);
      if rx.Pair(m, calls[0]).Some? { assert rx.Consuming(m, calls)[1..] == rest; } else { assert [] + rest == rest; }
    }
  }

  // ------------------------------------------------------ outcome conservation

  lemma {:induction false} ParseErrorsAreFraming(p: seq<byte>)
    ensures Parse(p).Err? ==> Parse(p).error.Framing?
    decreases |p|
  {
    if p != [] && Decode(p).Ok? { ParseErrorsAreFraming(p[Decode(p).value.1..]); }
  }

  lemma {:induction false} EntryErrorsAreSeries(cum: u32, es: seq<byte>)
    requires |es| % SERIES_ENTRY_LEN == 0
    ensures DecodeEntries(cum, es).Err? ==> DecodeEntries(cum, es).error.BadSeries?
    decreases |es|
  {
    if es != [] && cum + FromBE2(es[0], es[1]) < TICKS_PER_EPOCH {
      EntryErrorsAreSeries(cum + FromBE2(es[0], es[1]), es[SERIES_ENTRY_LEN..]);
    }
  }

  lemma FrameErrors(o: Opened)
    ensures Frame(o).Err? ==> Frame(o).error.Framing? || Frame(o).error.BadNumber? || Frame(o).error.BadSeries?
  {
    ParseErrorsAreFraming(o.payload);
    if |o.payload| >= NUMBER_PAYLOAD_LEN && (|o.payload| - NUMBER_PAYLOAD_LEN) % SERIES_ENTRY_LEN == 0 {
      EntryErrorsAreSeries(o.head.offset, o.payload[NUMBER_PAYLOAD_LEN..]);
    }
  }

  /** The one outcome no counter records: suite 0x03 with a payload past its 499-byte budget. */
  predicate OversizeCall(rx: Receiver, c: Call) { rx.Screened(c).Err? && rx.Screened(c).error.Oversize? }

  /** Steps 1 to 6 find nothing to refuse. */
  predicate PassesFilters(rx: Receiver, c: Call) {
    && |c.buf| >= HEADER_LEN + rx.cfg.cipher.TagLen()
    && var h := ParseHeader(c.buf);
    && h.version == VERSION && AcceptsType(h.msgType) && h.senderId == rx.cfg.senderId
    && h.cipherId == rx.cfg.cipher.ToU8() && ReconstructEpoch(c.localEpoch, h.epochLow).Some?
  }

  lemma OversizeExactly(rx: Receiver, c: Call)
    ensures OversizeCall(rx, c)
       <==> PassesFilters(rx, c) && rx.cfg.cipher == ChaCha20Poly1305
            && |c.buf| - HEADER_LEN - rx.cfg.cipher.TagLen() > 499
  {
    hide ParseHeader, EpochKey, Tag, ReconstructEpoch, Datagram.AuthHeader, AcceptsType;
    if |c.buf| >= HEADER_LEN { EpochLowAt(c.buf); }
  }

  /** And that outcome does occur: a long enough datagram with a good header, whatever its tag. */
  lemma OversizeOccurs(rx: Receiver, m: Model, localEpoch: u32, nowMs: u64) returns (c: Call)
    requires m.Valid() && rx.cfg.cipher == ChaCha20Poly1305
    ensures c.localEpoch == localEpoch && OversizeCall(rx, c)
    ensures rx.Result(m, c).Err? && rx.Next(m, c).stats == m.stats
  {
    hide Datagram.HeaderBytes, ParseHeader, Screen, Fresh;
    var d := Base(Message, rx.cfg.cipher, rx.cfg.senderId, localEpoch, 0);
    var buf := d.HeaderBytes() + seq(516, _ => 0);
    HeaderParsesBack(d, seq(516, _ => 0));
    ReconstructOwnEpoch(localEpoch, localEpoch);
    c := Call(buf, localEpoch, nowMs);
    OversizeExactly(rx, c);
    StepCases(rx.Screened(c), rx.cfg, rx.entries, m.Recalled(c.buf, c.localEpoch), c.nowMs);
  }

  /**
   * A peer handed another sender's datagram reports `UnknownSender` itself, and counts it: exactly
   * when the datagram is long enough, its epoch reconstructs, and version and type are acceptable.
   */
  lemma UnknownSenderExactly(rx: Receiver, m: Model, c: Call, id: u32)
    requires m.Valid()
    ensures rx.Result(m, c) == Err(UnknownSender(id))
       <==> && Prunes(c.buf, c.localEpoch)
            && var h := ParseHeader(c.buf);
            && h.version == VERSION && AcceptsType(h.msgType) && h.senderId == id != rx.cfg.senderId
    ensures rx.Result(m, c) == Err(UnknownSender(id)) ==>
      rx.Next(m, c).stats == m.stats.(unknownSender := m.stats.unknownSender + 1)
  {
    hide ParseHeader, EpochKey, MacOf, Tag, ReconstructEpoch, Datagram.AuthHeader, AcceptsType, Fresh, Frame;
    StepCases(rx.Screened(c), rx.cfg, rx.entries, m.Recalled(c.buf, c.localEpoch), c.nowMs);
    MacErrors(rx.cr, rx.cfg.cipher);
    if rx.Screened(c).Ok? { FrameErrors(rx.Screened(c).value); }
  }

  predicate Counted(e: Error) { NO_STATS.RecordError(e) != NO_STATS }

  lemma ScreenErrors(rx: Receiver, c: Call)
    ensures rx.Screened(c).Err? ==> Counted(rx.Screened(c).error) || rx.Screened(c).error.Oversize?
  {
    hide ParseHeader, EpochKey, MacOf, Tag, ReconstructEpoch, Datagram.AuthHeader, AcceptsType, Stats.RecordError;
    MacErrors(rx.cr, rx.cfg.cipher);
    CountedErrors();
  }

  lemma CountedErrors()
    ensures forall v: byte :: Counted(UnsupportedVersion(v)) && Counted(BadMsgType(v))
    ensures forall id: u32 :: Counted(UnknownSender(id))
    ensures forall got: byte, want: byte :: Counted(CipherMismatch(got, want))
    ensures Counted(TooShort) && Counted(EpochOutOfWindow) && Counted(AuthFailed)
  {
  }

  lemma MacErrors(cr: Crypto, cipher: CipherId)
    ensures forall key: Bytes32, msg: seq<byte>, off: u32 ::
      MacOf(cr, cipher, key, msg, off).Err? ==> MacOf(cr, cipher, key, msg, off).error.Oversize?
  {
  }

  lemma RecordingCounts(s: Stats, e: Error)
    ensures s.RecordError(e).Outcomes() == s.Outcomes() + if Counted(e) then 1 else 0
    ensures s.RecordError(e).skippedRecords == s.skippedRecords
  {
  }

  lemma StepErrors(rx: Receiver, m: Model, c: Call)
    requires m.Valid() && rx.Result(m, c).Err?
    ensures if OversizeCall(rx, c) then rx.Result(m, c).error.Oversize? else Counted(rx.Result(m, c).error)
  {
    hide Screen, Fresh, Frame;
    StepCases(rx.Screened(c), rx.cfg, rx.entries, m.Recalled(c.buf, c.localEpoch), c.nowMs);
    ScreenErrors(rx, c);
    if rx.Screened(c).Ok? { FrameErrors(rx.Screened(c).value); }
  }

  function OversizeCalls(rx: Receiver, calls: seq<Call>): nat {
    if calls == [] then 0 else (if OversizeCall(rx, calls[0]) then 1 else 0) + OversizeCalls(rx, calls[1..])
  }

  /** Records skipped over all accepted datagrams. */
  function TotalSkipped(rs: seq<Result<Accepted>>): nat {
    if rs == [] then 0 else (if rs[0].Ok? then |rs[0].value.skipped| else 0) + TotalSkipped(rs[1..])
  }

  lemma StepConserves(rx: Receiver, m: Model, c: Call)
    requires m.Valid()
    ensures rx.Next(m, c).stats.Outcomes() == m.stats.Outcomes() + if OversizeCall(rx, c) then 0 else 1
    ensures rx.Next(m, c).stats.skippedRecords
         == m.stats.skippedRecords + if rx.Result(m, c).Ok? then |rx.Result(m, c).value.skipped| else 0
  {
    hide Screen, Fresh, Frame, Verdict;
    StepCases(rx.Screened(c), rx.cfg, rx.entries, m.Recalled(c.buf, c.localEpoch), c.nowMs);
    if rx.Result(m, c).Err? {
      StepErrors(rx, m, c);
      RecordingCounts(m.stats, rx.Result(m, c).error);
    }
  }

  /**
   * Every call is counted in exactly one of the eleven outcomes, except the oversize ones, and
   * `skipped_records` is the total of the skipped lists.
   */
  lemma {:induction false} OutcomesAreConserved(rx: Receiver, m: Model, calls: seq<Call>)
    requires m.Valid()
    ensures rx.After(m, calls).stats.Outcomes() == m.stats.Outcomes() + |calls| - OversizeCalls(rx, calls)
    ensures rx.After(m, calls).stats.skippedRecords == m.stats.skippedRecords + TotalSkipped(rx.Results(m, calls))
    decreases |calls|
  {
    if calls != [] {
      StepConserves(rx, m, calls[0]);
      OutcomesAreConserved(rx, rx.Next(m, calls[0]), calls[1..]);
      assert rx.Results(m, calls)[1..] == rx.Results(rx.Next(m, calls[0]), calls[1..]);
    }
  }

  // ------------------------------------------------------ counter by counter

  /** The results a counter stands for; framing stands for four errors. */
  datatype Outcome =
    | WasAccepted | WasTooShort | HadBadVersion | HadBadType | NamedOther | NamedOtherCipher
    | OutOfWindow | Forged | Replayed | Misframed | OverBudget

  predicate Had(r: Result<Accepted>, k: Outcome) {
    match k
    case WasAccepted => r.Ok?
    case WasTooShort => r == Err(TooShort)
    case HadBadVersion => r.Err? && r.error.UnsupportedVersion?
    case HadBadType => r.Err? && r.error.BadMsgType?
    case NamedOther => r.Err? && r.error.UnknownSender?
    case NamedOtherCipher => r.Err? && r.error.CipherMismatch?
    case OutOfWindow => r == Err(EpochOutOfWindow)
    case Forged => r == Err(AuthFailed)
    case Replayed => r == Err(Error.Replay)
    case Misframed => r.Err? && (r.error.Framing? || r.error.BadNumber? || r.error.BadSeries? || r.error.BodyTooLarge?)
    case OverBudget => r == Err(RateLimited)
  }

  function Count(rs: seq<Result<Accepted>>, k: Outcome): nat {
    if rs == [] then 0 else (if Had(rs[0], k) then 1 else 0) + Count(rs[1..], k)
  }

  /** Each counter has grown by the number of its own outcomes, and by nothing else. */
  predicate CountersGrew(before: Stats, after: Stats, rs: seq<Result<Accepted>>) {
    && after.accepted == before.accepted + Count(rs, WasAccepted)
    && after.tooShort == before.tooShort + Count(rs, WasTooShort)
    && after.unsupportedVersion == before.unsupportedVersion + Count(rs, HadBadVersion)
    && after.badMsgType == before.badMsgType + Count(rs, HadBadType)
    && after.unknownSender == before.unknownSender + Count(rs, NamedOther)
    && after.cipherMismatch == before.cipherMismatch + Count(rs, NamedOtherCipher)
    && after.epochOutOfWindow == before.epochOutOfWindow + Count(rs, OutOfWindow)
    && after.authFailed == before.authFailed + Count(rs, Forged)
    && after.replay == before.replay + Count(rs, Replayed)
    && after.framing == before.framing + Count(rs, Misframed)
    && after.rateLimited == before.rateLimited + Count(rs, OverBudget)
    && after.skippedRecords == before.skippedRecords + TotalSkipped(rs)
  }

  lemma OneResultCounted(s: Stats, r: Result<Accepted>)
    ensures CountersGrew(s, s.RecordResult(r), [r])
  {
    hide Count, TotalSkipped;
    forall k ensures Count([r], k) == if Had(r, k) then 1 else 0 { CountOne(r, k); }
    CountOne(r, WasAccepted);
  }

  lemma CountOne(r: Result<Accepted>, k: Outcome)
    ensures Count([r], k) == if Had(r, k) then 1 else 0
    ensures TotalSkipped([r]) == if r.Ok? then |r.value.skipped| else 0
  {
    hide Had;
    var none: seq<Result<Accepted>> := [];
    assert [r][1..] == none;
    assert Count(none, k) == 0 && TotalSkipped(none) == 0;
  }

  lemma CountCons(r: Result<Accepted>, rs: seq<Result<Accepted>>, k: Outcome)
    ensures Count([r] + rs, k) == Count([r], k) + Count(rs, k)
    ensures TotalSkipped([r] + rs) == TotalSkipped([r]) + TotalSkipped(rs)
  {
    CountOne(r, k);
    assert ([r] + rs)[1..] == rs;
  }

  lemma GrowthAdds(a: Stats, b: Stats, c: Stats, r: Result<Accepted>, rs: seq<Result<Accepted>>)
    requires CountersGrew(a, b, [r]) && CountersGrew(b, c, rs)
    ensures CountersGrew(a, c, [r] + rs)
  {
    hide Count, TotalSkipped;
    forall k ensures Count([r] + rs, k) == Count([r], k) + Count(rs, k) { CountCons(r, rs, k); }
    CountCons(r, rs, WasAccepted);
  }

  /** Over any run each of the eleven counters grows by exactly the number of results of its own kind. */
  lemma {:induction false} EachOutcomeIsCounted(rx: Receiver, m: Model, calls: seq<Call>)
    requires m.Valid()
    ensures CountersGrew(m.stats, rx.After(m, calls).stats, rx.Results(m, calls))
    decreases |calls|
  {
    hide CountersGrew, Receiver.Next, Receiver.Result;
    if calls == [] {
      NoGrowth(m.stats);
    } else {
      var c := calls[0];
      EachOutcomeIsCounted(rx, rx.Next(m, c), calls[1..]);
      ResultIsCounted(rx, m, c);
      GrowthAdds(m.stats, rx.Next(m, c).stats, rx.After(m, calls).stats, rx.Result(m, c), rx.Results(rx.Next(m, c), calls[1..]));
    }
  }

  lemma NoGrowth(s: Stats)
    ensures CountersGrew(s, s, [])
  {
  }

  lemma ResultIsCounted(rx: Receiver, m: Model, c: Call)
    requires m.Valid()
    ensures CountersGrew(m.stats, rx.Next(m, c).stats, [rx.Result(m, c)])
  {
    hide CountersGrew, Screen, Fresh, Verdict, Stats.RecordResult;
    StepCases(rx.Screened(c), rx.cfg, rx.entries, m.Recalled(c.buf, c.localEpoch), c.nowMs);
    OneResultCounted(m.stats, rx.Result(m, c));
  }

  // ---------------------------------------------------------- limiter in place

  /** When the limiter was consulted: the calls whose datagram passed all ten steps. */
  ghost function DecodedTimes(rx: Receiver, m: Model, calls: seq<Call>): seq<u64>
    requires m.Valid()
    decreases |calls|
  {
    if calls == [] then []
    else (if Decoded(rx, m, calls[0]) then [calls[0].nowMs] else []) + DecodedTimes(rx, rx.Next(m, calls[0]), calls[1..])
  }

  ghost predicate Decoded(rx: Receiver, m: Model, c: Call) {
    Verdict(rx.Screened(c), rx.cfg.layouts, rx.Pair(m, c).Some?).Ok?
  }

  ghost function AcceptedCount(rs: seq<Result<Accepted>>): nat {
    if rs == [] then 0 else (if rs[0].Ok? then 1 else 0) + AcceptedCount(rs[1..])
  }

  lemma {:induction false} BucketIgnoresLater(limit: RateLimit, times: seq<u64>, more: seq<u64>, j: nat)
    requires j <= |times|
    ensures BucketBefore(limit, times + more, j) == BucketBefore(limit, times, j)
  {
    if j > 0 { BucketIgnoresLater(limit, times, more, j - 1); }
  }

  lemma {:induction false} GrantsIgnoreLater(limit: RateLimit, times: seq<u64>, more: seq<u64>, j: nat)
    requires j <= |times|
    ensures Grants(limit, times + more, 0, j) == Grants(limit, times, 0, j)
  {
    if j > 0 {
      BucketIgnoresLater(limit, times, more, j - 1);
      GrantsIgnoreLater(limit, times, more, j - 1);
    }
  }

  /** The limiter in place is the stand-alone limiter called at the decoded times. */
  lemma {:induction false} LimiterSeesDecodedOnly(rx: Receiver, limit: RateLimit, m: Model, done: seq<u64>, calls: seq<Call>)
    requires m.Valid() && m.bucket == Some(BucketBefore(limit, done, |done|))
    ensures var times := done + DecodedTimes(rx, m, calls);
      && rx.After(m, calls).bucket == Some(BucketBefore(limit, times, |times|))
      && Grants(limit, times, 0, |times|) == Grants(limit, done, 0, |done|) + AcceptedCount(rx.Results(m, calls))
    decreases |calls|
  {
    hide Receiver.Next, Receiver.Result, Decoded, Grants, BucketBefore;
    var times := done + DecodedTimes(rx, m, calls);
    if calls == [] {
      assert times == done;
    } else {
      var c, m' := calls[0], rx.Next(m, calls[0]);
      assert rx.Results(m, calls)[1..] == rx.Results(m', calls[1..]);
      LimiterStep(rx, limit, m, done, c);
      var done' := if Decoded(rx, m, c) then done + [c.nowMs] else done;
      LimiterSeesDecodedOnly(rx, limit, m', done', calls[1..]);
      assert times == done' + DecodedTimes(rx, m', calls[1..]);
    }
  }

  lemma LimiterStep(rx: Receiver, limit: RateLimit, m: Model, done: seq<u64>, c: Call)
    requires m.Valid() && m.bucket == Some(BucketBefore(limit, done, |done|))
    ensures var done' := if Decoded(rx, m, c) then done + [c.nowMs] else done;
      && rx.Next(m, c).bucket == Some(BucketBefore(limit, done', |done'|))
      && Grants(limit, done', 0, |done'|) == Grants(limit, done, 0, |done|) + if rx.Result(m, c).Ok? then 1 else 0
  {
    hide Screen, Fresh, Verdict;
    StepCases(rx.Screened(c), rx.cfg, rx.entries, m.Recalled(c.buf, c.localEpoch), c.nowMs);
    if Decoded(rx, m, c) {
      BucketIgnoresLater(limit, done, [c.nowMs], |done|);
      GrantsIgnoreLater(limit, done, [c.nowMs], |done|);
      assert (done + [c.nowMs])[|done|] == c.nowMs;
    }
  }

  /**
   * So a rate-limited receiver accepts, over any run, at most its burst plus its rate times the time
   * the limiter counted over the decoded datagrams - on a monotonic clock, the time they spanned -
   * however much else arrives.
   */
  lemma AcceptedWithinBudget(rx: Receiver, limit: RateLimit, calls: seq<Call>)
    requires rx.cfg.limit == Some(limit)
    ensures var times, accepted := DecodedTimes(rx, NewModel(rx.cfg), calls), AcceptedCount(rx.Results(NewModel(rx.cfg), calls));
      if times == [] then accepted == 0
      else
        && accepted * 1000 <= Max(limit.burst, 1) * 1000 + limit.perSec * Elapsed(times, 0, |times| - 1)
        && (NonDecreasing(times) ==> Elapsed(times, 0, |times| - 1) == times[|times| - 1] - times[0])
  {
    hide Receiver.Results, Receiver.After, DecodedTimes, AcceptedCount, Grants, Max, NewModel, BucketBefore, Elapsed;
    var m := NewModel(rx.cfg);
    StartsFull(rx.cfg, limit);
    LimiterSeesDecodedOnly(rx, limit, m, [], calls);
    var times := DecodedTimes(rx, m, calls);
    assert [] + times == times;
    if times == [] {
      StartsFull(rx.cfg, limit);
    } else {
      CountedTimeBound(limit, times, 0, |times| - 1);
      if NonDecreasing(times) { ElapsedIsDifference(times, 0, |times| - 1); }
    }
  }

  lemma StartsFull(cfg: PeerConfig, limit: RateLimit)
    requires cfg.limit == Some(limit)
    ensures NewModel(cfg).bucket == Some(BucketBefore(limit, [], 0)) && Grants(limit, [], 0, 0) == 0
  {
  }
}
