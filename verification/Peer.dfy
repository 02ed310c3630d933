/** Per-sender receiver state (PROTOCOL.md 6.8, 9.3, 9.4, 10.2, 10.3). */
module Peer {
  import opened Basics
  import opened Clock
  import opened Limiter
  import opened Mac
  import opened Replay
  import opened Verify
  import opened Wire

  /** Discard counters, one per verification step. The source's 64-bit counters are unbounded here. */
  datatype Stats = Stats(
    accepted: nat, tooShort: nat, unsupportedVersion: nat, badMsgType: nat, unknownSender: nat, cipherMismatch: nat,
    epochOutOfWindow: nat, authFailed: nat, replay: nat, framing: nat, rateLimited: nat, skippedRecords: nat)
  {
    function RecordResult(r: Result<Accepted>): Stats {
      match r
      case Ok(acc) => this.(accepted := accepted + 1, skippedRecords := skippedRecords + |acc.skipped|)
      case Err(e) => RecordError(e)
    }

    function RecordError(e: Error): Stats {
      match e
      case TooShort => this.(tooShort := tooShort + 1)
      case UnsupportedVersion(_) => this.(unsupportedVersion := unsupportedVersion + 1)
      case BadMsgType(_) => this.(badMsgType := badMsgType + 1)
      case UnknownSender(_) => this.(unknownSender := unknownSender + 1)
      case CipherMismatch(_, _) => this.(cipherMismatch := cipherMismatch + 1)
      case EpochOutOfWindow => this.(epochOutOfWindow := epochOutOfWindow + 1)
      case AuthFailed => this.(authFailed := authFailed + 1)
      case Replay => this.(replay := replay + 1)
      case Framing(_) => this.(framing := framing + 1)
      case BadNumber(_) => this.(framing := framing + 1)
      case BadSeries(_) => this.(framing := framing + 1)
      case BodyTooLarge(_) => this.(framing := framing + 1)
      case RateLimited => this.(rateLimited := rateLimited + 1)
      case _ => this
    }

    function Merge(s: Stats): Stats {
      Stats(accepted + s.accepted, tooShort + s.tooShort, unsupportedVersion + s.unsupportedVersion,
            badMsgType + s.badMsgType, unknownSender + s.unknownSender, cipherMismatch + s.cipherMismatch,
            epochOutOfWindow + s.epochOutOfWindow, authFailed + s.authFailed, replay + s.replay,
            framing + s.framing, rateLimited + s.rateLimited, skippedRecords + s.skippedRecords)
    }

    /** The eleven outcome counters together. */
    function Outcomes(): nat {
      accepted + tooShort + unsupportedVersion + badMsgType + unknownSender + cipherMismatch
      + epochOutOfWindow + authFailed + replay + framing + rateLimited
    }
  }

  const NO_STATS := Stats(0, 0, 0, 0, 0, 0, 0, 0, 0, 0, 0, 0)

  // ------------------------------------------------------ the simple receiver

  /**
   * What the receiver state means: the (epoch, offset) pairs consumed, with no bound on epochs or
   * age, the local epoch it last pruned at, the token bucket if there is one, and the counters.
   */
  datatype Model = Model(history: set<(u32, u32)>, clock: u32, bucket: Option<Bucket>, stats: Stats) {
    ghost predicate Valid() { bucket.Some? ==> bucket.value.Valid() }

    /** The state a datagram is decided against: the prune comes before the verdict. */
    ghost function Recalled(buf: seq<byte>, localEpoch: u32): Model {
      if Prunes(buf, localEpoch) then this.(history := Remembered(history, clock, localEpoch), clock := localEpoch)
      else this
    }
  }

  /** Every datagram prunes, unless it is too short or its epoch cannot be reconstructed. */
  predicate Prunes(buf: seq<byte>, localEpoch: u32) {
    |buf| >= HEADER_LEN && ReconstructEpoch(localEpoch, buf[1] % 0x10).Some?
  }

  /**
   * What pruning leaves of the history. While the clock does not go back, everything: what the
   * slots drop can never be presented again. When it does, only the epochs of both acceptance windows.
   */
  ghost function Remembered(history: set<(u32, u32)>, clock: u32, localEpoch: u32): set<(u32, u32)> {
    if clock <= localEpoch then history
    else set p | p in history && InAcceptanceWindow(p.0, clock) && InAcceptanceWindow(p.0, localEpoch)
  }

  ghost function OffsetsOf(history: set<(u32, u32)>, epoch: u32): set<u32> {
    set p | p in history && p.0 == epoch :: p.1
  }

  lemma OffsetsOfContains(history: set<(u32, u32)>, epoch: u32, off: u32)
    ensures off in OffsetsOf(history, epoch) <==> (epoch, off) in history
  {
  }

  lemma OffsetsOfExtended(history: set<(u32, u32)>, epoch: u32, off: u32, e: u32)
    ensures OffsetsOf(history + {(epoch, off)}, e)
         == if e == epoch then OffsetsOf(history, e) + {off} else OffsetsOf(history, e)
  {
    forall o: u32
      ensures o in OffsetsOf(history + {(epoch, off)}, e)
         <==> o in (if e == epoch then OffsetsOf(history, e) + {off} else OffsetsOf(history, e))
    {
      OffsetsOfContains(history + {(epoch, off)}, e, o);
      OffsetsOfContains(history, e, o);
    }
  }

  /** The pair this datagram consumes: its tag verifies and its offset is fresh in its epoch. */
  ghost function Consumes(o: Result<Opened>, history: set<(u32, u32)>, entries: nat): Option<(u32, u32)> {
    if o.Ok? && Fresh(OffsetsOf(history, o.value.epochId), entries, o.value.head.offset)
    then Some((o.value.epochId, o.value.head.offset))
    else None
  }

  /** One datagram, given the outcome of steps 1 to 7. The limiter is touched only after `decode` succeeds. */
  ghost function Step(o: Result<Opened>, cfg: PeerConfig, entries: nat, m: Model, nowMs: u64): (r: (Model, Result<Accepted>))
    requires m.Valid()
    ensures r.0.Valid()
  {
    var pair := Consumes(o, m.history, entries);
    var verdict := Verdict(o, cfg.layouts, pair.Some?);
    var m' := if pair.Some? then m.(history := m.history + {pair.value}) else m;
    var (m'', result) :=
      if verdict.Err? || m.bucket.None? then (m', verdict)
      else
        var (bucket, granted) := m.bucket.value.Acquire(nowMs);
        (m'.(bucket := Some(bucket)), if granted then verdict else Err(RateLimited));
    (m''.(stats := m.stats.RecordResult(result)), result)
  }

  /** The cases of one step: refused, no limiter, granted, out of budget. */
  lemma StepCases(o: Result<Opened>, cfg: PeerConfig, entries: nat, m: Model, nowMs: u64)
    requires m.Valid()
    ensures var pair := Consumes(o, m.history, entries);
      var verdict := Verdict(o, cfg.layouts, pair.Some?);
      var h := if pair.Some? then m.history + {pair.value} else m.history;
      var (m', r) := Step(o, cfg, entries, m, nowMs);
      && m'.stats == m.stats.RecordResult(r) && m'.history == h && m'.clock == m.clock
      && (o.Err? ==> r == Err(o.error) && h == m.history)
      && (verdict.Err? ==> r == verdict && m'.bucket == m.bucket)
      && (verdict.Ok? && m.bucket.None? ==> r == verdict && m'.bucket == None)
      && (verdict.Ok? && m.bucket.Some? ==>
            var (bucket, granted) := m.bucket.value.Acquire(nowMs);
            m'.bucket == Some(bucket) && r == if granted then verdict else Err(RateLimited))
  {
  }

  /** Steps 1 to 7 as the receiver runs them: it reconstructs the epoch before anything else. */
  function Screen(cr: Crypto, buf: seq<byte>, cfg: PeerConfig, localEpoch: u32, dir: Direction): Result<Opened> {
    if |buf| < HEADER_LEN then Err(TooShort)
    else if ReconstructEpoch(localEpoch, buf[1] % 0x10).None? then Err(EpochOutOfWindow)
    else Open(cr, buf, cfg, localEpoch, dir)
  }

  /** Reconstructing early only moves one error forward: what is opened is the same. */
  lemma ScreenOpensTheSame(cr: Crypto, buf: seq<byte>, cfg: PeerConfig, localEpoch: u32, dir: Direction)
    ensures Open(cr, buf, cfg, localEpoch, dir).Ok? ==>
      Screen(cr, buf, cfg, localEpoch, dir) == Open(cr, buf, cfg, localEpoch, dir)
    ensures Open(cr, buf, cfg, localEpoch, dir).Err? ==> Screen(cr, buf, cfg, localEpoch, dir).Err?
  {
    hide ParseHeader, MacOf, EpochKey, Datagram.AuthHeader;
    if |buf| >= HEADER_LEN { EpochLowAt(buf); }
  }

  lemma EpochLowAt(buf: seq<byte>)
    requires |buf| >= HEADER_LEN
    ensures ParseHeader(buf).epochLow == buf[1] % 0x10
  {
  }

  // ------------------------------------------------------ the two-slot array

  datatype EpochWindow = EpochWindow(epoch: u32, window: ReplayWindow)

  function Epochs(slots: seq<Option<EpochWindow>>): (es: seq<Option<u32>>)
    requires |slots| == 2
    ensures |es| == 2
  {
    [EpochIn(slots[0]), EpochIn(slots[1])]
  }

  function EpochIn(slot: Option<EpochWindow>): Option<u32> {
    if slot.Some? then Some(slot.value.epoch) else None
  }

  /** The slot that serves `epoch`: its own, else the first free one, else the first. */
  function SlotFor(es: seq<Option<u32>>, epoch: u32): (i: nat)
    requires |es| == 2
    ensures i < 2
  {
    if es[0] == Some(epoch) then 0
    else if es[1] == Some(epoch) then 1
    else if es[0].None? then 0
    else if es[1].None? then 1
    else 0
  }

  /** That is, the earliest slot of its kind. */
  lemma SlotForIsFirst(es: seq<Option<u32>>, epoch: u32, k: nat)
    requires |es| == 2 && k < 2
    ensures var i := SlotFor(es, epoch);
      && (es[k] == Some(epoch) ==> es[i] == Some(epoch) && i <= k)
      && (Some(epoch) !in es && es[k].None? ==> es[i].None? && i <= k)
      && (MustEvict(es, epoch) ==> i == 0)
  {
  }

  /** Neither slot is `epoch`'s nor free. */
  predicate MustEvict(es: seq<Option<u32>>, epoch: u32)
    requires |es| == 2
  {
    es[0].Some? && es[1].Some? && es[0] != Some(epoch) && es[1] != Some(epoch)
  }

  predicate InAcceptanceWindow(epoch: u32, localEpoch: u32) {
    epoch == localEpoch || epoch + 1 == localEpoch
  }

  /** After a prune the two slots are distinct epochs of `{local - 1, local}`. */
  predicate Pruned(es: seq<Option<u32>>, localEpoch: u32)
    requires |es| == 2
  {
    && (es[0].Some? ==> InAcceptanceWindow(es[0].value, localEpoch))
    && (es[1].Some? ==> InAcceptanceWindow(es[1].value, localEpoch))
    && (es[0].Some? && es[1].Some? ==> es[0] != es[1])
  }

  /** So the eviction fallback never fires for an epoch of the acceptance window. */
  lemma EvictionUnreachable(es: seq<Option<u32>>, localEpoch: u32, epoch: u32)
    requires |es| == 2 && Pruned(es, localEpoch) && InAcceptanceWindow(epoch, localEpoch)
    ensures !MustEvict(es, epoch)
  {
  }

  /** No pair is newer than the clock, and every epoch of the acceptance window with pairs has its slot. */
  ghost predicate Covered(es: seq<Option<u32>>, history: set<(u32, u32)>, clock: u32) {
    forall p :: p in history ==> p.0 <= clock && (p.0 + 1 >= clock ==> Some(p.0) in es)
  }

  /** An epoch of the acceptance window without a slot has no pairs: absent is the same as empty. */
  lemma AbsentIsEmpty(es: seq<Option<u32>>, history: set<(u32, u32)>, clock: u32, epoch: u32)
    requires Covered(es, history, clock) && InAcceptanceWindow(epoch, clock) && Some(epoch) !in es
    ensures OffsetsOf(history, epoch) == {}
  {
  }

  lemma CoveredWithSlot(es: seq<Option<u32>>, history: set<(u32, u32)>, clock: u32, i: nat, epoch: u32)
    requires Covered(es, history, clock) && i < |es| && es[i] == None
    ensures Covered(es[i := Some(epoch)], history, clock)
  {
    forall p | p in history && p.0 + 1 >= clock ensures Some(p.0) in es[i := Some(epoch)] {
      var k :| 0 <= k < |es| && es[k] == Some(p.0);
      assert es[i := Some(epoch)][k] == Some(p.0);
    }
  }

  /** A prune uncovers nothing it remembers, as long as only slots outside its acceptance window went. */
  lemma CoveredAfterPrune(es: seq<Option<u32>>, es': seq<Option<u32>>, history: set<(u32, u32)>, clock: u32, clock': u32)
    requires |es| == |es'| == 2 && Covered(es, history, clock)
    requires forall i :: 0 <= i < 2 && es[i].Some? && InAcceptanceWindow(es[i].value, clock') ==> es'[i] == es[i]
    ensures Covered(es', Remembered(history, clock, clock'), clock')
  {
    forall p | p in Remembered(history, clock, clock') && p.0 + 1 >= clock' ensures Some(p.0) in es' {
      var k :| 0 <= k < 2 && es[k] == Some(p.0);
      assert es'[k] == es[k];
    }
  }

  /** An epoch of both acceptance windows keeps all its offsets. */
  lemma RememberedInBoth(history: set<(u32, u32)>, clock: u32, clock': u32, epoch: u32)
    requires InAcceptanceWindow(epoch, clock) && InAcceptanceWindow(epoch, clock')
    ensures OffsetsOf(Remembered(history, clock, clock'), epoch) == OffsetsOf(history, epoch)
  {
    forall o: u32 ensures o in OffsetsOf(Remembered(history, clock, clock'), epoch) <==> o in OffsetsOf(history, epoch) {
      OffsetsOfContains(Remembered(history, clock, clock'), epoch, o);
      OffsetsOfContains(history, epoch, o);
    }
  }

  lemma CoveredWithPair(es: seq<Option<u32>>, history: set<(u32, u32)>, clock: u32, pair: (u32, u32))
    requires Covered(es, history, clock) && pair.0 <= clock && Some(pair.0) in es
    ensures Covered(es, history + {pair}, clock)
  {
  }

  function Surviving(slot: Option<EpochWindow>, localEpoch: u32): Option<EpochWindow> {
    if slot.Some? && !InAcceptanceWindow(slot.value.epoch, localEpoch) then None else slot
  }

  /** Short of eviction, the slot is the epoch's own or else a free one. */
  lemma SlotForServes(es: seq<Option<u32>>, epoch: u32)
    requires |es| == 2 && !MustEvict(es, epoch)
    ensures var found := es[0] == Some(epoch) || es[1] == Some(epoch);
      es[SlotFor(es, epoch)] == if found then Some(epoch) else None
  {
  }

  class PeerState {
    const config: PeerConfig
    const words: nat
    const windows: array<Option<EpochWindow>>
    const limiter: InboundLimiter?
    var highestEpochAnnounced: Option<u32>
    var stats: Stats
    /** The pairs consumed and not forgotten, and the local epoch of the last prune. */
    ghost var history: set<(u32, u32)>
    ghost var clock: u32
    ghost var Repr: set<object>

    /** Every live window is its own object and holds exactly its epoch's share of the history. */
    ghost predicate SlotValid(slot: Option<EpochWindow>)
      reads this, Repr
    {
      slot.Some? ==>
        var w := slot.value.window;
        && w in Repr && w.bits in Repr && w.Valid() && w.entries == Entries(words)
        && w.accepted == OffsetsOf(history, slot.value.epoch)
        && InAcceptanceWindow(slot.value.epoch, clock)
    }

    ghost predicate Valid()
      reads this, Repr
      ensures Valid() ==> this in Repr
    {
      && this in Repr && windows in Repr && windows.Length == 2 && Entries(words) > 0
      && (limiter != null ==> limiter in Repr && limiter.State().Valid())
      && SlotValid(windows[0]) && SlotValid(windows[1])
      && (windows[0].Some? && windows[1].Some? ==>
            && windows[0].value.epoch != windows[1].value.epoch
            && windows[0].value.window != windows[1].value.window
            && windows[0].value.window.bits != windows[1].value.window.bits)
      && Covered(Epochs(windows[..]), history, clock)
    }

    /** The objects a valid state is made of. */
    lemma Parts()
      requires Valid()
      ensures windows in Repr && windows.Length == 2 && Entries(words) > 0
      ensures limiter != null ==> limiter in Repr && limiter.State().Valid()
      ensures forall i :: 0 <= i < 2 && windows[i].Some? ==>
        windows[i].value.window in Repr && windows[i].value.window.bits in Repr
    {
    }

    /** What the state means. */
    ghost function View(): (m: Model)
      requires Valid()
      reads this, Repr
      ensures m.Valid()
    {
      Model(history, clock, if limiter == null then None else Some(limiter.State()), stats)
    }

    constructor (config: PeerConfig, words: nat)
      requires Entries(words) > 0
      ensures Valid() && fresh(Repr) && this.config == config && this.words == words && clock == 0
      ensures View() == NewModel(config)
      ensures highestEpochAnnounced == None
    {
      this.config, this.words := config, words;
      var slots := new Option<EpochWindow>[2](_ => None);
      windows := slots;
      var bucket: InboundLimiter? := null;
      if config.limit.Some? {
        bucket := new InboundLimiter(config.limit.value);
      }
      limiter := bucket;
      highestEpochAnnounced := None;
      stats := NO_STATS;
      history, clock := {}, 0;
      ghost var parts: set<object> := {slots};
      if bucket != null {
        parts := parts + {bucket};
      }
      Repr := parts + {this};
    }

    /** `PeerState::new`: refuse a suite whose mandatory inbound limit is missing. */
    static method New(config: PeerConfig) returns (r: Result<PeerState>)
      ensures r.Err? <==> config.cipher == HmacSha256T32 && config.limit.None?
      ensures r.Err? ==> r.error == CipherRequiresRateLimit(4)
      ensures r.Ok? ==> var p := r.value;
        p.Valid() && fresh(p.Repr) && p.config == config && p.words == DEFAULT_WINDOW_WORDS && p.clock == 0
        && p.View() == NewModel(config)
    {
      if config.cipher.RequiresInboundRateLimit() && config.limit.None? {
        return Err(CipherRequiresRateLimit(config.cipher.ToU8()));
      }
      var p := new PeerState(config, DEFAULT_WINDOW_WORDS);
      r := Ok(p);
    }

    /** Nothing but the highest target accepted is touched. */
    method AcceptEpochAnnounce(target: u32) returns (r: Result<()>)
      modifies `highestEpochAnnounced
      ensures (highestEpochAnnounced, r) == EpochAnnounced(old(highestEpochAnnounced), target)
    {
      if highestEpochAnnounced.Some? && target <= highestEpochAnnounced.value {
        return Err(EpochRollback(target, highestEpochAnnounced.value));
      }
      highestEpochAnnounced := Some(target);
      r := Ok(());
    }

    /** Windows outside the acceptance window are dropped, and with them what only they remembered. */
    method Prune(localEpoch: u32)
      requires Valid()
      modifies windows, `clock, `history
      ensures Valid() && clock == localEpoch && history == Remembered(old(history), old(clock), localEpoch)
      ensures Pruned(Epochs(windows[..]), localEpoch)
      ensures forall i :: 0 <= i < 2 ==> windows[i] == Surviving(old(windows[i]), localEpoch)
    {
      hide ReplayWindow.Valid, OffsetsOf, Covered, Remembered;
      for i := 0 to 2
        invariant forall k :: 0 <= k < i ==> windows[k] == Surviving(old(windows[k]), localEpoch)
        invariant forall k :: i <= k < 2 ==> windows[k] == old(windows[k])
        invariant clock == old(clock) && history == old(history)
      {
        if windows[i].Some? {
          var epoch := windows[i].value.epoch;
          var next := if epoch == U32_MAX then U32_MAX else epoch + 1; // saturating_add
          if !(localEpoch <= next && epoch <= localEpoch) {
            windows[i] := None;
          }
        }
      }
      CoveredAfterPrune(old(Epochs(windows[..])), Epochs(windows[..]), history, clock, localEpoch);
      forall i | 0 <= i < 2 && windows[i].Some?
        ensures var e := windows[i].value.epoch;
          OffsetsOf(Remembered(history, clock, localEpoch), e) == OffsetsOf(history, e)
      {
        RememberedInBoth(history, clock, localEpoch, windows[i].value.epoch);
      }
      history, clock := Remembered(history, clock, localEpoch), localEpoch;
    }

    /** The slot of `epoch`'s window, with an empty window put there if none exists yet. */
    method WindowFor(epoch: u32) returns (idx: nat)
      requires windows.Length == 2 && Entries(words) > 0
      modifies windows
      ensures idx == SlotFor(Epochs(old(windows[..])), epoch)
      ensures windows[1 - idx] == old(windows[1 - idx])
      ensures windows[idx].Some? && windows[idx].value.epoch == epoch
      ensures EpochIn(old(windows[idx])) == Some(epoch) ==> windows[idx] == old(windows[idx])
      ensures EpochIn(old(windows[idx])) != Some(epoch) ==>
        var w := windows[idx].value.window;
        fresh(w) && fresh(w.bits) && w.Valid() && w.accepted == {} && w.entries == Entries(words)
    {
      if windows[0].Some? && windows[0].value.epoch == epoch {
        idx := 0;
      } else if windows[1].Some? && windows[1].value.epoch == epoch {
        idx := 1;
      } else {
        var w := new ReplayWindow(words);
        idx := if windows[0].None? then 0 else if windows[1].None? then 1 else 0;
        windows[idx] := Some(EpochWindow(epoch, w));
      }
    }

    /** Find or allocate the window for an epoch of the acceptance window, when no eviction is needed. */
    method Place(epoch: u32) returns (idx: nat)
      requires Valid() && InAcceptanceWindow(epoch, clock) && !MustEvict(Epochs(windows[..]), epoch)
      modifies windows, `Repr
      ensures Valid() && fresh(Repr - old(Repr))
      ensures idx < 2 && windows[idx].Some? && windows[idx].value.epoch == epoch
    {
      hide SlotFor, MustEvict, Covered, ReplayWindow.Valid, OffsetsOf;
      ghost var es := Epochs(windows[..]);
      SlotForServes(es, epoch);
      idx := WindowFor(epoch);
      ghost var es' := Epochs(windows[..]);
      if es[idx] == Some(epoch) {
        assert windows[0] == old(windows[0]) && windows[1] == old(windows[1]);
        assert es' == es;
      } else {
        AbsentIsEmpty(es, history, clock, epoch);
        CoveredWithSlot(es, history, clock, idx, epoch);
        assert es' == es[idx := Some(epoch)];
        ghost var w := windows[idx].value.window;
        Repr := Repr + {w, w.bits};
        assert SlotValid(windows[idx]) && SlotValid(windows[1 - idx]);
      }
    }

    /** Prune, then find or allocate: after a prune no eviction is ever needed. */
    method Locate(localEpoch: u32, epoch: u32) returns (idx: nat)
      requires Valid() && InAcceptanceWindow(epoch, localEpoch)
      modifies windows, `clock, `history, `Repr
      ensures Valid() && fresh(Repr - old(Repr))
      ensures clock == localEpoch && history == Remembered(old(history), old(clock), localEpoch)
      ensures idx < 2 && windows[idx].Some? && windows[idx].value.epoch == epoch
    {
      hide Valid, Pruned, MustEvict, Surviving, Remembered;
      Parts();
      Prune(localEpoch);
      Parts();
      EvictionUnreachable(Epochs(windows[..]), localEpoch, epoch);
      idx := Place(epoch);
    }

    /** Steps 1 to 10 against the window in slot `idx`, which is the datagram's own. */
    method DecodeAt(cr: Crypto, buf: seq<byte>, localEpoch: u32, dir: Direction, idx: nat) returns (r: Result<Accepted>)
      requires Valid() && idx < 2 && windows[idx].Some?
      requires |buf| >= HEADER_LEN
      requires ReconstructEpoch(localEpoch, buf[1] % 0x10) == Some(windows[idx].value.epoch)
      modifies windows[idx].value.window, windows[idx].value.window.bits, `history
      ensures Valid()
      ensures var o := Open(cr, buf, config, localEpoch, dir);
        var pair := Consumes(o, old(history), Entries(words));
        && r == Verdict(o, config.layouts, pair.Some?)
        && history == if pair.Some? then old(history) + {pair.value} else old(history)
    {
      hide Open, Verdict, OffsetsOf, Fresh, ReplayWindow.Valid, Covered;
      ghost var o := Open(cr, buf, config, localEpoch, dir);
      ghost var epoch := windows[idx].value.epoch;
      EpochLowAt(buf);
      r := DecodeDatagram(cr, buf, config, localEpoch, dir, windows[idx].value.window);
      ghost var pair := Consumes(o, history, Entries(words));
      if pair.Some? {
        OffsetsOfExtended(history, epoch, pair.value.1, epoch);
        if windows[1 - idx].Some? {
          OffsetsOfExtended(history, epoch, pair.value.1, windows[1 - idx].value.epoch);
        }
        CoveredWithPair(Epochs(windows[..]), history, clock, pair.value);
        history := history + {pair.value};
      }
    }

    /**
     * The two-slot array with its pruning, lazy allocation and ring bitmaps decides exactly as the
     * simple receiver over the history does, on any clock.
     */
    method Accept(cr: Crypto, buf: seq<byte>, localEpoch: u32, dir: Direction, nowMs: u64) returns (r: Result<Accepted>)
      requires Valid()
      modifies Repr
      ensures Valid() && fresh(Repr - old(Repr))
      ensures (View(), r) == Step(Screen(cr, buf, config, localEpoch, dir), config, Entries(words),
                                  old(View()).Recalled(buf, localEpoch), nowMs)
      ensures highestEpochAnnounced == old(highestEpochAnnounced)
    {
      hide Step, Screen, ReplayWindow.Valid, OffsetsOf, Stats.RecordResult;
      r := AcceptInner(cr, buf, localEpoch, dir, nowMs);
      stats := stats.RecordResult(r);
    }

    method AcceptInner(cr: Crypto, buf: seq<byte>, localEpoch: u32, dir: Direction, nowMs: u64)
      returns (r: Result<Accepted>)
      requires Valid()
      modifies Repr
      ensures Valid() && fresh(Repr - old(Repr))
      ensures (View().(stats := stats.RecordResult(r)), r)
           == Step(Screen(cr, buf, config, localEpoch, dir), config, Entries(words),
                   old(View()).Recalled(buf, localEpoch), nowMs)
      ensures stats == old(stats) && highestEpochAnnounced == old(highestEpochAnnounced)
    {
      hide Open, Verdict, Consumes, Step, PeerState.Valid, Stats.RecordResult;
      Parts();
      ghost var m, o := View().Recalled(buf, localEpoch), Screen(cr, buf, config, localEpoch, dir);
      StepCases(o, config, Entries(words), m, nowMs);
      if |buf| < HEADER_LEN {
        return Err(TooShort);
      }
      var epoch := ReconstructEpoch(localEpoch, buf[1] % 0x10);
      if epoch.None? {
        return Err(EpochOutOfWindow);
      }
      var idx := Locate(localEpoch, epoch.value);
      Parts();
      var decoded := DecodeAt(cr, buf, localEpoch, dir, idx);
      if decoded.Err? {
        return decoded;
      }
      if limiter != null {
        var granted := Spend(nowMs);
        if !granted {
          return Err(RateLimited);
        }
      }
      r := decoded;
    }

    /** Consult the limiter; nothing else of the state is touched. */
    method Spend(nowMs: u64) returns (granted: bool)
      requires Valid() && limiter != null
      modifies limiter
      ensures Valid()
      ensures (limiter.State(), granted) == old(limiter.State()).Acquire(nowMs)
    {
      hide ReplayWindow.Valid, OffsetsOf, Covered;
      granted := limiter.TryAcquire(nowMs);
    }
  }

  /** An authenticated EPOCH_ANNOUNCE against the highest target accepted so far. */
  function EpochAnnounced(highest: Option<u32>, target: u32): (Option<u32>, Result<()>) {
    if highest.Some? && target <= highest.value then (highest, Err(EpochRollback(target, highest.value)))
    else (Some(target), Ok(()))
  }

  /** The highest target accepted once the first `n` announcements have been applied. */
  function HighestAnnounced(targets: seq<u32>, n: nat): Option<u32>
    requires n <= |targets|
  {
    if n == 0 then None else EpochAnnounced(HighestAnnounced(targets, n - 1), targets[n - 1]).0
  }

  /**
   * Over any run of announcements the state is the highest target announced, accepted or not; so a
   * target is accepted exactly when it exceeds every target announced before it, and a replayed one
   * never is.
   */
  lemma {:induction false} AnnouncedIsHighest(targets: seq<u32>, n: nat)
    requires n <= |targets|
    ensures var h := HighestAnnounced(targets, n);
      if n == 0 then h.None? else h.Some? && h.value in targets[..n] && forall i :: 0 <= i < n ==> targets[i] <= h.value
    ensures n < |targets| ==>
      var (h, r) := (HighestAnnounced(targets, n), EpochAnnounced(HighestAnnounced(targets, n), targets[n]).1);
      && (r.Ok? <==> forall i :: 0 <= i < n ==> targets[i] < targets[n])
      && (r.Err? ==> r == Err(EpochRollback(targets[n], h.value)))
  {
    if n > 0 { AnnouncedIsHighest(targets, n - 1); }
  }

  ghost function NewModel(cfg: PeerConfig): (m: Model)
    ensures m.Valid()
  {
    Model({}, 0, if cfg.limit.Some? then Some(NewBucket(cfg.limit.value)) else None, NO_STATS)
  }
}
