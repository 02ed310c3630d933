/** A registry serving many senders (PROTOCOL.md 12.5). */
module Collectors {
  import opened Basics
  import opened Mac
  import opened Peer
  import opened PeerRuns
  import opened Replay
  import opened Verify

  /** What a collector means: one simple receiver per provisioned sender, and its own two counters. */
  datatype Registry = Registry(cfgs: map<u32, PeerConfig>, models: map<u32, Model>, own: Stats) {
    ghost predicate Valid() {
      cfgs.Keys == models.Keys && forall id :: id in models ==> models[id].Valid() && cfgs[id].senderId == id
    }
  }

  const ENTRIES: nat := Entries(DEFAULT_WINDOW_WORDS)

  function SenderOf(buf: seq<byte>): u32
    requires |buf| >= HEADER_LEN
  {
    FromBE4(buf[5], buf[6], buf[7], buf[8])
  }

  /** Long enough to name a provisioned sender. */
  predicate Routable(reg: Registry, buf: seq<byte>) {
    |buf| >= HEADER_LEN && SenderOf(buf) in reg.models
  }

  function ReceiverFor(cr: Crypto, dir: Direction, cfg: PeerConfig): Receiver { Receiver(cr, cfg, ENTRIES, dir) }

  ghost function Dispatch(cr: Crypto, dir: Direction, reg: Registry, c: Call): (r: (Registry, Result<Accepted>))
    requires reg.Valid()
    ensures r.0.Valid() && r.0.cfgs == reg.cfgs
  {
    if |c.buf| < HEADER_LEN then (reg.(own := reg.own.RecordError(TooShort)), Err(TooShort))
    else
      var id := SenderOf(c.buf);
      if id !in reg.models then (reg.(own := reg.own.RecordError(UnknownSender(id))), Err(UnknownSender(id)))
      else
        var rx := ReceiverFor(cr, dir, reg.cfgs[id]);
        (reg.(models := reg.models[id := rx.Next(reg.models[id], c)]), rx.Result(reg.models[id], c))
  }

  /** The one suite with a mandatory inbound limit, and none given (PROTOCOL.md 8.1.1). */
  predicate LacksMandatoryLimit(cfg: PeerConfig) { cfg.cipher == HmacSha256T32 && cfg.limit.None? }

  /** A fresh receiver under the sender's id, in place of any earlier one. */
  ghost function Enrolled(reg: Registry, cfg: PeerConfig): (reg': Registry)
    requires reg.Valid()
    ensures reg'.Valid()
  {
    Registry(reg.cfgs[cfg.senderId := cfg], reg.models[cfg.senderId := NewModel(cfg)], reg.own)
  }

  class Collector {
    var peers: map<u32, PeerState>
    var ownStats: Stats
    ghost var owner: map<object, u32>
    ghost var Repr: set<object>

    /** Each peer's objects are its own: `owner` tells whose an object is. */
    ghost predicate PeerValid(id: u32)
      requires id in peers
      reads this, Repr
    {
      var p := peers[id];
      && p in Repr && p.Repr <= Repr && this !in p.Repr && p.Valid()
      && (forall o :: o in p.Repr ==> o in owner && owner[o] == id)
      && p.config.senderId == id && p.words == DEFAULT_WINDOW_WORDS
    }

    ghost predicate Valid()
      reads this, Repr
      ensures Valid() ==> this in Repr
    {
      this in Repr && owner.Keys <= Repr && forall id :: id in peers ==> PeerValid(id)
    }

    ghost function Configs(): (cfgs: map<u32, PeerConfig>)
      reads this
      ensures cfgs.Keys == peers.Keys && forall id :: id in peers ==> cfgs[id] == peers[id].config
    {
      map id | id in peers :: peers[id].config
    }

    ghost function Models(): (models: map<u32, Model>)
      requires Valid()
      reads this, Repr
      ensures models.Keys == peers.Keys
      ensures forall id :: id in peers ==> models[id] == peers[id].View() && models[id].Valid()
    {
      assert forall id :: id in peers ==> PeerValid(id);
      map id | id in peers :: peers[id].View()
    }

    ghost function View(): (reg: Registry)
      requires Valid()
      reads this, Repr
      ensures reg.Valid()
    {
      Registry(Configs(), Models(), ownStats)
    }

    constructor ()
      ensures Valid() && fresh(Repr)
      ensures View() == Registry(map[], map[], NO_STATS)
    {
      peers, ownStats := map[], NO_STATS;
      owner, Repr := map[], {this};
    }

    /** Allocate a peer's state here, not on first contact. A second provisioning starts it afresh. */
    method Provision(config: PeerConfig) returns (r: Result<()>)
      requires Valid()
      modifies this
      ensures Valid() && fresh(Repr - old(Repr))
      ensures r == if LacksMandatoryLimit(config) then Err(CipherRequiresRateLimit(4)) else Ok(())
      ensures View() == if r.Ok? then Enrolled(old(View()), config) else old(View())
    {
      hide Valid, PeerState.Valid, PeerState.View, Configs, Models, NewModel;
      ghost var was := View();
      var made := PeerState.New(config);
      if made.Err? {
        return Err(made.error);
      }
      PeersValid();
      Install(config.senderId, made.value);
      PeersValid();
      ViewIs(was.cfgs[config.senderId := config], was.models[config.senderId := NewModel(config)]);
      r := Ok(());
    }

    lemma ViewIs(cfgs: map<u32, PeerConfig>, models: map<u32, Model>)
      requires Valid() && cfgs.Keys == models.Keys == peers.Keys
      requires forall id :: id in peers ==> peers[id].Valid()
      requires forall id :: id in peers ==> cfgs[id] == peers[id].config && models[id] == peers[id].View()
      ensures View() == Registry(cfgs, models, ownStats)
    {
      hide Valid, Configs, Models, PeerState.Valid, PeerState.View;
    }

    /** `HashMap::insert`: a new peer under its sender_id, all others untouched. */
    method Install(id: u32, p: PeerState)
      requires Valid() && p.Valid() && p.Repr !! Repr && this !in p.Repr
      requires p.config.senderId == id && p.words == DEFAULT_WINDOW_WORDS
      requires forall k :: k in peers ==> peers[k].Valid() && this !in peers[k].Repr
      modifies this`peers, this`owner, this`Repr
      ensures Valid() && Repr == old(Repr) + p.Repr && peers == old(peers)[id := p]
      ensures p.Valid() && p.View() == old(p.View())
      ensures forall k :: k in old(peers) ==> old(peers)[k].Valid() && old(peers)[k].View() == old(peers[k].View())
    {
      hide PeerState.Valid, PeerState.View;
      peers := peers[id := p];
      Repr := Repr + p.Repr;
      owner := owner + map o | o in p.Repr :: id;
      forall k | k in peers ensures PeerValid(k) {
        assert k != id ==> old(PeerValid(k));
      }
    }

    lemma PeersValid()
      requires Valid()
      ensures forall id :: id in peers ==> peers[id].Valid() && this !in peers[id].Repr
    {
      assert forall id :: id in peers ==> PeerValid(id);
    }

    /** One datagram: counted here if it names no peer, otherwise handed to the one it names and to no other. */
    method Accept(cr: Crypto, buf: seq<byte>, localEpoch: u32, dir: Direction, nowMs: u64) returns (r: Result<Accepted>)
      requires Valid()
      modifies Repr
      ensures Valid() && fresh(Repr - old(Repr))
      ensures (View(), r) == Dispatch(cr, dir, old(View()), Call(buf, localEpoch, nowMs))
    {
      hide Valid, PeerState.Valid, PeerState.View, Configs, Models, Step, Screen, Model.Recalled, Stats.RecordError;
      PeersValid();
      if |buf| < HEADER_LEN {
        CountOwn(TooShort);
        return Err(TooShort);
      }
      var id := SenderOf(buf);
      if id !in peers {
        CountOwn(UnknownSender(id));
        return Err(UnknownSender(id));
      }
      ghost var was := View();
      r := AcceptFrom(id, cr, buf, localEpoch, dir, nowMs);
      PeersValid();
      ViewIs(was.cfgs, was.models[id := peers[id].View()]);
    }

    /** A discard decided before any peer is looked up. */
    method CountOwn(e: Error)
      requires Valid()
      modifies this`ownStats
      ensures Valid()
      ensures View() == old(View()).(own := old(View()).own.RecordError(e))
    {
      hide PeerState.Valid, PeerState.View, Configs, Models, Stats.RecordError;
      ghost var was := View();
      ownStats := ownStats.RecordError(e);
      forall k | k in peers ensures PeerValid(k) {
        assert old(PeerValid(k));
      }
      ViewIs(was.cfgs, was.models);
    }

    method AcceptFrom(id: u32, cr: Crypto, buf: seq<byte>, localEpoch: u32, dir: Direction, nowMs: u64)
      returns (r: Result<Accepted>)
      requires Valid() && id in peers
      requires forall k :: k in peers ==> peers[k].Valid()
      modifies Repr
      ensures Valid() && fresh(Repr - old(Repr))
      ensures peers == old(peers) && ownStats == old(ownStats)
      ensures forall k :: k in peers ==> peers[k].Valid() && (k != id ==> peers[k].View() == old(peers[k].View()))
      ensures (peers[id].View(), r)
           == Step(Screen(cr, buf, peers[id].config, localEpoch, dir), peers[id].config, ENTRIES,
                   old(peers[id].View()).Recalled(buf, localEpoch), nowMs)
    {
      hide PeerState.Valid, PeerState.View, Step, Screen, Model.Recalled;
      var peer := peers[id];
      assert PeerValid(id);
      r := peer.Accept(cr, buf, localEpoch, dir, nowMs);
      forall k | k in peers && k != id
        ensures PeerValid(k) && peers[k].View() == old(peers[k].View())
      {
        assert old(PeerValid(k));
        assert peers[k].Repr !! old(peer.Repr);
      }
      Settle(id);
    }

    /** Peer `id` may have allocated a window: its new objects become its own. */
    ghost method Settle(id: u32)
      requires this in Repr && owner.Keys <= Repr && id in peers
      requires forall k :: k in peers && k != id ==> PeerValid(k)
      requires var p := peers[id];
        && p in Repr && this !in p.Repr && p.Valid()
        && p.config.senderId == id && p.words == DEFAULT_WINDOW_WORDS
        && (forall o :: o in p.Repr && o in owner ==> owner[o] == id)
      modifies this`Repr, this`owner
      ensures Valid() && Repr == old(Repr) + peers[id].Repr
    {
      hide PeerState.Valid;
      Repr := Repr + peers[id].Repr;
      owner := owner + map o | o in peers[id].Repr :: id;
      forall k | k in peers ensures PeerValid(k) {
        assert k != id ==> old(PeerValid(k));
      }
    }

    /** Every peer's counters and the collector's own, in whatever order the registry iterates. */
    method TotalStats() returns (total: Stats)
      requires Valid()
      ensures total == Total(View())
    {
      hide PeerState.Valid, Models, Stats.Merge;
      total := ownStats;
      var rest := peers.Keys;
      ghost var models := Models();
      assert models.Keys == rest;
      while rest != {}
        invariant rest <= peers.Keys
        invariant ownStats.Merge(SumOver(peers.Keys, models)) == total.Merge(SumOver(rest, models))
        decreases rest
      {
        var id :| id in rest;
        SumTakesAny(rest, models, id);
        MergeLaws(total, peers[id].stats, SumOver(rest - {id}, models));
        total := total.Merge(peers[id].stats);
        rest := rest - {id};
      }
      MergeLaws(total, NO_STATS, NO_STATS);
    }
  }

  // ------------------------------------------------------------------- totals

  ghost function Pick(ids: set<u32>): (id: u32)
    requires ids != {}
    ensures id in ids
  {
    var id :| id in ids;
    id
  }

  ghost function SumOver(ids: set<u32>, models: map<u32, Model>): Stats
    requires ids <= models.Keys
  {
    if ids == {} then NO_STATS else models[Pick(ids)].stats.Merge(SumOver(ids - {Pick(ids)}, models))
  }

  lemma MergeLaws(a: Stats, b: Stats, c: Stats)
    ensures a.Merge(b).Merge(c) == a.Merge(b.Merge(c))
    ensures a.Merge(b.Merge(c)) == b.Merge(a.Merge(c))
    ensures a.Merge(NO_STATS) == a
  {
  }

  lemma MergeAdds(a: Stats, b: Stats)
    ensures a.Merge(b).Outcomes() == a.Outcomes() + b.Outcomes()
    ensures a.Merge(b).skippedRecords == a.skippedRecords + b.skippedRecords
  {
  }

  ghost function Total(reg: Registry): Stats { reg.own.Merge(SumOver(reg.models.Keys, reg.models)) }

  /** The sum does not depend on the order: any element may be taken first. */
  lemma {:induction false} SumTakesAny(ids: set<u32>, models: map<u32, Model>, id: u32)
    requires ids <= models.Keys && id in ids
    ensures SumOver(ids, models) == models[id].stats.Merge(SumOver(ids - {id}, models))
  {
    hide Stats.Merge;
    var first := Pick(ids);
    if first != id {
      var both := ids - {first} - {id};
      assert both == ids - {id} - {first};
      SumTakesAny(ids - {first}, models, id);
      SumTakesAny(ids - {id}, models, first);
      MergeLaws(models[first].stats, models[id].stats, SumOver(both, models));
    }
  }

  lemma {:induction false} SumIgnoresOthers(ids: set<u32>, models: map<u32, Model>, id: u32, m: Model)
    requires ids <= models.Keys && id !in ids
    ensures SumOver(ids, models[id := m]) == SumOver(ids, models)
  {
    hide Stats.Merge;
    if ids != {} {
      var first := Pick(ids);
      SumIgnoresOthers(ids - {first}, models, id, m);
    }
  }

  // --------------------------------------------------------------- whole runs

  /** What a collector is told to do: provision a sender, or take a datagram. */
  datatype Command =
    | Enroll(cfg: PeerConfig)
    | Receive(call: Call)

  ghost function Execute(cr: Crypto, dir: Direction, reg: Registry, cmd: Command): (reg': Registry)
    requires reg.Valid()
    ensures reg'.Valid()
  {
    match cmd
    case Enroll(cfg) => if LacksMandatoryLimit(cfg) then reg else Enrolled(reg, cfg)
    case Receive(c) => Dispatch(cr, dir, reg, c).0
  }

  ghost function RunAll(cr: Crypto, dir: Direction, reg: Registry, cmds: seq<Command>): (reg': Registry)
    requires reg.Valid()
    ensures reg'.Valid()
    decreases |cmds|
  {
    if cmds == [] then reg else RunAll(cr, dir, Execute(cr, dir, reg, cmds[0]), cmds[1..])
  }

  /** What the datagrams of a run were answered. */
  ghost function RunResults(cr: Crypto, dir: Direction, reg: Registry, cmds: seq<Command>): seq<Result<Accepted>>
    requires reg.Valid()
    decreases |cmds|
  {
    if cmds == [] then []
    else
      (if cmds[0].Receive? then [Dispatch(cr, dir, reg, cmds[0].call).1] else [])
      + RunResults(cr, dir, Execute(cr, dir, reg, cmds[0]), cmds[1..])
  }

  /**
   * The serving loop, with provisioning between datagrams and on any clock: the collector's two-slot,
   * pruned, lazily allocated peers give, call by call, the verdicts and the state of the simple registry.
   */
  method Serve(c: Collector, cr: Crypto, dir: Direction, cmds: seq<Command>) returns (rs: seq<Result<Accepted>>)
    requires c.Valid()
    modifies c.Repr
    ensures c.Valid() && fresh(c.Repr - old(c.Repr))
    ensures c.View() == RunAll(cr, dir, old(c.View()), cmds)
    ensures rs == RunResults(cr, dir, old(c.View()), cmds)
  {
    hide Collector.Valid, Collector.View, Dispatch, Enrolled;
    rs := [];
    ghost var all := RunResults(cr, dir, c.View(), cmds);
    assert cmds[0..] == cmds && rs + all == all;
    for i := 0 to |cmds|
      invariant c.Valid() && fresh(c.Repr - old(c.Repr))
      invariant RunAll(cr, dir, c.View(), cmds[i..]) == RunAll(cr, dir, old(c.View()), cmds)
      invariant rs + RunResults(cr, dir, c.View(), cmds[i..]) == all
    {
      ghost var was, before := c.View(), rs;
      assert cmds[i..][0] == cmds[i] && cmds[i..][1..] == cmds[i + 1..];
      match cmds[i]
      case Enroll(cfg) =>
        var _ := c.Provision(cfg);
        assert [] + RunResults(cr, dir, c.View(), cmds[i + 1..]) == RunResults(cr, dir, c.View(), cmds[i + 1..]);
      case Receive(call) =>
        var r := c.Accept(cr, call.buf, call.localEpoch, dir, call.nowMs);
        assert Dispatch(cr, dir, was, call) == (c.View(), r);
        ghost var rest := RunResults(cr, dir, c.View(), cmds[i + 1..]);
        assert rs + ([r] + rest) == rs + [r] + rest;
        rs := rs + [r];
    }
    assert cmds[|cmds|..] == [] && rs + [] == rs;
  }

  /** Long enough to route, and naming this sender. */
  predicate Names(cmd: Command, id: u32) {
    cmd.Receive? && |cmd.call.buf| >= HEADER_LEN && SenderOf(cmd.call.buf) == id
  }

  /** Provisioning this sender anew. */
  predicate Restarts(cmd: Command, id: u32) {
    cmd.Enroll? && cmd.cfg.senderId == id && !LacksMandatoryLimit(cmd.cfg)
  }

  function RoutedTo(id: u32, cmds: seq<Command>): seq<Call> {
    if cmds == [] then []
    else (if Names(cmds[0], id) then [cmds[0].call] else []) + RoutedTo(id, cmds[1..])
  }

  /** What the collector returned to the calls that name this sender. */
  ghost function ResultsFor(cr: Crypto, dir: Direction, reg: Registry, id: u32, cmds: seq<Command>): seq<Result<Accepted>>
    requires reg.Valid()
    decreases |cmds|
  {
    if cmds == [] then []
    else
      (if Names(cmds[0], id) then [Dispatch(cr, dir, reg, cmds[0].call).1] else [])
      + ResultsFor(cr, dir, Execute(cr, dir, reg, cmds[0]), id, cmds[1..])
  }

  /**
   * A collector run seen from one sender, from its provisioning up to the next, is that peer's own
   * run: state and verdicts are those of a lone receiver given only the calls that name it. No other
   * sender's traffic or provisioning interferes.
   */
  lemma {:induction false} ProjectsToPeerRun(cr: Crypto, dir: Direction, reg: Registry, id: u32, cmds: seq<Command>)
    requires reg.Valid() && id in reg.models
    requires forall cmd :: cmd in cmds ==> !Restarts(cmd, id)
    ensures var rx := ReceiverFor(cr, dir, reg.cfgs[id]);
      && id in RunAll(cr, dir, reg, cmds).models
      && RunAll(cr, dir, reg, cmds).models[id] == rx.After(reg.models[id], RoutedTo(id, cmds))
      && ResultsFor(cr, dir, reg, id, cmds) == rx.Results(reg.models[id], RoutedTo(id, cmds))
    decreases |cmds|
  {
    hide Receiver.Next, Receiver.Result, NewModel;
    if cmds != [] {
      var cmd, rest := cmds[0], cmds[1..];
      var rx, reg' := ReceiverFor(cr, dir, reg.cfgs[id]), Execute(cr, dir, reg, cmd);
      assert !Restarts(cmd, id);
      assert reg'.cfgs[id] == reg.cfgs[id];
      ProjectsToPeerRun(cr, dir, reg', id, rest);
      if Names(cmd, id) {
        assert RoutedTo(id, cmds)[1..] == RoutedTo(id, rest);
        assert rx.After(reg.models[id], RoutedTo(id, cmds)) == rx.After(rx.Next(reg.models[id], cmd.call), RoutedTo(id, rest));
      } else {
        assert reg'.models[id] == reg.models[id];
        assert RoutedTo(id, cmds) == RoutedTo(id, rest);
        assert ResultsFor(cr, dir, reg, id, cmds) == ResultsFor(cr, dir, reg', id, rest);
      }
    }
  }

  predicate OversizeHere(cr: Crypto, dir: Direction, reg: Registry, c: Call)
    requires reg.cfgs.Keys == reg.models.Keys
  {
    Routable(reg, c.buf) && OversizeCall(ReceiverFor(cr, dir, reg.cfgs[SenderOf(c.buf)]), c)
  }

  ghost function OversizeAmong(cr: Crypto, dir: Direction, reg: Registry, cmds: seq<Command>): nat
    requires reg.Valid()
    decreases |cmds|
  {
    if cmds == [] then 0
    else (if cmds[0].Receive? && OversizeHere(cr, dir, reg, cmds[0].call) then 1 else 0)
         + OversizeAmong(cr, dir, Execute(cr, dir, reg, cmds[0]), cmds[1..])
  }

  /** What the replaced peers had counted. */
  ghost function Dropped(cr: Crypto, dir: Direction, reg: Registry, cmds: seq<Command>): Stats
    requires reg.Valid()
    decreases |cmds|
  {
    if cmds == [] then NO_STATS
    else DroppedBy(reg, cmds[0]).Merge(Dropped(cr, dir, Execute(cr, dir, reg, cmds[0]), cmds[1..]))
  }

  ghost function DroppedBy(reg: Registry, cmd: Command): Stats {
    if cmd.Enroll? && Restarts(cmd, cmd.cfg.senderId) && cmd.cfg.senderId in reg.models
    then reg.models[cmd.cfg.senderId].stats else NO_STATS
  }

  lemma DispatchConserves(cr: Crypto, dir: Direction, reg: Registry, c: Call)
    requires reg.Valid()
    ensures Total(Dispatch(cr, dir, reg, c).0).Outcomes()
         == Total(reg).Outcomes() + if OversizeHere(cr, dir, reg, c) then 0 else 1
    ensures Total(Dispatch(cr, dir, reg, c).0).skippedRecords
         == Total(reg).skippedRecords
            + if Dispatch(cr, dir, reg, c).1.Ok? then |Dispatch(cr, dir, reg, c).1.value.skipped| else 0
  {
    hide Receiver.Next, Receiver.Result, OversizeCall, SumOver, Stats.Merge, Stats.Outcomes;
    var reg' := Dispatch(cr, dir, reg, c).0;
    MergeAdds(reg.own, SumOver(reg.models.Keys, reg.models));
    MergeAdds(reg'.own, SumOver(reg'.models.Keys, reg'.models));
    if Routable(reg, c.buf) {
      var id := SenderOf(c.buf);
      var rx, m := ReceiverFor(cr, dir, reg.cfgs[id]), reg.models[id];
      StepConserves(rx, m, c);
      SumWithOne(reg.models, id, rx.Next(m, c));
    } else {
      RecordingCounts(reg.own, if |c.buf| < HEADER_LEN then TooShort else UnknownSender(SenderOf(c.buf)));
    }
  }

  lemma SumWithOne(models: map<u32, Model>, id: u32, m: Model)
    requires id in models
    ensures var models' := models[id := m];
      var before, after := SumOver(models.Keys, models), SumOver(models'.Keys, models');
      && after.Outcomes() == before.Outcomes() - models[id].stats.Outcomes() + m.stats.Outcomes()
      && after.skippedRecords == before.skippedRecords - models[id].stats.skippedRecords + m.stats.skippedRecords
  {
    hide SumOver, Stats.Merge, Stats.Outcomes;
    var models' := models[id := m];
    assert models'.Keys == models.Keys;
    SumTakesAny(models.Keys, models, id);
    SumTakesAny(models.Keys, models', id);
    SumIgnoresOthers(models.Keys - {id}, models, id, m);
    MergeAdds(models[id].stats, SumOver(models.Keys - {id}, models));
    MergeAdds(m.stats, SumOver(models.Keys - {id}, models));
  }

  /** Provisioning keeps every counter of the totals, except that a second one drops what the first counted. */
  lemma ProvisioningTotals(reg: Registry, cfg: PeerConfig)
    requires reg.Valid() && !LacksMandatoryLimit(cfg)
    ensures Total(Enrolled(reg, cfg)).Merge(DroppedBy(reg, Enroll(cfg))) == Total(reg)
  {
    hide SumOver, Stats.Merge, Stats.Outcomes, NewModel;
    hide Registry.Valid;
    var id, models := cfg.senderId, reg.models;
    NothingCounted(cfg);
    SumRestarted(models, id, NewModel(cfg));
    var others, was := SumOver(models.Keys - {id}, models), if id in models then models[id].stats else NO_STATS;
    assert models[id := NewModel(cfg)].Keys == models.Keys + {id};
    assert DroppedBy(reg, Enroll(cfg)) == was;
    MergeSwaps(reg.own, others, was);
  }

  /** A restarted peer leaves the sum of the others. */
  lemma SumRestarted(models: map<u32, Model>, id: u32, started: Model)
    requires started.stats == NO_STATS
    ensures var others := SumOver(models.Keys - {id}, models);
      && SumOver(models.Keys + {id}, models[id := started]) == others
      && SumOver(models.Keys, models) == (if id in models then models[id].stats else NO_STATS).Merge(others)
  {
    hide SumOver, Stats.Merge;
    var models', ids := models[id := started], models.Keys + {id};
    assert models'.Keys == ids && ids - {id} == models.Keys - {id};
    SumTakesAny(ids, models', id);
    SumIgnoresOthers(models.Keys - {id}, models, id, started);
    NothingGone(SumOver(models.Keys - {id}, models));
    if id in models {
      SumTakesAny(models.Keys, models, id);
    } else {
      assert models.Keys - {id} == models.Keys;
    }
  }

  lemma MergeSwaps(a: Stats, b: Stats, c: Stats)
    ensures a.Merge(b).Merge(c) == a.Merge(c.Merge(b))
  {
  }

  lemma NothingCounted(cfg: PeerConfig)
    ensures NO_STATS.Outcomes() == 0 && NewModel(cfg).stats == NO_STATS
  {
  }

  function Received(cmds: seq<Command>): nat {
    if cmds == [] then 0 else (if cmds[0].Receive? then 1 else 0) + Received(cmds[1..])
  }

  lemma CommandConserves(cr: Crypto, dir: Direction, reg: Registry, cmd: Command)
    requires reg.Valid()
    ensures Total(Execute(cr, dir, reg, cmd)).Outcomes() + DroppedBy(reg, cmd).Outcomes()
         == Total(reg).Outcomes() + if cmd.Enroll? || OversizeHere(cr, dir, reg, cmd.call) then 0 else 1
    ensures Total(Execute(cr, dir, reg, cmd)).skippedRecords + DroppedBy(reg, cmd).skippedRecords
         == Total(reg).skippedRecords
            + if cmd.Receive? && Dispatch(cr, dir, reg, cmd.call).1.Ok?
              then |Dispatch(cr, dir, reg, cmd.call).1.value.skipped| else 0
  {
    hide Total, Dispatch, Enrolled, OversizeHere, Stats.Outcomes, Stats.Merge;
    NoneOutcomes();
    match cmd
    case Enroll(cfg) =>
      if !LacksMandatoryLimit(cfg) {
        ProvisioningTotals(reg, cfg);
        MergeAdds(Total(Enrolled(reg, cfg)), DroppedBy(reg, cmd));
      }
    case Receive(c) => DispatchConserves(cr, dir, reg, c);
  }

  /**
   * The collector's totals conserve outcomes as each peer's do. Over any run, with provisioning
   * between calls: together with what replaced peers had counted, every call is counted once, except
   * the oversize ones, and `skipped_records` is the total of the skipped lists. Without a second
   * provisioning nothing is dropped.
   */
  lemma {:induction false} TotalsAreConserved(cr: Crypto, dir: Direction, reg: Registry, cmds: seq<Command>)
    requires reg.Valid()
    ensures var (end, dropped) := (Total(RunAll(cr, dir, reg, cmds)), Dropped(cr, dir, reg, cmds));
      && end.Outcomes() + dropped.Outcomes()
         == Total(reg).Outcomes() + Received(cmds) - OversizeAmong(cr, dir, reg, cmds)
      && end.skippedRecords + dropped.skippedRecords
         == Total(reg).skippedRecords + TotalSkipped(RunResults(cr, dir, reg, cmds))
    decreases |cmds|
  {
    hide Total, Execute, Dispatch, OversizeHere, DroppedBy, Stats.Merge, Stats.Outcomes;
    if cmds == [] {
      NoneOutcomes();
    } else {
      var cmd, reg' := cmds[0], Execute(cr, dir, reg, cmds[0]);
      CommandConserves(cr, dir, reg, cmd);
      TotalsAreConserved(cr, dir, reg', cmds[1..]);
      MergeAdds(DroppedBy(reg, cmd), Dropped(cr, dir, reg', cmds[1..]));
      var rest := RunResults(cr, dir, reg', cmds[1..]);
      if cmd.Receive? {
        assert RunResults(cr, dir, reg, cmds)[1..] == rest;
      } else {
        assert RunResults(cr, dir, reg, cmds) == rest;
      }
    }
  }

  /** One datagram grows the totals by its own result. */
  lemma DispatchIsCounted(cr: Crypto, dir: Direction, reg: Registry, c: Call)
    requires reg.Valid()
    ensures CountersGrew(Total(reg), Total(Dispatch(cr, dir, reg, c).0), [Dispatch(cr, dir, reg, c).1])
  {
    hide CountersGrew, Receiver.Next, Receiver.Result, SumOver, Stats.Merge, Stats.RecordError;
    var (reg', r) := Dispatch(cr, dir, reg, c);
    var sum := SumOver(reg.models.Keys, reg.models);
    if Routable(reg, c.buf) {
      var id := SenderOf(c.buf);
      var rx, m := ReceiverFor(cr, dir, reg.cfgs[id]), reg.models[id];
      ResultIsCounted(rx, m, c);
      var others := SumOver(reg.models.Keys - {id}, reg.models);
      assert reg'.models.Keys == reg.models.Keys;
      SumTakesAny(reg.models.Keys, reg.models, id);
      SumTakesAny(reg.models.Keys, reg'.models, id);
      SumIgnoresOthers(reg.models.Keys - {id}, reg.models, id, rx.Next(m, c));
      MergeSwaps(reg.own, others, m.stats);
      MergeSwaps(reg.own, others, rx.Next(m, c).stats);
      GrowthUnderMerge(reg.own.Merge(others), m.stats, rx.Next(m, c).stats, [r]);
    } else {
      assert reg'.own == reg.own.RecordResult(r);
      OneResultCounted(reg.own, r);
      MergeLaws(sum, reg.own, NO_STATS);
      MergeLaws(reg.own, sum, NO_STATS);
      MergeSwaps(sum, NO_STATS, reg.own);
      GrowthUnderMerge(sum, reg.own, reg'.own, [r]);
      MergeCommutes(sum, reg.own);
      MergeCommutes(sum, reg'.own);
    }
  }

  lemma GrowthUnderMerge(x: Stats, before: Stats, after: Stats, rs: seq<Result<Accepted>>)
    requires CountersGrew(before, after, rs)
    ensures CountersGrew(x.Merge(before), x.Merge(after), rs)
  {
    hide Count, TotalSkipped;
  }

  lemma MergeCommutes(a: Stats, b: Stats)
    ensures a.Merge(b) == b.Merge(a)
  {
  }

  /**
   * The same of the totals, counter by counter: over any run, with provisioning between calls, and
   * with what replaced peers had counted, each has grown by the number of results of its own kind.
   */
  lemma {:induction false} EachTotalIsCounted(cr: Crypto, dir: Direction, reg: Registry, cmds: seq<Command>)
    requires reg.Valid()
    ensures CountersGrew(Total(reg), Total(RunAll(cr, dir, reg, cmds)).Merge(Dropped(cr, dir, reg, cmds)),
                         RunResults(cr, dir, reg, cmds))
    decreases |cmds|
  {
    hide Total, Dispatch, Enrolled, CountersGrew, Stats.Merge;
    MergeLaws(Total(reg), NO_STATS, NO_STATS);
    if cmds == [] {
      NoGrowth(Total(reg));
    } else {
      var cmd, reg' := cmds[0], Execute(cr, dir, reg, cmds[0]);
      EachTotalIsCounted(cr, dir, reg', cmds[1..]);
      var end, late, gone := Total(RunAll(cr, dir, reg', cmds[1..])), Dropped(cr, dir, reg', cmds[1..]), DroppedBy(reg, cmd);
      var rest := RunResults(cr, dir, reg', cmds[1..]);
      MergeSwaps(gone, end, late);
      MergeCommutes(gone, end.Merge(late));
      MergeLaws(end, gone, late);
      assert end.Merge(gone.Merge(late)) == gone.Merge(end.Merge(late));
      if cmd.Receive? {
        NothingGone(end.Merge(late));
        DispatchIsCounted(cr, dir, reg, cmd.call);
        GrowthAdds(Total(reg), Total(reg'), end.Merge(late), Dispatch(cr, dir, reg, cmd.call).1, rest);
      } else {
        assert RunResults(cr, dir, reg, cmds) == rest;
        GrowthUnderMerge(gone, Total(reg'), end.Merge(late), rest);
        MergeCommutes(gone, Total(reg'));
        if LacksMandatoryLimit(cmd.cfg) { MergeLaws(Total(reg), NO_STATS, NO_STATS); } else { ProvisioningTotals(reg, cmd.cfg); }
      }
    }
  }

  lemma NothingGone(s: Stats)
    ensures NO_STATS.Merge(s) == s
  {
  }

  lemma NoneOutcomes()
    ensures NO_STATS.Outcomes() == 0 && NO_STATS.skippedRecords == 0
  {
  }

  /** Senders provisioned for the first time drop nothing. */
  lemma {:induction false} FirstProvisioningDropsNothing(cr: Crypto, dir: Direction, reg: Registry, cmds: seq<Command>)
    requires reg.Valid()
    requires forall i :: 0 <= i < |cmds| && cmds[i].Enroll? ==> cmds[i].cfg.senderId !in reg.models
    requires forall i, j :: 0 <= i < j < |cmds| && cmds[i].Enroll? && cmds[j].Enroll? ==>
      cmds[i].cfg.senderId != cmds[j].cfg.senderId
    ensures Dropped(cr, dir, reg, cmds) == NO_STATS
    decreases |cmds|
  {
    hide NewModel, Dispatch, Stats.Merge;
    if cmds != [] {
      var reg' := Execute(cr, dir, reg, cmds[0]);
      MergeLaws(NO_STATS, NO_STATS, NO_STATS);
      assert cmds[0].Enroll? ==> cmds[0].cfg.senderId !in reg.models;
      forall i | 0 <= i < |cmds[1..]| && cmds[1..][i].Enroll? ensures cmds[1..][i].cfg.senderId !in reg'.models {
        assert cmds[1..][i] == cmds[i + 1];
      }
      FirstProvisioningDropsNothing(cr, dir, reg', cmds[1..]);
    }
  }
}
