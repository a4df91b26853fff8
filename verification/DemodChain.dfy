/**
 The demodulation chain of one channel: filter, discriminator, timing recovery, slicer,
 burst synchroniser and slot manager, each feeding the next. The chain is proved to
 produce the events of its whole input, however the input is cut into blocks.
 */
module DemodChain {
  import opened Bits
  import opened Wrappers
  import opened DibitStream
  import opened BurstScan
  import ChannelFilter
  import FmDiscriminator
  import TimingRecovery
  import TimingLoop
  import FskSlicer
  import BurstSync
  import SlotManager

  type Raw = seq<(byte, byte)>

  datatype Config = Config(design: ChannelFilter.Design, timing: TimingRecovery.Config, slicer: FskSlicer.Config, channel: int)

  ghost predicate Usable(c: Config) {
    ChannelFilter.Usable(c.design) && TimingRecovery.Sane(c.timing)
  }

  // ----- The chain as a composition -----

  function SymbolsOf(c: Config, raw: Raw): seq<real>
    requires Usable(c)
  {
    TimingRecovery.Symbols(c.timing, FmDiscriminator.Discriminated(ChannelFilter.Outputs(c.design, raw)))
  }

  function DibitsOf(c: Config, raw: Raw): seq<dibit>
    requires Usable(c)
  {
    FskSlicer.Dibits(c.slicer, SymbolsOf(c, raw))
  }

  /** The events of a whole input. */
  function EventsOf(c: Config, raw: Raw): seq<SlotManager.SlotEvent>
    requires Usable(c)
  {
    SlotManager.Events(Bursts(DibitsOf(c, raw), c.channel))
  }

  class Chain {
    const cfg: Config
    const filter: ChannelFilter.Filter
    const disc: FmDiscriminator.Discriminator
    const timing: TimingLoop.Recovery
    const slicer: FskSlicer.Slicer
    const sync: BurstSync.Sync
    const manager: SlotManager.Manager

    /** The stages are as configured and use separate memory. */
    ghost predicate Wired()
      reads this
    {
      && Usable(cfg)
      && filter.design == cfg.design && timing.cfg == cfg.timing && slicer.cfg == cfg.slicer && sync.channel == cfg.channel
      && (filter.delay as object) != timing.hist && (filter.delay as object) != sync.hist
      && (filter.delay as object) != manager.slots && (timing.hist as object) != sync.hist
      && (timing.hist as object) != manager.slots && (sync.hist as object) != manager.slots
    }

    /** The back half, from symbols to slots. */
    ghost predicate BackValid()
      reads this, slicer, sync, sync.hist, manager, manager.slots
    {
      && Wired()
      && slicer.Valid() && sync.Valid() && manager.Valid()
      && sync.stream == FskSlicer.Dibits(cfg.slicer, slicer.input)
      && manager.history == Bursts(sync.stream, cfg.channel)
    }

    ghost predicate Valid()
      reads this, filter, filter.delay, disc, timing, timing.hist, slicer, sync, sync.hist, manager, manager.slots
    {
      && BackValid()
      && filter.Valid() && disc.Valid() && timing.Valid()
      && disc.input == ChannelFilter.Outputs(cfg.design, filter.input)
      && timing.input == FmDiscriminator.Discriminated(disc.input)
      && slicer.input == TimingRecovery.Symbols(cfg.timing, timing.input)
    }

    constructor (c: Config)
      requires Usable(c)
      ensures Valid() && cfg == c && filter.input == []
      ensures fresh(filter) && fresh(filter.delay) && fresh(disc) && fresh(timing) && fresh(timing.hist)
      ensures fresh(slicer) && fresh(sync) && fresh(sync.hist) && fresh(manager) && fresh(manager.slots)
    {
      cfg := c;
      filter := new ChannelFilter.Filter(c.design);
      disc := new FmDiscriminator.Discriminator();
      timing := new TimingLoop.Recovery(c.timing);
      slicer := new FskSlicer.Slicer(c.slicer);
      sync := new BurstSync.Sync(c.channel);
      manager := new SlotManager.Manager();
      new;
      EmptyChain(c);
    }

    /** One symbol on its way to an event, if it completes a burst. */
    method HandleSymbol(symbol: real) returns (event: Option<SlotManager.SlotEvent>)
      requires BackValid()
      modifies slicer, sync, sync.hist, manager, manager.slots
      ensures BackValid() && slicer.input == old(slicer.input) + [symbol]
      ensures SlotManager.Events(manager.history) == SlotManager.Events(old(manager.history)) + event.ToSeq()
    {
      hide FskSlicer.Slicer.Valid, BurstSync.Sync.Valid, SlotManager.Manager.Valid;
      hide FskSlicer.Dibits, Bursts, SlotManager.Events, SlotManager.EventOf;
      event := None;
      var d := slicer.DecideSymbol(symbol);
      var burst := sync.PushDibit(d);
      match burst
      case None =>
      case Some(b) =>
        SlotManager.EventsSnoc(manager.history, b);
        var ev := manager.OnBurst(b);
        event := Some(ev);
    }

    method Process(raw: Raw) returns (events: seq<SlotManager.SlotEvent>)
      requires Valid()
      modifies filter, filter.delay, disc, timing, timing.hist, slicer, sync, sync.hist, manager, manager.slots
      ensures Valid() && filter.input == old(filter.input) + raw
      ensures EventsOf(cfg, filter.input) == EventsOf(cfg, old(filter.input)) + events
    {
      hide FskSlicer.Slicer.Valid, BurstSync.Sync.Valid, SlotManager.Manager.Valid;
      hide ChannelFilter.Filter.Valid, FmDiscriminator.Discriminator.Valid, TimingLoop.Recovery.Valid;
      hide FskSlicer.Dibits, Bursts, SlotManager.Events, SlotManager.EventOf;
      hide ChannelFilter.Outputs, FmDiscriminator.Discriminated, TimingRecovery.Symbols;
      hide TimingLoop.Recovery.Now, TimingLoop.Shaped, TimingLoop.Run, TimingLoop.EmittedBy, TimingLoop.RunDefined;
      events := [];
      var iq := filter.Process(raw);
      if iq == [] {
        return;
      }
      var values := disc.Process(iq);
      TimingLoop.ValidRuns(timing, values);
      var symbols := timing.Process(values);
      for i := 0 to |symbols|
        invariant BackValid() && slicer.input == old(slicer.input) + symbols[..i]
        invariant SlotManager.Events(manager.history) == SlotManager.Events(old(manager.history)) + events
        modifies slicer, sync, sync.hist, manager, manager.slots
      {
        var event := HandleSymbol(symbols[i]);
        events := events + event.ToSeq();
      }
    }

    /** Whatever the partition into blocks, the events are those of the whole input. */
    method ProcessBlocks(blocks: seq<Raw>) returns (events: seq<SlotManager.SlotEvent>)
      requires Valid()
      modifies filter, filter.delay, disc, timing, timing.hist, slicer, sync, sync.hist, manager, manager.slots
      ensures Valid() && filter.input == old(filter.input) + Flattened(blocks)
      ensures EventsOf(cfg, filter.input) == EventsOf(cfg, old(filter.input)) + events
    {
      hide Valid, EventsOf, Usable;
      ValidIsUsable(this);
      events := [];
      for i := 0 to |blocks|
        invariant Valid() && filter.input == old(filter.input) + Flattened(blocks[..i])
        invariant EventsOf(cfg, filter.input) == EventsOf(cfg, old(filter.input)) + events
      {
        FlattenedSnoc(blocks, i);
        var more := Process(blocks[i]);
        events := events + more;
      }
      assert blocks[..|blocks|] == blocks;
    }
  }

  lemma ValidIsUsable(chain: Chain)
    requires chain.Valid()
    ensures Usable(chain.cfg)
  {
  }

  function Flattened(blocks: seq<Raw>): Raw {
    if blocks == [] then [] else Flattened(blocks[..|blocks| - 1]) + blocks[|blocks| - 1]
  }

  lemma FlattenedSnoc(blocks: seq<Raw>, i: nat)
    requires i < |blocks|
    ensures Flattened(blocks[..i + 1]) == Flattened(blocks[..i]) + blocks[i]
  {
    assert blocks[..i + 1][..i] == blocks[..i];
  }

  lemma EmptyChain(c: Config)
    requires Usable(c)
    ensures ChannelFilter.Outputs(c.design, []) == [] && FmDiscriminator.Discriminated([]) == []
    ensures TimingRecovery.Symbols(c.timing, []) == []
    ensures FskSlicer.Dibits(c.slicer, []) == [] && Bursts([], c.channel) == []
  {
    assert 0 / c.design.decimation == 0;
  }
}
