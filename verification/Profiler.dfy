/**
 The profiler's main loop over two readers, with the counters of the echo network function
 (synthesized/echo-profiler.cpp, PortStats, worker_main, nf_init and nf_process).
 */
module Profiler {
  import opened Basics
  import opened Sums
  import opened PcapReading
  import opened ReaderRuns
  import opened ReaderOrder

  datatype PortStats = PortStats(countersPerPort: map<nat, nat>, dropCounter: nat, floodCounter: nat)

  ghost function PortCount(ps: PortStats, port: nat): nat {
    if port in ps.countersPerPort then ps.countersPerPort[port] else 0
  }

  /** Everything a PortStats has counted. */
  ghost function Counted(ps: PortStats): int {
    Sum(ps.countersPerPort.Keys, (port: nat) => PortCount(ps, port)) + ps.dropCounter + ps.floodCounter
  }

  /** The captures of one phase, in configuration order. */
  function Phase(config: seq<DevPcap>, warmup: bool): seq<DevPcap> {
    if config == [] then []
    else
      var c := config[|config| - 1];
      Phase(config[..|config| - 1], warmup) + if c.warmup == warmup then [c] else []
  }

  /** A PortStats as its constructor leaves it: every known port at zero. */
  function ZeroStats(ports: seq<nat>): PortStats {
    PortStats(map port | port in ports :: 0, 0, 0)
  }

  function Forwarded(ps: PortStats, port: nat): PortStats {
    ps.(countersPerPort := ps.countersPerPort[
          port := if port in ps.countersPerPort then ps.countersPerPort[port] + 1 else 1])
  }

  /** ps with every packet of `out` counted on its device. */
  ghost function Replayed(ps: PortStats, out: seq<Emission>): PortStats {
    if out == [] then ps else Forwarded(Replayed(ps, out[..|out| - 1]), out[|out| - 1].dev)
  }

  /** What worker_main leaves behind after replaying `out`. */
  ghost predicate Report(ports: seq<nat>, ps: PortStats, nodeCount: nat, elapsed: int, out: seq<Emission>) {
    && out != []
    && ps == Replayed(ZeroStats(ports), out)
    && nodeCount == |out|
    && elapsed == out[|out| - 1].pkt.ts - out[0].pkt.ts
  }

  /** The captures of the warmup phase and those of the measured phase. */
  method SplitConfig(config: seq<DevPcap>) returns (warmupPcaps: seq<DevPcap>, pcaps: seq<DevPcap>)
    ensures warmupPcaps == Phase(config, true) && pcaps == Phase(config, false)
  {
    warmupPcaps, pcaps := [], [];
    for i := 0 to |config|
      invariant warmupPcaps == Phase(config[..i], true) && pcaps == Phase(config[..i], false)
    {
      assert config[..i + 1][..i] == config[..i];
      if config[i].warmup {
        warmupPcaps := warmupPcaps + [config[i]];
      } else {
        pcaps := pcaps + [config[i]];
      }
    }
    assert config[..|config|] == config;
  }

  lemma WeightNonNegative(r: Reader, w: Packet -> nat)
    requires WF(r)
    ensures Weight(r, w) >= 0
  {
    SumNonNegative(r.pcaps.Keys, (d: Device) => SumOf(Remaining(r, d), w));
  }

  /** get_next_packet, with the run it extends. */
  method Pull(reader: PcapReader, ghost rs: seq<Reader>, ghost out: seq<Emission>)
    returns (more: bool, dev: Device, pkt: Packet, ghost rs': seq<Reader>, ghost out': seq<Emission>)
    requires IsRun(rs, out) && reader.View() == rs[|out|]
    modifies reader
    ensures IsRun(rs', out') && rs'[0] == rs[0] && reader.View() == rs'[|out'|]
    ensures out' == if more then out + [Emission(dev, pkt)] else out
    ensures !more ==> rs'[|out'|].pending == map[] && rs' == rs
    ensures more ==> 0 <= Weight(rs'[|out'|], One) < Weight(rs[|out|], One)
    ensures 0 <= Weight(rs[|out|], One)
  {
    rs', out' := rs, out;
    ghost var r := reader.View();
    WeightNonNegative(r, One);
    more, dev, pkt := reader.GetNextPacket();
    if more {
      NextTakesHead(r, dev, pkt, reader.View());
      NextWeight(r, dev, pkt, reader.View(), One);
      WeightNonNegative(reader.View(), One);
      RunSnoc(rs, out, Emission(dev, pkt), reader.View());
      rs', out' := rs + [reader.View()], out + [Emission(dev, pkt)];
    }
  }

  class Profiler {
    const ports: seq<nat>            // 0 to 31 in the echo function; any list will do
    var warmup: bool
    var forwarding: PortStats        // the only route operation of the echo function
    var nodePktCounter: nat          // its only node
    var elapsed: int

    constructor (ports: seq<nat>)
      ensures this.ports == ports
    {
      this.ports := ports;
      warmup, forwarding, nodePktCounter, elapsed := false, PortStats(map[], 0, 0), 0, 0;
    }

    method NfInit()
      modifies this`forwarding, this`nodePktCounter
      ensures forwarding == ZeroStats(ports) && nodePktCounter == 0
    {
      var counters: map<nat, nat> := map[];
      for i := 0 to |ports|
        invariant counters == map port | port in ports[..i] :: 0
      {
        counters := counters[ports[i] := 0];
      }
      assert ports[..|ports|] == ports;
      forwarding := PortStats(counters, 0, 0);
      nodePktCounter := 0;
    }

    method IncPathCounter()
      modifies this`nodePktCounter
      ensures nodePktCounter == old(nodePktCounter) + if warmup then 0 else 1
    {
      if warmup {
        return;
      }
      nodePktCounter := nodePktCounter + 1;
    }

    method IncFwd(port: nat)
      modifies this`forwarding
      ensures forwarding == if warmup then old(forwarding) else Forwarded(old(forwarding), port)
    {
      if !warmup {
        var counters := forwarding.countersPerPort;
        counters := counters[port := if port in counters then counters[port] + 1 else 1];
        forwarding := forwarding.(countersPerPort := counters);
      }
    }

    method NfProcess(device: Device) returns (r: nat)
      modifies this`forwarding, this`nodePktCounter
      ensures r == device
      ensures nodePktCounter == old(nodePktCounter) + if warmup then 0 else 1
      ensures forwarding == if warmup then old(forwarding) else Forwarded(old(forwarding), device)
    {
      IncPathCounter();
      IncFwd(device % 0x1_0000);
      r := device % 0x1_0000;
    }

    /** The warmup phase: the whole warmup stream is replayed, and nothing is counted. */
    method Warmup(reader: PcapReader)
      requires WF(reader.View())
      modifies this, reader
      ensures warmup == false && forwarding == old(forwarding) && nodePktCounter == old(nodePktCounter)
      ensures reader.pending == map[]
    {
      warmup := true;
      var more, dev, pkt;
      ghost var rs, out := [reader.View()], [];
      more, dev, pkt, rs, out := Pull(reader, rs, out);
      while more
        invariant warmup && forwarding == old(forwarding) && nodePktCounter == old(nodePktCounter)
        invariant IsRun(rs, out) && reader.View() == rs[|out|] && (!more ==> reader.pending == map[])
        decreases Weight(rs[|out|], One) + if more then 1 else 0
      {
        var _ := NfProcess(dev);
        more, dev, pkt, rs, out := Pull(reader, rs, out);
      }
      warmup := false;
    }

    /** The do-while loop: process the packet at hand, then fetch the next one. */
    method ReplayAll(reader: PcapReader, dev0: Device, pkt0: Packet, ghost rs0: seq<Reader>)
      returns (lastTime: int, ghost rs: seq<Reader>, ghost out: seq<Emission>)
      requires !warmup && IsRun(rs0, [Emission(dev0, pkt0)]) && reader.View() == rs0[1]
      modifies this`forwarding, this`nodePktCounter, reader
      ensures IsRun(rs, out) && rs[0] == rs0[0] && rs[|out|].pending == map[]
      ensures [Emission(dev0, pkt0)] <= out && lastTime == out[|out| - 1].pkt.ts
      ensures forwarding == Replayed(old(forwarding), out)
      ensures nodePktCounter == old(nodePktCounter) + |out|
    {
      ghost var forwarding0, count0 := forwarding, nodePktCounter;
      ghost var done: seq<Emission> := [];
      var more, dev, pkt := true, dev0, pkt0;
      rs, out, lastTime := rs0, [Emission(dev, pkt)], 0;
      while more
        invariant !warmup && IsRun(rs, out) && rs[0] == rs0[0] && reader.View() == rs[|out|]
        invariant !more ==> rs[|out|].pending == map[] && lastTime == out[|out| - 1].pkt.ts
        invariant [Emission(dev0, pkt0)] <= out
        invariant out == if more then done + [Emission(dev, pkt)] else done
        invariant forwarding == Replayed(forwarding0, done) && nodePktCounter == count0 + |done|
        decreases Weight(rs[|out|], One) + if more then 1 else 0
      {
        var _ := NfProcess(dev);
        assert out[..|out| - 1] == done;
        done := out;
        lastTime := pkt.ts;
        more, dev, pkt, rs, out := Pull(reader, rs, out);
      }
    }

    /** From the first packet to the elapsed time. */
    method ReplayTimed(reader: PcapReader, dev0: Device, pkt0: Packet, ghost rs0: seq<Reader>)
      returns (ghost rs: seq<Reader>, ghost out: seq<Emission>)
      requires !warmup && IsRun(rs0, [Emission(dev0, pkt0)]) && reader.View() == rs0[1]
      modifies this, reader
      ensures IsRun(rs, out) && rs[0] == rs0[0] && rs[|out|].pending == map[] && out != []
      ensures forwarding == Replayed(old(forwarding), out) && nodePktCounter == old(nodePktCounter) + |out|
      ensures elapsed == out[|out| - 1].pkt.ts - out[0].pkt.ts
    {
      var startTime: int := pkt0.ts;
      var lastTime;
      lastTime, rs, out := ReplayAll(reader, dev0, pkt0, rs0);
      assert out[0] == [Emission(dev0, pkt0)][0];
      elapsed := lastTime - startTime;
    }

    /** The measured phase. Returns false where the source asserts that there is a packet. */
    method Measure(reader: PcapReader) returns (ok: bool, ghost rs: seq<Reader>, ghost out: seq<Emission>)
      requires WF(reader.View()) && !warmup
      modifies this, reader
      ensures IsRun(rs, out) && rs[0] == old(reader.View()) && rs[|out|].pending == map[]
      ensures ok <==> out != []
      ensures ok ==> forwarding == Replayed(old(forwarding), out)
      ensures ok ==> nodePktCounter == old(nodePktCounter) + |out|
      ensures ok ==> elapsed == out[|out| - 1].pkt.ts - out[0].pkt.ts
    {
      rs, out := [reader.View()], [];
      var dev, pkt;
      ok, dev, pkt, rs, out := Pull(reader, rs, out);
      if ok {
        rs, out := ReplayTimed(reader, dev, pkt, rs);
      }
    }

    method WorkerMain(config: seq<DevPcap>)
      returns (ok: bool, total: nat, ghost rs: seq<Reader>, ghost out: seq<Emission>)
      modifies this
      ensures IsFullRun(Phase(config, false), rs, out)
      ensures total == SetUp(Phase(config, false)).totalPackets
      ensures ok <==> out != []
      ensures ok ==> Report(ports, forwarding, nodePktCounter, elapsed, out)
    {
      NfInit();
      var warmupPcaps, pcaps := SplitConfig(config);
      var warmupReader := new PcapReader();
      var reader := new PcapReader();
      warmupReader.Setup(warmupPcaps);
      reader.Setup(pcaps);
      SetUpFeeds(warmupPcaps, 0);
      SetUpFeeds(pcaps, 0);
      total := reader.totalPackets;
      Warmup(warmupReader);
      ok, rs, out := Measure(reader);
    }
  }

  lemma ForwardedCounts(q: PortStats, dev: Device)
    ensures Counted(Forwarded(q, dev)) == Counted(q) + 1
  {
    var r := Forwarded(q, dev);
    var f, g := (port: nat) => PortCount(q, port), (port: nat) => PortCount(r, port);
    SumPad(q.countersPerPort.Keys, r.countersPerPort.Keys, f);
    SumBump(r.countersPerPort.Keys, f, g, dev);
  }

  lemma {:induction false} ReplayedCounts(ps: PortStats, out: seq<Emission>)
    ensures var r := Replayed(ps, out);
            && (forall d: Device :: PortCount(r, d) == PortCount(ps, d) + |Proj(out, d)|)
            && Counted(r) == Counted(ps) + |out|
            && r.dropCounter == ps.dropCounter && r.floodCounter == ps.floodCounter
    decreases |out|
  {
    if out != [] {
      ReplayedCounts(ps, out[..|out| - 1]);
      ForwardedCounts(Replayed(ps, out[..|out| - 1]), out[|out| - 1].dev);
    }
  }

  lemma {:induction false} PortsStay(ps: PortStats, out: seq<Emission>)
    ensures ps.countersPerPort.Keys <= Replayed(ps, out).countersPerPort.Keys
    decreases |out|
  {
    if out != [] { PortsStay(ps, out[..|out| - 1]); }
  }

  lemma ReplayedFromZero(ports: seq<nat>, out: seq<Emission>)
    ensures var r := Replayed(ZeroStats(ports), out);
            && (forall d: Device :: PortCount(r, d) == |Proj(out, d)|)
            && Counted(r) == |out| && r.dropCounter == 0 && r.floodCounter == 0
  {
    var zero := ZeroStats(ports);
    ReplayedCounts(zero, out);
    SumZero(zero.countersPerPort.Keys, (port: nat) => PortCount(zero, port));
  }

  /** The captures of a phase are exactly those with its flag, in configuration order. */
  lemma {:induction false} PhaseIndices(config: seq<DevPcap>, warmup: bool) returns (ks: seq<nat>)
    ensures |ks| == |Phase(config, warmup)|
    ensures forall i :: 0 <= i < |ks| ==> ks[i] < |config| && Phase(config, warmup)[i] == config[ks[i]]
    ensures forall i, j :: 0 <= i < j < |ks| ==> ks[i] < ks[j]
    ensures forall k: nat :: k < |config| ==> (k in ks <==> config[k].warmup == warmup)
    decreases |config|
  {
    if config == [] {
      ks := [];
    } else {
      var n := |config| - 1;
      ks := PhaseIndices(config[..n], warmup);
      if config[n].warmup == warmup { ks := ks + [n]; }
    }
  }

  /** No two measured captures lose packets to each other. */
  ghost predicate MeasuredLossless(config: seq<DevPcap>) {
    forall i, j :: 0 <= i < j < |config| && !config[i].warmup && !config[j].warmup
                   && config[i].device == config[j].device ==>
      config[i].frames == [] || (|config[i].frames| == 1 && config[j].frames == [])
  }

  lemma LosslessPhase(config: seq<DevPcap>)
    ensures Lossless(Phase(config, false)) <==> MeasuredLossless(config)
  {
    var ks := PhaseIndices(config, false);
    var list := Phase(config, false);
    if Lossless(list) {
      forall i, j | 0 <= i < j < |config| && !config[i].warmup && !config[j].warmup
                    && config[i].device == config[j].device
        ensures config[i].frames == [] || (|config[i].frames| == 1 && config[j].frames == [])
      {
        assert i in ks && j in ks;
        var a: nat :| a < |ks| && ks[a] == i;
        var b: nat :| b < |ks| && ks[b] == j;
        assert a < b && list[a] == config[i] && list[b] == config[j];
      }
    }
    if MeasuredLossless(config) {
      forall a, b | 0 <= a < b < |list| && list[a].device == list[b].device
        ensures list[a].frames == [] || (|list[a].frames| == 1 && list[b].frames == [])
      {
        assert ks[a] in ks && ks[b] in ks && list[a] == config[ks[a]] && list[b] == config[ks[b]];
      }
    }
  }

  /** No measured capture plays on device d. */
  ghost predicate Unmeasured(config: seq<DevPcap>, d: Device) {
    forall k :: 0 <= k < |config| && !config[k].warmup ==> config[k].device != d
  }

  /** Capture k is measured, and no other measured capture plays on its device. */
  ghost predicate MeasuredAlone(config: seq<DevPcap>, k: nat)
    requires k < |config|
  {
    && !config[k].warmup
    && forall j :: 0 <= j < |config| && j != k && !config[j].warmup ==> config[j].device != config[k].device
  }

  lemma PhaseLast(config: seq<DevPcap>)
    requires config != []
    ensures var init, c := config[..|config| - 1], config[|config| - 1];
            && (!c.warmup ==> Phase(config, false) != [] && Phase(config, false)[|Phase(config, false)| - 1] == c
                              && Phase(config, false)[..|Phase(config, false)| - 1] == Phase(init, false))
            && (c.warmup ==> Phase(config, false) == Phase(init, false))
  {
  }

  lemma {:induction false} UnmeasuredFeed(config: seq<DevPcap>, d: Device)
    requires Unmeasured(config, d)
    ensures Feed(Phase(config, false), d) == []
    decreases |config|
  {
    if config != [] {
      var n := |config| - 1;
      assert forall k :: 0 <= k < n ==> config[..n][k] == config[k];
      UnmeasuredFeed(config[..n], d);
      PhaseLast(config);
    }
  }

  lemma {:induction false} AloneFeed(config: seq<DevPcap>, k: nat)
    requires k < |config| && MeasuredAlone(config, k)
    ensures Feed(Phase(config, false), config[k].device) == IngestAll(config[k].rawIp, config[k].frames)
    decreases |config|
  {
    var n := |config| - 1;
    assert forall j :: 0 <= j < n ==> config[..n][j] == config[j];
    PhaseLast(config);
    if k < n {
      AloneFeed(config[..n], k);
    } else {
      UnmeasuredFeed(config[..n], config[k].device);
    }
  }

  lemma MeasuredDelivery(config: seq<DevPcap>, rs: seq<Reader>, out: seq<Emission>)
    requires IsFullRun(Phase(config, false), rs, out)
    ensures forall d: Device :: Proj(out, d) == Feed(Phase(config, false), d)
    ensures forall k :: 0 <= k < |config| && MeasuredAlone(config, k) ==>
              Proj(out, config[k].device) == IngestAll(config[k].rawIp, config[k].frames)
    ensures forall d: Device :: Unmeasured(config, d) ==> Proj(out, d) == []
  {
    MergeIsInterleaving(Phase(config, false), rs, out);
    forall k | 0 <= k < |config| && MeasuredAlone(config, k)
      ensures Proj(out, config[k].device) == IngestAll(config[k].rawIp, config[k].frames)
    {
      AloneFeed(config, k);
    }
    forall d: Device | Unmeasured(config, d)
      ensures Proj(out, d) == []
    {
      UnmeasuredFeed(config, d);
    }
  }

  /** Whole-run conservation: the node counter equals all forwarding counters together. A capture
      that is measured alone on its device is delivered whole, once, in order, and counted on
      that device; a device without a measured capture delivers and counts nothing, so no warmup
      packet is in any counter. All of it equals total_packets exactly when no measured capture
      loses packets to another. */
  lemma RunConservation(config: seq<DevPcap>, rs: seq<Reader>, out: seq<Emission>,
                        ports: seq<nat>, ps: PortStats, nodeCount: nat, elapsed: int)
    requires IsFullRun(Phase(config, false), rs, out) && Report(ports, ps, nodeCount, elapsed, out)
    ensures nodeCount == Counted(ps) && ps.dropCounter == 0 && ps.floodCounter == 0
    ensures forall d: Device :: PortCount(ps, d) == |Feed(Phase(config, false), d)|
    ensures forall k :: 0 <= k < |config| && MeasuredAlone(config, k) ==>
              && Proj(out, config[k].device) == IngestAll(config[k].rawIp, config[k].frames)
              && PortCount(ps, config[k].device) == |config[k].frames|
    ensures forall d: Device :: Unmeasured(config, d) ==> Proj(out, d) == [] && PortCount(ps, d) == 0
    ensures forall port :: port in ports ==> port in ps.countersPerPort
    ensures nodeCount == SetUp(Phase(config, false)).totalPackets <==> MeasuredLossless(config)
  {
    ReplayedFromZero(ports, out);
    PortsStay(ZeroStats(ports), out);
    MergeCount(Phase(config, false), rs, out);
    LosslessPhase(config);
    MeasuredDelivery(config, rs, out);
  }

  /** The elapsed time is that from the first packet measured to the last; if every device's
      packets are in timestamp order, it is not negative and the span of all timestamps. */
  lemma ElapsedIsSpan(config: seq<DevPcap>, rs: seq<Reader>, out: seq<Emission>,
                      ports: seq<nat>, ps: PortStats, nodeCount: nat, elapsed: int)
    requires IsFullRun(Phase(config, false), rs, out) && Report(ports, ps, nodeCount, elapsed, out)
    ensures out != [] && elapsed == out[|out| - 1].pkt.ts - out[0].pkt.ts
    ensures FeedsSorted(Phase(config, false)) ==>
              && elapsed >= 0
              && forall i, j :: 0 <= i < |out| && 0 <= j < |out| ==> out[i].pkt.ts - out[j].pkt.ts <= elapsed
  {
    MergeSorted(Phase(config, false), rs, out);
    var all := Packets(out);
    assert forall i :: 0 <= i < |out| ==> all[i] == out[i].pkt;
    assert all[0] == out[0].pkt && all[|out| - 1] == out[|out| - 1].pkt;
  }
}
