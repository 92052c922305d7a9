/**
 Whole runs of the reader: what the packets returned by get_next_packet, until it returns
 false, have to do with the captures handed to setup.
 */
module ReaderRuns {
  import opened Basics
  import opened Sums
  import opened PcapReading

  datatype Emission = Emission(dev: Device, pkt: Packet)

  /** rs[i] is the reader before the i-th successful call and out[i] what that call returns. */
  ghost predicate IsRun(rs: seq<Reader>, out: seq<Emission>) {
    && |rs| == |out| + 1
    && (forall i :: 0 <= i < |rs| ==> WF(rs[i]))
    && (forall i :: 0 <= i < |out| ==> Next(rs[i], out[i].dev, out[i].pkt, rs[i + 1]))
  }

  /** A run of a reader set up on `list`, up to the call that returns false. */
  ghost predicate IsFullRun(list: seq<DevPcap>, rs: seq<Reader>, out: seq<Emission>) {
    IsRun(rs, out) && rs[0] == SetUp(list) && rs[|out|].pending == map[]
  }

  /** The packets delivered for device d, in order. */
  ghost function Proj(out: seq<Emission>, d: Device): seq<Packet> {
    if out == [] then []
    else
      var e := out[|out| - 1];
      Proj(out[..|out| - 1], d) + if e.dev == d then [e.pkt] else []
  }

  ghost function Packets(out: seq<Emission>): (ps: seq<Packet>)
    ensures |ps| == |out|
  {
    seq(|out|, i requires 0 <= i < |out| => out[i].pkt)
  }

  ghost function One(p: Packet): nat { 1 }

  /** The weight still to be delivered, over all devices. */
  ghost function Weight(r: Reader, w: Packet -> nat): int
    requires WF(r)
  {
    Sum(r.pcaps.Keys, (d: Device) => SumOf(Remaining(r, d), w))
  }

  /** What a list of captures has pending and queued for device d. Opening a second capture
      on a device discards the first, except that an empty one keeps the pending packet. */
  ghost function Feed(list: seq<DevPcap>, d: Device): seq<Packet> {
    if list == [] then []
    else
      var c := list[|list| - 1];
      var before := Feed(list[..|list| - 1], d);
      if c.device != d then before
      else if c.frames != [] then IngestAll(c.rawIp, c.frames)
      else if before == [] then [] else [before[0]]
  }

  /** No two captures of one device lose packets to each other. */
  ghost predicate Lossless(list: seq<DevPcap>) {
    forall i, j :: 0 <= i < j < |list| && list[i].device == list[j].device ==>
      list[i].frames == [] || (|list[i].frames| == 1 && list[j].frames == [])
  }

  // ---------- one step ----------

  lemma SumOfCons(p: Packet, ps: seq<Packet>, w: Packet -> nat)
    ensures SumOf([p] + ps, w) == w(p) + SumOf(ps, w)
  {
    if ps == [] {
      assert [p] + ps == [p];
    } else {
      assert ([p] + ps)[..|ps|] == [p] + ps[..|ps| - 1];
      SumOfCons(p, ps[..|ps| - 1], w);
    }
  }

  lemma {:induction false} SumOfOne(ps: seq<Packet>)
    ensures SumOf(ps, One) == |ps|
  {
    if ps != [] { SumOfOne(ps[..|ps| - 1]); }
  }

  /** A call takes exactly the head of what its device has left, and touches no other device. */
  lemma NextTakesHead(r: Reader, d: Device, p: Packet, r': Reader)
    requires WF(r) && Next(r, d, p, r')
    ensures WF(r') && r'.pcaps == r.pcaps && r'.totalPackets == r.totalPackets
    ensures Remaining(r, d) == [p] + Remaining(r', d)
    ensures forall e: Device :: e != d ==> Remaining(r', e) == Remaining(r, e)
  {
    var all := IngestAll(r.assumeIp[d], r.pcaps[d]);
    if r.pos[d] < |all| {
      assert all[r.pos[d]..] == [all[r.pos[d]]] + all[r.pos[d] + 1..];
    } else {
      assert all[r.pos[d]..] == [];
    }
  }

  lemma Assoc(a: seq<Packet>, p: Packet, b: seq<Packet>)
    ensures a + [p] + b == a + ([p] + b)
  {
  }

  /** The step of RunProjection: the head moves from what is left to what was delivered. */
  lemma TakeHead(done: seq<Packet>, all: seq<Packet>, r: Reader, e: Emission, r': Reader, d: Device)
    requires WF(r) && WF(r') && Next(r, e.dev, e.pkt, r') && done + Remaining(r, d) == all
    ensures done + (if e.dev == d then [e.pkt] else []) + Remaining(r', d) == all
    ensures r'.pcaps == r.pcaps && r'.totalPackets == r.totalPackets
  {
    NextTakesHead(r, e.dev, e.pkt, r');
    Assoc(done, e.pkt, Remaining(r', d));
    Assoc(done, e.pkt, []);
    if e.dev != d { assert done + [] == done; }
  }

  lemma NextWeight(r: Reader, d: Device, p: Packet, r': Reader, w: Packet -> nat)
    requires WF(r) && Next(r, d, p, r') && WF(r')
    ensures Weight(r, w) == w(p) + Weight(r', w)
  {
    NextTakesHead(r, d, p, r');
    SumOfCons(p, Remaining(r', d), w);
    SumBump(r.pcaps.Keys, (e: Device) => SumOf(Remaining(r', e), w),
            (e: Device) => SumOf(Remaining(r, e), w), d);
  }

  lemma RunPrefix(rs: seq<Reader>, out: seq<Emission>, n: nat)
    requires IsRun(rs, out) && n <= |out|
    ensures IsRun(rs[..n + 1], out[..n])
  {
  }

  lemma RunSnoc(rs: seq<Reader>, out: seq<Emission>, e: Emission, r: Reader)
    requires IsRun(rs, out) && WF(r) && Next(rs[|out|], e.dev, e.pkt, r)
    ensures IsRun(rs + [r], out + [e])
  {
  }

  // ---------- whole runs ----------

  lemma {:induction false} RunProjection(rs: seq<Reader>, out: seq<Emission>, d: Device)
    requires IsRun(rs, out)
    ensures Proj(out, d) + Remaining(rs[|out|], d) == Remaining(rs[0], d)
    ensures rs[|out|].pcaps == rs[0].pcaps && rs[|out|].totalPackets == rs[0].totalPackets
    decreases |out|
  {
    if out != [] {
      var n := |out| - 1;
      RunPrefix(rs, out, n);
      RunProjection(rs[..n + 1], out[..n], d);
      TakeHead(Proj(out[..n], d), Remaining(rs[0], d), rs[n], out[n], rs[n + 1], d);
    }
  }

  lemma PacketsWeight(out: seq<Emission>, w: Packet -> nat)
    requires out != []
    ensures var n := |out| - 1; SumOf(Packets(out), w) == SumOf(Packets(out[..n]), w) + w(out[n].pkt)
  {
    assert Packets(out)[..|out| - 1] == Packets(out[..|out| - 1]);
  }

  /** For every weight, delivered plus left is what there was at the start. */
  lemma {:induction false} RunWeight(rs: seq<Reader>, out: seq<Emission>, w: Packet -> nat)
    requires IsRun(rs, out)
    ensures SumOf(Packets(out), w) + Weight(rs[|out|], w) == Weight(rs[0], w)
    decreases |out|
  {
    if out != [] {
      var n := |out| - 1;
      RunPrefix(rs, out, n);
      RunWeight(rs[..n + 1], out[..n], w);
      NextWeight(rs[n], out[n].dev, out[n].pkt, rs[n + 1], w);
      PacketsWeight(out, w);
    }
  }

  /** The step of SetUpFeeds: what opening one more capture does to each device. */
  lemma OpenedFeeds(r: Reader, c: DevPcap, d: Device)
    requires WF(r)
    ensures WF(Opened(r, c)) && Opened(r, c).pcaps.Keys == r.pcaps.Keys + {c.device}
    ensures Remaining(Opened(r, c), d) ==
            if c.device != d then Remaining(r, d)
            else if c.frames != [] then IngestAll(c.rawIp, c.frames)
            else if Remaining(r, d) == [] then [] else [Remaining(r, d)[0]]
  {
    OpenedIsWF(r, c);
    var all := IngestAll(c.rawIp, c.frames);
    if c.device == d {
      if c.frames != [] {
        assert [all[0]] + all[1..] == all;
      } else {
        assert all[0..] == [];
      }
    }
  }

  lemma {:induction false} SetUpFeeds(list: seq<DevPcap>, d: Device)
    ensures WF(SetUp(list)) && Remaining(SetUp(list), d) == Feed(list, d)
    decreases |list|
  {
    if list != [] {
      SetUpFeeds(list[..|list| - 1], d);
      OpenedFeeds(SetUp(list[..|list| - 1]), list[|list| - 1], d);
    }
  }

  lemma NothingLeft(r: Reader, w: Packet -> nat)
    requires WF(r) && r.pending == map[]
    ensures Weight(r, w) == 0
  {
    SumZero(r.pcaps.Keys, (d: Device) => SumOf(Remaining(r, d), w));
  }

  /** The merge delivers an interleaving of the feeds: every device's packets, in capture
      order, once each, and nothing after that. */
  lemma MergeIsInterleaving(list: seq<DevPcap>, rs: seq<Reader>, out: seq<Emission>)
    requires IsFullRun(list, rs, out)
    ensures forall d: Device :: Proj(out, d) == Feed(list, d)
    ensures |out| == Weight(SetUp(list), One)
  {
    forall d: Device
      ensures Proj(out, d) == Feed(list, d)
    {
      RunProjection(rs, out, d);
      SetUpFeeds(list, d);
    }
    RunWeight(rs, out, One);
    NothingLeft(rs[|out|], One);
    SumOfOne(Packets(out));
  }

  // ---------- which configurations lose packets ----------

  /** What is queued for the device of capture k, if later captures of that device are empty: all
      of it without such a capture, else its first packet only. */
  lemma {:induction false} FeedOfLast(list: seq<DevPcap>, k: nat)
    requires k < |list| && list[k].frames != []
    requires forall j :: k < j < |list| && list[j].device == list[k].device ==> list[j].frames == []
    ensures var d, all := list[k].device, IngestAll(list[k].rawIp, list[k].frames);
            Feed(list, d) == if exists j :: k < j < |list| && list[j].device == d then [all[0]] else all
    decreases |list|
  {
    var n := |list| - 1;
    if k < n {
      FeedOfLast(list[..n], k);
      assert forall j :: k < j < n ==> list[..n][j] == list[j];
      if j :| k < j < n && list[j].device == list[k].device {
        assert list[..n][j].device == list[k].device;
      }
    }
  }

  lemma {:induction false} FeedEmpty(list: seq<DevPcap>, d: Device)
    ensures Feed(list, d) == [] <==>
            forall i :: 0 <= i < |list| && list[i].device == d ==> list[i].frames == []
    decreases |list|
  {
    if list != [] {
      FeedEmpty(list[..|list| - 1], d);
    }
  }

  /** Without loss so far, the feed of d is at most one packet long exactly when every
      capture of d is. */
  lemma {:induction false} FeedShort(list: seq<DevPcap>, d: Device)
    requires Lossless(list)
    ensures |Feed(list, d)| <= 1 <==>
            forall i :: 0 <= i < |list| && list[i].device == d ==> |list[i].frames| <= 1
    decreases |list|
  {
    if list != [] {
      FeedShort(list[..|list| - 1], d);
    }
  }

  ghost function TotalOf(list: seq<DevPcap>, w: Packet -> nat): nat {
    if list == [] then 0
    else
      var c := list[|list| - 1];
      TotalOf(list[..|list| - 1], w) + SumOf(IngestAll(c.rawIp, c.frames), w)
  }

  lemma {:induction false} SetUpTotals(list: seq<DevPcap>)
    ensures SetUp(list).totalPackets == TotalOf(list, One)
    ensures SetUp(list).totalBytes == TotalOf(list, WireBytes)
    ensures SetUp(list).processed == 0 && SetUp(list).printed == [] && SetUp(list).lastPercentage == -1
    decreases |list|
  {
    if list != [] {
      SetUpTotals(list[..|list| - 1]);
      var c := list[|list| - 1];
      SumOfOne(IngestAll(c.rawIp, c.frames));
    }
  }

  /** Opening one more capture changes the weight to deliver by the change on its device. */
  lemma OpenedWeight(r: Reader, c: DevPcap, w: Packet -> nat)
    requires WF(r) && WF(Opened(r, c))
    ensures Weight(Opened(r, c), w) ==
            Weight(r, w) - SumOf(Remaining(r, c.device), w) + SumOf(Remaining(Opened(r, c), c.device), w)
  {
    var r' := Opened(r, c);
    var f := (d: Device) => SumOf(Remaining(r, d), w);
    var g := (d: Device) => SumOf(Remaining(r', d), w);
    forall d: Device
      ensures r'.pcaps.Keys == r.pcaps.Keys + {c.device}
      ensures d != c.device ==> Remaining(r', d) == Remaining(r, d)
    {
      OpenedFeeds(r, c, d);
    }
    SumPad(r.pcaps.Keys, r'.pcaps.Keys, f);
    SumBump(r'.pcaps.Keys, f, g, c.device);
  }

  lemma LosslessSnoc(init: seq<DevPcap>, c: DevPcap)
    requires Lossless(init)
    ensures Lossless(init + [c]) <==>
            if c.frames == []
            then forall i :: 0 <= i < |init| && init[i].device == c.device ==> |init[i].frames| <= 1
            else forall i :: 0 <= i < |init| && init[i].device == c.device ==> init[i].frames == []
  {
    var list := init + [c];
    forall i, j | 0 <= i < j < |list| && list[i].device == list[j].device && j < |init|
      ensures list[i].frames == [] || (|list[i].frames| == 1 && list[j].frames == [])
    {
      assert init[i] == list[i] && init[j] == list[j];
    }
    if Lossless(list) {
      forall i | 0 <= i < |init| && init[i].device == c.device
        ensures init[i].frames == [] || (|init[i].frames| == 1 && c.frames == [])
      {
        assert list[i] == init[i] && list[|init|] == c;
      }
    }
  }

  /** Packets lost by opening c after `init`: none exactly if the list stays lossless. */
  lemma LossStep(init: seq<DevPcap>, c: DevPcap)
    ensures |Feed(init + [c], c.device)| <= |Feed(init, c.device)| + |c.frames|
    ensures Lossless(init + [c]) <==>
            Lossless(init) && |Feed(init + [c], c.device)| == |Feed(init, c.device)| + |c.frames|
  {
    var list := init + [c];
    assert list[..|list| - 1] == init;
    FeedEmpty(init, c.device);
    if Lossless(init) {
      FeedShort(init, c.device);
      LosslessSnoc(init, c);
    }
    forall i | 0 <= i < |init|
      ensures list[i] == init[i]
    {
    }
  }

  lemma SetUpWeightStep(init: seq<DevPcap>, c: DevPcap, w: Packet -> nat)
    ensures WF(SetUp(init)) && WF(SetUp(init + [c]))
    ensures Weight(SetUp(init + [c]), w) ==
            Weight(SetUp(init), w) - SumOf(Feed(init, c.device), w) + SumOf(Feed(init + [c], c.device), w)
  {
    var list := init + [c];
    assert list[..|list| - 1] == init;
    SetUpFeeds(init, c.device);
    SetUpFeeds(list, c.device);
    OpenedWeight(SetUp(init), c, w);
  }

  /** setup counts every frame of every capture, but the merge delivers all of them exactly
      when no device loses a packet to a later capture. */
  lemma {:induction false} LossExact(list: seq<DevPcap>)
    ensures WF(SetUp(list))
    ensures Weight(SetUp(list), One) <= TotalOf(list, One)
    ensures Weight(SetUp(list), One) == TotalOf(list, One) <==> Lossless(list)
    decreases |list|
  {
    if list == [] {
      NothingLeft(SetUp(list), One);
    } else {
      var init, c := list[..|list| - 1], list[|list| - 1];
      assert init + [c] == list;
      LossExact(init);
      SetUpWeightStep(init, c, One);
      SumOfOne(Feed(init, c.device));
      SumOfOne(Feed(list, c.device));
      SumOfOne(IngestAll(c.rawIp, c.frames));
      LossStep(init, c);
    }
  }

  /** The number of successful calls equals total_packets exactly for lossless configurations. */
  lemma MergeCount(list: seq<DevPcap>, rs: seq<Reader>, out: seq<Emission>)
    requires IsFullRun(list, rs, out)
    ensures |out| <= SetUp(list).totalPackets
    ensures |out| == SetUp(list).totalPackets <==> Lossless(list)
  {
    MergeIsInterleaving(list, rs, out);
    LossExact(list);
    SetUpTotals(list);
  }

  /** With one capture per device nothing is lost: every feed is its capture. */
  lemma {:induction false} DistinctFeeds(list: seq<DevPcap>, k: nat)
    requires forall i, j :: 0 <= i < j < |list| ==> list[i].device != list[j].device
    requires k < |list|
    ensures Feed(list, list[k].device) == IngestAll(list[k].rawIp, list[k].frames)
    decreases |list|
  {
    var n := |list| - 1;
    if k < n {
      DistinctFeeds(list[..n], k);
    } else {
      FeedEmpty(list[..n], list[k].device);
    }
  }

  lemma LosslessFeed(init: seq<DevPcap>, c: DevPcap, w: Packet -> nat)
    requires Lossless(init + [c])
    ensures Lossless(init)
    ensures SumOf(Feed(init + [c], c.device), w) ==
            SumOf(Feed(init, c.device), w) + SumOf(IngestAll(c.rawIp, c.frames), w)
  {
    var list := init + [c];
    assert list[..|list| - 1] == init;
    LossStep(init, c);
    FeedEmpty(init, c.device);
    var before := Feed(init, c.device);
    if c.frames == [] && before != [] { assert before == [before[0]]; }
  }

  lemma {:induction false} LosslessWeight(list: seq<DevPcap>, w: Packet -> nat)
    requires Lossless(list)
    ensures WF(SetUp(list)) && Weight(SetUp(list), w) == TotalOf(list, w)
    decreases |list|
  {
    if list == [] {
      NothingLeft(SetUp(list), w);
    } else {
      var init, c := list[..|list| - 1], list[|list| - 1];
      assert init + [c] == list;
      LosslessFeed(init, c, w);
      LosslessWeight(init, w);
      SetUpWeightStep(init, c, w);
    }
  }

  lemma {:induction false} SumOfSame(ps: seq<Packet>, v: Packet -> nat, w: Packet -> nat)
    requires forall i :: 0 <= i < |ps| ==> v(ps[i]) == w(ps[i])
    ensures SumOf(ps, v) == SumOf(ps, w)
    decreases |ps|
  {
    if ps != [] {
      assert forall i :: 0 <= i < |ps| - 1 ==> ps[..|ps| - 1][i] == ps[i];
      SumOfSame(ps[..|ps| - 1], v, w);
    }
  }

  lemma {:induction false} SumOfLengths(ps: seq<Packet>)
    requires forall i :: 0 <= i < |ps| ==> ps[i].len < 0x1_0000_0000 - 4
    ensures SumOf(ps, WireBytes) == SumOf(ps, (p: Packet) => p.len) + 4 * |ps|
    decreases |ps|
  {
    if ps != [] {
      assert forall i :: 0 <= i < |ps| - 1 ==> ps[..|ps| - 1][i] == ps[i];
      SumOfLengths(ps[..|ps| - 1]);
    }
  }

  lemma WireSums(ps: seq<Packet>)
    ensures SumOf(ps, WireBytes) == SumOf(ps, (p: Packet) => (p.len + 4) % 0x1_0000_0000)
    ensures (forall i :: 0 <= i < |ps| ==> ps[i].len < 0x1_0000_0000 - 4) ==>
              SumOf(ps, WireBytes) == SumOf(ps, (p: Packet) => p.len) + 4 * |ps|
  {
    SumOfSame(ps, WireBytes, (p: Packet) => (p.len + 4) % 0x1_0000_0000);
    if forall i :: 0 <= i < |ps| ==> ps[i].len < 0x1_0000_0000 - 4 {
      SumOfLengths(ps);
    }
  }

  lemma MergeWireBytes(list: seq<DevPcap>, rs: seq<Reader>, out: seq<Emission>)
    requires IsFullRun(list, rs, out) && Lossless(list)
    ensures SumOf(Packets(out), WireBytes) == SetUp(list).totalBytes
  {
    RunWeight(rs, out, WireBytes);
    NothingLeft(rs[|out|], WireBytes);
    LosslessWeight(list, WireBytes);
    SetUpTotals(list);
  }

  /** total_bytes is the size on the wire of what the merge delivers: the lengths and four bytes
      of checksum for each packet, each sum reduced to 32 bits. */
  lemma MergeBytes(list: seq<DevPcap>, rs: seq<Reader>, out: seq<Emission>)
    requires IsFullRun(list, rs, out) && Lossless(list)
    ensures SetUp(list).totalBytes == SumOf(Packets(out), (p: Packet) => (p.len + 4) % 0x1_0000_0000)
    ensures (forall i :: 0 <= i < |out| ==> out[i].pkt.len < 0x1_0000_0000 - 4) ==>
              SetUp(list).totalBytes == SumOf(Packets(out), (p: Packet) => p.len) + 4 * |out|
  {
    MergeWireBytes(list, rs, out);
    WireSums(Packets(out));
    assert forall i :: 0 <= i < |out| ==> Packets(out)[i] == out[i].pkt;
  }

  /** For any list of captures, total_bytes counts every frame of every capture once. */
  lemma {:induction false} AllBytes(list: seq<DevPcap>)
    ensures SetUp(list).totalBytes == TotalOf(list, (p: Packet) => (p.len + 4) % 0x1_0000_0000)
    decreases |list|
  {
    if list != [] {
      var c := list[|list| - 1];
      AllBytes(list[..|list| - 1]);
      SumOfSame(IngestAll(c.rawIp, c.frames), WireBytes, (p: Packet) => (p.len + 4) % 0x1_0000_0000);
    }
  }
}
