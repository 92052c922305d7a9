/**
 The k-way merge of per-device captures (synthesized/echo-profiler.cpp, class PcapReader).

 `Reader` is the value of the reader's fields.  `Next` is one successful call of
 get_next_packet, as a relation: the hash table of pending packets is iterated in an
 unspecified order, so several devices may be eligible.
 */
module PcapReading {
  import opened Basics

  type Device = d: nat | d < 0x1_0000

  /** A captured frame, or a packet handed to the network function. The record header
      carries unsigned seconds and microseconds, hence a natural timestamp. */
  datatype Packet = Packet(data: seq<Byte>, len: U32, ts: nat)

  /** One configured capture: the device it replays on and the frames of its file. */
  datatype DevPcap = DevPcap(device: Device, rawIp: bool, frames: seq<Packet>, warmup: bool)

  const CRC_SIZE_BYTES := 4
  const ETHER_HEADER: seq<Byte> :=
    [0x90, 0xe2, 0xba, 0x8e, 0x4f, 0x6d, 0x90, 0xe2, 0xba, 0x8e, 0x4f, 0x6c, 0x08, 0x00]

  /** A frame as `read` delivers it: raw IP captures get an Ethernet header in front. */
  function Ingest(rawIp: bool, f: Packet): Packet {
    if rawIp then Packet(ETHER_HEADER + f.data, (f.len + 14) % 0x1_0000_0000, f.ts) else f
  }

  function IngestAll(rawIp: bool, fs: seq<Packet>): (ps: seq<Packet>)
    ensures |ps| == |fs|
  {
    seq(|fs|, i requires 0 <= i < |fs| => Ingest(rawIp, fs[i]))
  }

  /** What a packet adds to total_bytes, in 32-bit unsigned arithmetic. */
  function WireBytes(p: Packet): (n: nat)
    ensures n < 0x1_0000_0000 && (n == p.len + 4 || n == p.len + 4 - 0x1_0000_0000)
  {
    (p.len + CRC_SIZE_BYTES) % 0x1_0000_0000
  }

  /** The total weight of some packets; WireBytes and One are the weights used. */
  ghost function SumOf(ps: seq<Packet>, w: Packet -> nat): nat {
    if ps == [] then 0 else SumOf(ps[..|ps| - 1], w) + w(ps[|ps| - 1])
  }

  datatype Reader = Reader(
    pcaps: map<Device, seq<Packet>>,   // frames of each open capture file
    assumeIp: map<Device, bool>,
    pos: map<Device, nat>,             // file position, in frames
    pending: map<Device, Packet>,
    lastTs: int,
    lastDevs: set<Device>,
    totalPackets: nat,
    totalBytes: nat,
    processed: nat,
    lastPercentage: int,
    printed: seq<int>)                 // percentages shown on the terminal

  ghost predicate WF(r: Reader) {
    && r.assumeIp.Keys == r.pcaps.Keys
    && r.pos.Keys == r.pcaps.Keys
    && r.pending.Keys <= r.pcaps.Keys
    && (forall d :: d in r.pos ==> r.pos[d] <= |r.pcaps[d]|)
    && (r.pending.Keys != {} ==> r.totalPackets > 0)
  }

  /** The packets device d has still to deliver. */
  ghost function Remaining(r: Reader, d: Device): seq<Packet>
    requires WF(r)
  {
    if d in r.pending
    then [r.pending[d]] + IngestAll(r.assumeIp[d], r.pcaps[d])[r.pos[d]..]
    else []
  }

  ghost function Progressed(r: Reader): Reader
    requires r.totalPackets > 0
  {
    var n := r.processed + 1;
    var progress := 100 * n / r.totalPackets;
    var quiet := progress <= r.lastPercentage;
    r.(processed := n,
       lastPercentage := if quiet then r.lastPercentage else progress,
       printed := r.printed + if quiet then [] else [progress])
  }

  ghost predicate Earliest(r: Reader, d: Device) {
    d in r.pending && forall e :: e in r.pending ==> r.pending[d].ts <= r.pending[e].ts
  }

  /** Device d may be served next: earliest, and not served recently if that can be avoided. */
  ghost predicate Eligible(r: Reader, d: Device) {
    && Earliest(r, d)
    && ((exists e :: Earliest(r, e) && e !in r.lastDevs) ==> d !in r.lastDevs)
  }

  /** The order lists the devices of s, each once. */
  ghost predicate Enumerates(order: seq<Device>, s: set<Device>) {
    && (forall d :: d in order <==> d in s)
    && (forall i, j :: 0 <= i < j < |order| ==> order[i] != order[j])
  }

  /** The devices of the order whose pending packet has timestamp ts. */
  ghost function Tied(pending: map<Device, Packet>, order: seq<Device>, ts: int): seq<Device> {
    if order == [] then []
    else
      var n := |order| - 1;
      var before := Tied(pending, order[..n], ts);
      if order[n] in pending && pending[order[n]].ts == ts then before + [order[n]] else before
  }

  /** What the choosing loop ends with on some tied devices: the last one outside `recent`, or
      else the first one. */
  ghost function Pick(tied: seq<Device>, recent: set<Device>): Device
    requires tied != []
  {
    var n := |tied| - 1;
    if n == 0 || tied[n] !in recent then tied[n] else Pick(tied[..n], recent)
  }

  ghost function Served(r: Reader, d: Device): Reader
    requires d in r.pending
  {
    var ts := r.pending[d].ts;
    var clear := r.lastTs != ts || |r.lastDevs| == |r.pending|;
    r.(lastTs := ts, lastDevs := (if clear then {} else r.lastDevs) + {d})
  }

  /** The next frame of d becomes pending; at the end of the file d drops out and is rewound. */
  ghost function Refill(r: Reader, d: Device): Reader
    requires d in r.pcaps && d in r.pos && d in r.assumeIp
  {
    var more := r.pos[d] < |r.pcaps[d]|;
    r.(pos := r.pos[d := if more then r.pos[d] + 1 else 0],
       pending := if more then r.pending[d := Ingest(r.assumeIp[d], r.pcaps[d][r.pos[d]])]
                  else r.pending - {d})
  }

  ghost function Advance(r: Reader, d: Device): Reader
    requires WF(r) && d in r.pending
  {
    Refill(Progressed(Served(r, d)), d)
  }

  /** One call of get_next_packet that returns true with device d and packet p. */
  ghost predicate Next(r: Reader, d: Device, p: Packet, r': Reader)
    requires WF(r)
  {
    Eligible(r, d) && p == r.pending[d] && r' == Advance(r, d)
  }

  /** One iteration of setup's loop: open a capture and run the counting pass over it.
      A capture already open on the same device is replaced. */
  ghost function Counted(r: Reader, c: DevPcap): Reader {
    r.(assumeIp := r.assumeIp[c.device := c.rawIp],
       pcaps := r.pcaps[c.device := c.frames],
       pos := r.pos[c.device := 0],
       totalPackets := r.totalPackets + |c.frames|,
       totalBytes := r.totalBytes + SumOf(IngestAll(c.rawIp, c.frames), WireBytes))
  }

  /** The end of that iteration: an empty capture leaves an older pending packet in place. */
  ghost function FirstFetched(r: Reader, d: Device): Reader
    requires d in r.pcaps && d in r.pos && d in r.assumeIp
  {
    var more := r.pos[d] < |r.pcaps[d]|;
    r.(pos := r.pos[d := if more then r.pos[d] + 1 else 0],
       pending := if more then r.pending[d := Ingest(r.assumeIp[d], r.pcaps[d][r.pos[d]])]
                  else r.pending)
  }

  ghost function Opened(r: Reader, c: DevPcap): Reader {
    FirstFetched(Counted(r, c), c.device)
  }

  ghost function SetUp(list: seq<DevPcap>): Reader {
    if list == [] then Reader(map[], map[], map[], map[], -1, {}, 0, 0, 0, -1, [])
    else Opened(SetUp(list[..|list| - 1]), list[|list| - 1])
  }

  lemma EnumeratesSnoc(order: seq<Device>, s: set<Device>, d: Device)
    requires Enumerates(order, s) && d !in s
    ensures Enumerates(order + [d], s + {d})
  {
  }

  lemma PickSnoc(tied: seq<Device>, d: Device, recent: set<Device>)
    ensures Pick(tied + [d], recent) == if tied == [] || d !in recent then d else Pick(tied, recent)
  {
    assert (tied + [d])[..|tied|] == tied;
  }

  lemma {:induction false} TiedMembers(pending: map<Device, Packet>, order: seq<Device>, ts: int)
    ensures forall d :: d in Tied(pending, order, ts) <==> d in order && d in pending && pending[d].ts == ts
    decreases |order|
  {
    if order != [] {
      var n := |order| - 1;
      TiedMembers(pending, order[..n], ts);
      assert order == order[..n] + [order[n]];
    }
  }

  lemma {:induction false} PickMember(tied: seq<Device>, recent: set<Device>)
    requires tied != []
    ensures Pick(tied, recent) in tied
    ensures Pick(tied, recent) in recent ==> Pick(tied, recent) == tied[0] && forall d :: d in tied ==> d in recent
    decreases |tied|
  {
    var n := |tied| - 1;
    assert tied == tied[..n] + [tied[n]];
    if n > 0 && tied[n] in recent { PickMember(tied[..n], recent); }
  }

  lemma PickIsEligible(r: Reader, order: seq<Device>, ts: int)
    requires Enumerates(order, r.pending.Keys)
    requires exists d :: Earliest(r, d) && r.pending[d].ts == ts
    ensures var tied := Tied(r.pending, order, ts);
            && tied != [] && Eligible(r, Pick(tied, r.lastDevs))
            && r.pending[Pick(tied, r.lastDevs)].ts == ts
  {
    var tied := Tied(r.pending, order, ts);
    TiedMembers(r.pending, order, ts);
    var d :| Earliest(r, d) && r.pending[d].ts == ts;
    assert d in order && d in tied;
    PickMember(tied, r.lastDevs);
    assert forall e :: Earliest(r, e) ==> e in order && e in tied;
  }

  class PcapReader {
    var pcaps: map<Device, seq<Packet>>
    var assumeIp: map<Device, bool>
    var pos: map<Device, nat>
    var pending: map<Device, Packet>
    var lastTs: int
    var lastDevs: set<Device>
    var totalPackets: nat
    var totalBytes: nat
    var processed: nat
    var lastPercentage: int
    var printed: seq<int>

    ghost function View(): Reader
      reads this
    {
      Reader(pcaps, assumeIp, pos, pending, lastTs, lastDevs, totalPackets, totalBytes,
             processed, lastPercentage, printed)
    }

    constructor ()
      ensures WF(View()) && pcaps == map[] && pending == map[] && lastDevs == {} && printed == []
    {
      pcaps, assumeIp, pos, pending, lastDevs, printed := map[], map[], map[], map[], {}, [];
      lastTs, totalPackets, totalBytes, processed, lastPercentage := -1, 0, 0, 0, -1;
    }

    method Rewind(dev: Device)
      requires dev in pcaps && dev in pos
      modifies this`pos
      ensures pos == old(pos)[dev := 0]
    {
      pos := pos[dev := 0];
    }

    method Read(dev: Device) returns (ok: bool, pkt: Packet)
      requires dev in pcaps && dev in pos && dev in assumeIp
      modifies this`pos
      ensures ok == (old(pos[dev]) < |pcaps[dev]|)
      ensures ok ==> pkt == Ingest(assumeIp[dev], pcaps[dev][old(pos[dev])])
      ensures pos == old(pos)[dev := if ok then old(pos[dev]) + 1 else 0]
    {
      if pos[dev] >= |pcaps[dev]| {
        Rewind(dev);
        return false, Packet([], 0, 0);
      }
      pkt := pcaps[dev][pos[dev]];
      if assumeIp[dev] {
        pkt := Packet(ETHER_HEADER + pkt.data, (pkt.len + 14) % 0x1_0000_0000, pkt.ts);
      }
      pos := pos[dev := pos[dev] + 1];
      ok := true;
    }

    /** The counting pass: afterwards the file is back at its first frame. */
    method AccumulateStats(dev: Device)
      requires dev in pcaps && dev in pos && dev in assumeIp && pos[dev] == 0
      modifies this`pos, this`totalPackets, this`totalBytes
      ensures pos == old(pos)
      ensures totalPackets == old(totalPackets) + |pcaps[dev]|
      ensures totalBytes == old(totalBytes) + SumOf(IngestAll(assumeIp[dev], pcaps[dev]), WireBytes)
    {
      ghost var all := IngestAll(assumeIp[dev], pcaps[dev]);
      ghost var n := 0;
      var more, pkt := Read(dev);
      while more
        invariant dev in pcaps && dev in pos && dev in assumeIp
        invariant 0 <= n <= |all|
        invariant more ==> n < |all| && pkt == all[n] && pos[dev] == n + 1
        invariant !more ==> n == |all| && pos[dev] == 0
        invariant pos == old(pos)[dev := pos[dev]]
        invariant totalPackets == old(totalPackets) + n
        invariant totalBytes == old(totalBytes) + SumOf(all[..n], WireBytes)
        decreases |all| - n, more
      {
        totalPackets := totalPackets + 1;
        totalBytes := totalBytes + (pkt.len + CRC_SIZE_BYTES) % 0x1_0000_0000;
        assert all[..n + 1][..n] == all[..n];
        n := n + 1;
        more, pkt := Read(dev);
      }
      assert all[..n] == all;
      assert old(pos)[dev := 0] == old(pos);
    }

    method UpdateAndShowProgress()
      requires totalPackets > 0
      modifies this`processed, this`lastPercentage, this`printed
      ensures View() == Progressed(old(View()))
    {
      processed := processed + 1;
      var progress := 100 * processed / totalPackets;
      if progress <= lastPercentage {
        return;
      }
      lastPercentage := progress;
      printed := printed + [progress];
    }

    /** The order in which the hash table of pending packets is iterated: any order. */
    method IterationOrder() returns (order: seq<Device>)
      ensures Enumerates(order, pending.Keys)
    {
      order := [];
      var todo := pending.Keys;
      while todo != {}
        invariant todo <= pending.Keys && Enumerates(order, pending.Keys - todo)
        decreases |todo|
      {
        var d :| d in todo;
        EnumeratesSnoc(order, pending.Keys - todo, d);
        assert pending.Keys - (todo - {d}) == pending.Keys - todo + {d};
        order, todo := order + [d], todo - {d};
      }
    }

    /** The first loop of get_next_packet: the smallest pending timestamp, or -1. */
    method EarliestTs(order: seq<Device>) returns (ts: int)
      requires Enumerates(order, pending.Keys)
      ensures pending == map[] ==> ts == -1
      ensures pending != map[] ==> exists d :: Earliest(View(), d) && pending[d].ts == ts
    {
      ts := -1;
      ghost var best: Device := 0;
      for i := 0 to |order|
        invariant ts == -1 <==> i == 0
        invariant ts != -1 ==> best in pending && pending[best].ts == ts
        invariant forall k :: 0 <= k < i ==> order[k] in pending && ts <= pending[order[k]].ts
      {
        var d := order[i];
        assert d in pending;
        if ts == -1 || pending[d].ts < ts {
          ts := pending[d].ts;
          best := d;
        }
      }
      assert pending != map[] ==> exists d :: d in order;
      assert ts != -1 ==> Earliest(View(), best);
    }

    /** The second loop: the last tied device outside last_devs, else the first tied one. */
    method Choose(order: seq<Device>, ts: int) returns (dev: Device, pkt: Packet)
      requires Enumerates(order, pending.Keys)
      requires exists d :: Earliest(View(), d) && pending[d].ts == ts
      ensures Tied(pending, order, ts) != [] && dev == Pick(Tied(pending, order, ts), lastDevs)
      ensures Eligible(View(), dev) && pkt == pending[dev] && pkt.ts == ts
    {
      var chosen := false;
      dev, pkt := 0, Packet([], 0, 0);
      for i := 0 to |order|
        invariant chosen <==> Tied(pending, order[..i], ts) != []
        invariant chosen ==> dev == Pick(Tied(pending, order[..i], ts), lastDevs)
        invariant chosen ==> dev in pending && pkt == pending[dev]
      {
        var d := order[i];
        assert d in pending && order[..i + 1][..i] == order[..i];
        if pending[d].ts != ts {
          continue;
        }
        PickSnoc(Tied(pending, order[..i], ts), d, lastDevs);
        if chosen && d in lastDevs {
          continue;
        }
        dev, pkt := d, pending[d];
        chosen := true;
      }
      assert order[..|order|] == order;
      PickIsEligible(View(), order, ts);
    }

    method MarkServed(dev: Device, ts: int)
      requires dev in pending && ts == pending[dev].ts
      modifies this`lastTs, this`lastDevs
      ensures View() == Served(old(View()), dev)
    {
      if lastTs != ts || |lastDevs| == |pending| {
        lastDevs := {};
      }
      lastTs := ts;
      lastDevs := lastDevs + {dev};
    }

    method FetchNext(dev: Device)
      requires dev in pcaps && dev in pos && dev in assumeIp
      modifies this`pos, this`pending
      ensures View() == Refill(old(View()), dev)
    {
      var more, newPkt := Read(dev);
      if more {
        pending := pending[dev := newPkt];
      } else {
        pending := pending - {dev};
      }
    }

    method GetNextPacket() returns (ok: bool, dev: Device, pkt: Packet)
      requires WF(View())
      modifies this
      ensures !ok ==> View() == old(View()) && pending == map[]
      ensures ok ==> Next(old(View()), dev, pkt, View())
    {
      dev, pkt := 0, Packet([], 0, 0);
      var order := IterationOrder();
      var ts := EarliestTs(order);
      if ts == -1 {
        return false, dev, pkt;
      }
      dev, pkt := Choose(order, ts);
      ghost var r := View();
      MarkServed(dev, ts);
      UpdateAndShowProgress();
      FetchNext(dev);
      assert View() == Advance(r, dev);
      ok := true;
    }

    method OpenFile(c: DevPcap)
      modifies this
      ensures View() == Counted(old(View()), c)
    {
      assumeIp := assumeIp[c.device := c.rawIp];
      pcaps := pcaps[c.device := c.frames];
      pos := pos[c.device := 0];
      AccumulateStats(c.device);
    }

    method FetchFirst(dev: Device)
      requires dev in pcaps && dev in pos && dev in assumeIp
      modifies this`pos, this`pending
      ensures View() == FirstFetched(old(View()), dev)
    {
      var more, pkt := Read(dev);
      if more {
        pending := pending[dev := pkt];
      }
    }

    method Open(c: DevPcap)
      modifies this
      ensures View() == Opened(old(View()), c)
    {
      OpenFile(c);
      FetchFirst(c.device);
    }

    method Setup(list: seq<DevPcap>)
      requires WF(View()) && pcaps == map[] && pending == map[] && lastDevs == {} && printed == []
      modifies this
      ensures View() == SetUp(list)
    {
      lastTs := -1;
      totalPackets := 0;
      totalBytes := 0;
      processed := 0;
      lastPercentage := -1;
      assert View() == SetUp(list[..0]);
      for i := 0 to |list|
        invariant View() == SetUp(list[..i])
      {
        assert list[..i + 1][..i] == list[..i];
        Open(list[i]);
      }
      assert list[..|list|] == list;
    }
  }

  // ---------- the choice ----------

  lemma {:induction false} Enumeration(s: set<Device>) returns (order: seq<Device>)
    ensures Enumerates(order, s)
    decreases |s|
  {
    if s == {} { return []; }
    var d :| d in s;
    order := Enumeration(s - {d});
    EnumeratesSnoc(order, s - {d}, d);
    assert s - {d} + {d} == s;
    order := order + [d];
  }

  lemma {:induction false} TiedFirst(pending: map<Device, Packet>, d: Device, rest: seq<Device>, ts: int)
    requires d in pending && pending[d].ts == ts
    ensures Tied(pending, [d] + rest, ts) != [] && Tied(pending, [d] + rest, ts)[0] == d
    decreases |rest|
  {
    var order := [d] + rest;
    if rest != [] {
      TiedFirst(pending, d, rest[..|rest| - 1], ts);
      assert order[..|rest|] == [d] + rest[..|rest| - 1];
    }
  }

  lemma OrderFor(r: Reader, d: Device, ts: int) returns (order: seq<Device>)
    requires Eligible(r, d) && r.pending[d].ts == ts
    ensures Enumerates(order, r.pending.Keys) && Tied(r.pending, order, ts) != []
    ensures d == Pick(Tied(r.pending, order, ts), r.lastDevs)
  {
    var rest := Enumeration(r.pending.Keys - {d});
    if d !in r.lastDevs {
      order := rest + [d];
      assert order[..|rest|] == rest;
    } else {
      order := [d] + rest;
      TiedFirst(r.pending, d, rest, ts);
      TiedMembers(r.pending, order, ts);
      PickMember(Tied(r.pending, order, ts), r.lastDevs);
      forall e | e in Tied(r.pending, order, ts)
        ensures e in r.lastDevs
      {
        assert Earliest(r, e);
      }
    }
  }

  /** Over all iteration orders of the hash table, the choosing loop ends with exactly the
      eligible devices. */
  lemma EligibleExact(r: Reader, d: Device, ts: int)
    requires exists e :: Earliest(r, e) && r.pending[e].ts == ts
    ensures Eligible(r, d) <==>
            exists order :: && Enumerates(order, r.pending.Keys) && Tied(r.pending, order, ts) != []
                            && d == Pick(Tied(r.pending, order, ts), r.lastDevs)
  {
    if Eligible(r, d) {
      var order := OrderFor(r, d, ts);
    }
    forall order | Enumerates(order, r.pending.Keys)
      ensures Tied(r.pending, order, ts) != [] && Eligible(r, Pick(Tied(r.pending, order, ts), r.lastDevs))
    {
      PickIsEligible(r, order, ts);
    }
  }

  lemma OpenedIsWF(r: Reader, c: DevPcap)
    requires WF(r)
    ensures WF(Opened(r, c))
  {
  }
}
