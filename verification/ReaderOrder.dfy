/** In which order the merge delivers packets, and what it reports on the way. */
module ReaderOrder {
  import opened Basics
  import opened PcapReading
  import opened ReaderRuns

  ghost predicate Sorted(ps: seq<Packet>) {
    forall i, j :: 0 <= i < j < |ps| ==> ps[i].ts <= ps[j].ts
  }

  /** Nothing delivered so far is later than anything still to come. */
  ghost predicate Ahead(out: seq<Emission>, r: Reader)
    requires WF(r)
  {
    forall i, d: Device, k :: 0 <= i < |out| && 0 <= k < |Remaining(r, d)| ==>
      out[i].pkt.ts <= Remaining(r, d)[k].ts
  }

  /** The packet delivered is no later than anything any device has left. */
  lemma NextIsEarliest(r: Reader, d: Device, p: Packet, r': Reader, e: Device, k: nat)
    requires WF(r) && Next(r, d, p, r') && Sorted(Remaining(r, e)) && k < |Remaining(r, e)|
    ensures p.ts <= Remaining(r, e)[k].ts
  {
    assert Remaining(r, e)[0] == r.pending[e];
  }

  lemma AheadStep(out: seq<Emission>, r: Reader, e: Emission, r': Reader)
    requires WF(r) && WF(r') && Next(r, e.dev, e.pkt, r') && Ahead(out, r)
    requires forall d: Device :: Sorted(Remaining(r, d))
    ensures Ahead(out + [e], r')
    ensures forall d: Device :: Sorted(Remaining(r', d))
    ensures forall i :: 0 <= i < |out| ==> out[i].pkt.ts <= e.pkt.ts
  {
    NextTakesHead(r, e.dev, e.pkt, r');
    assert Remaining(r, e.dev)[0] == e.pkt;
    forall d: Device, k | 0 <= k < |Remaining(r', d)|
      ensures exists k' :: 0 <= k' < |Remaining(r, d)| && Remaining(r, d)[k'] == Remaining(r', d)[k]
    {
      assert Remaining(r, d)[if d == e.dev then k + 1 else k] == Remaining(r', d)[k];
    }
    forall i, d: Device, k | 0 <= i < |out + [e]| && 0 <= k < |Remaining(r', d)|
      ensures (out + [e])[i].pkt.ts <= Remaining(r', d)[k].ts
    {
      var k' :| 0 <= k' < |Remaining(r, d)| && Remaining(r, d)[k'] == Remaining(r', d)[k];
      if i == |out| { NextIsEarliest(r, e.dev, e.pkt, r', d, k'); }
    }
    forall d: Device
      ensures Sorted(Remaining(r', d))
    {
      if d == e.dev {
        assert Remaining(r', d) == Remaining(r, d)[1..];
      }
    }
  }

  lemma {:induction false} RunSorted(rs: seq<Reader>, out: seq<Emission>)
    requires IsRun(rs, out)
    requires forall d: Device :: Sorted(Remaining(rs[0], d))
    ensures Sorted(Packets(out)) && Ahead(out, rs[|out|])
    ensures forall d: Device :: Sorted(Remaining(rs[|out|], d))
    decreases |out|
  {
    if out != [] {
      var n := |out| - 1;
      RunPrefix(rs, out, n);
      RunSorted(rs[..n + 1], out[..n]);
      assert out[..n] + [out[n]] == out;
      AheadStep(out[..n], rs[n], out[n], rs[n + 1]);
      assert Packets(out) == Packets(out[..n]) + [out[n].pkt];
    }
  }

  lemma {:induction false} ProjFrom(out: seq<Emission>, d: Device, k: nat)
    requires k < |Proj(out, d)|
    ensures exists i :: 0 <= i < |out| && out[i].pkt == Proj(out, d)[k]
    decreases |out|
  {
    var n := |out| - 1;
    if k < |Proj(out[..n], d)| {
      ProjFrom(out[..n], d, k);
      var i :| 0 <= i < n && out[..n][i].pkt == Proj(out, d)[k];
      assert out[i].pkt == Proj(out, d)[k];
    } else {
      assert out[n].pkt == Proj(out, d)[k];
    }
  }

  lemma {:induction false} ProjSorted(out: seq<Emission>, d: Device)
    requires Sorted(Packets(out))
    ensures Sorted(Proj(out, d))
    decreases |out|
  {
    if out != [] {
      var n := |out| - 1;
      assert Packets(out[..n]) == Packets(out)[..n];
      ProjSorted(out[..n], d);
      forall k | 0 <= k < |Proj(out[..n], d)|
        ensures Proj(out[..n], d)[k].ts <= out[n].pkt.ts
      {
        ProjFrom(out[..n], d, k);
        var i :| 0 <= i < n && out[..n][i].pkt == Proj(out[..n], d)[k];
        assert Packets(out)[i] == out[i].pkt;
        assert Packets(out)[n] == out[n].pkt;
      }
    }
  }

  ghost predicate FeedsSorted(list: seq<DevPcap>) {
    forall d: Device :: Sorted(Feed(list, d))
  }

  lemma FeedsSortedThenMerged(list: seq<DevPcap>, rs: seq<Reader>, out: seq<Emission>)
    requires IsFullRun(list, rs, out)
    requires FeedsSorted(list)
    ensures Sorted(Packets(out))
  {
    forall d: Device
      ensures Sorted(Remaining(rs[0], d))
    {
      SetUpFeeds(list, d);
    }
    RunSorted(rs, out);
  }

  lemma MergedSortedThenFeed(list: seq<DevPcap>, rs: seq<Reader>, out: seq<Emission>, d: Device)
    requires IsFullRun(list, rs, out) && Sorted(Packets(out))
    ensures Sorted(Feed(list, d))
  {
    MergeIsInterleaving(list, rs, out);
    ProjSorted(out, d);
  }

  /** The merged stream is in timestamp order exactly when every device's feed is. */
  lemma MergeSorted(list: seq<DevPcap>, rs: seq<Reader>, out: seq<Emission>)
    requires IsFullRun(list, rs, out)
    ensures Sorted(Packets(out)) <==> FeedsSorted(list)
  {
    if Sorted(Packets(out)) {
      forall d: Device
        ensures Sorted(Feed(list, d))
      {
        MergedSortedThenFeed(list, rs, out, d);
      }
      assert FeedsSorted(list);
    } else if FeedsSorted(list) {
      FeedsSortedThenMerged(list, rs, out);
    }
  }

  // ---------- progress reports ----------

  ghost function Percent(n: nat, total: nat): int
    requires total > 0
  {
    100 * n / total
  }

  lemma DivBetween(a: nat, c: nat)
    requires c > 0
    ensures a / c * c <= a < (a / c + 1) * c
  {
  }

  lemma MulCancel(x: int, y: int, c: nat)
    requires c > 0
    ensures x * c < y * c ==> x < y
  {
    if x >= y { assert (x - y) * c >= 0; }
  }

  lemma PercentFacts(n: nat, total: nat)
    requires 0 < total && n < total
    ensures 0 <= Percent(n, total) <= Percent(n + 1, total) <= 100
    ensures Percent(n, total) < 100
    ensures Percent(total, total) == 100
  {
    DivBetween(100 * n, total);
    DivBetween(100 * (n + 1), total);
    DivBetween(100 * total, total);
    var p, q, r := Percent(n, total), Percent(n + 1, total), Percent(total, total);
    MulCancel(p, q + 1, total);
    MulCancel(q, r + 1, total);
    MulCancel(p, 100, total);
    MulCancel(r, 101, total);
    MulCancel(99, r, total);
    MulCancel(-1, p, total);
  }

  /** k of `total` packets are v percent, rounded down. */
  ghost predicate RoundsTo(k: nat, total: nat, v: int) {
    v * total <= 100 * k < (v + 1) * total
  }

  lemma PercentIs(k: nat, total: nat, v: int)
    requires total > 0
    ensures Percent(k, total) == v <==> RoundsTo(k, total, v)
  {
    var p := Percent(k, total);
    DivBetween(100 * k, total);
    MulCancel(v, p + 1, total);
    MulCancel(p, v + 1, total);
  }

  /** One of the first n packets brings the percentage, rounded down, to v. */
  ghost predicate Reached(v: int, n: nat, total: nat)
    requires total > 0
  {
    exists k :: 1 <= k <= n && RoundsTo(k, total, v)
  }

  lemma ReachedStep(v: int, n: nat, total: nat)
    requires total > 0
    ensures Reached(v, n + 1, total) <==> Reached(v, n, total) || Percent(n + 1, total) == v
  {
    PercentIs(n + 1, total, v);
    if k :| 1 <= k <= n + 1 && RoundsTo(k, total, v) { assert k == n + 1 || 1 <= k <= n; }
    if RoundsTo(n + 1, total, v) { assert Reached(v, n + 1, total); }
  }

  /** The percentages printed after n of `total` packets. */
  ghost predicate Reported(r: Reader, n: nat) {
    && r.processed == n
    && r.totalPackets > 0
    && r.lastPercentage == (if n == 0 then -1 else Percent(n, r.totalPackets))
    && (r.printed == [] <==> n == 0)
    && (r.printed != [] ==> r.printed[|r.printed| - 1] == r.lastPercentage)
    && (forall i, j :: 0 <= i < j < |r.printed| ==> r.printed[i] < r.printed[j])
    && (forall i :: 0 <= i < |r.printed| ==> 0 <= r.printed[i] <= 100)
    && (forall v :: v in r.printed <==> Reached(v, n, r.totalPackets))
  }

  lemma ReportStep(r: Reader, d: Device, p: Packet, r': Reader, n: nat)
    requires WF(r) && Next(r, d, p, r') && Reported(r, n) && n < r.totalPackets
    ensures Reported(r', n + 1)
  {
    PercentFacts(n, r.totalPackets);
    assert r'.processed == n + 1 && r'.totalPackets == r.totalPackets;
    forall v: int
      ensures v in r'.printed <==> Reached(v, n + 1, r.totalPackets)
    {
      ReachedStep(v, n, r.totalPackets);
      if n > 0 { assert Percent(n, r.totalPackets) in r.printed; }
    }
  }

  lemma {:induction false} RunReports(rs: seq<Reader>, out: seq<Emission>)
    requires IsRun(rs, out) && |out| <= rs[0].totalPackets && Reported(rs[0], 0)
    ensures Reported(rs[|out|], |out|) && rs[|out|].totalPackets == rs[0].totalPackets
    decreases |out|
  {
    if out != [] {
      var n := |out| - 1;
      RunPrefix(rs, out, n);
      RunReports(rs[..n + 1], out[..n]);
      ReportStep(rs[n], out[n].dev, out[n].pkt, rs[n + 1], n);
      RunProjection(rs, out, 0);
    }
  }

  lemma ReportedAt(list: seq<DevPcap>, rs: seq<Reader>, out: seq<Emission>, n: nat)
    requires IsFullRun(list, rs, out) && out != [] && n <= |out|
    ensures Reported(rs[n], n) && rs[n].totalPackets == SetUp(list).totalPackets
  {
    MergeCount(list, rs, out);
    SetUpTotals(list);
    RunPrefix(rs, out, n);
    RunReports(rs[..n + 1], out[..n]);
  }

  /** 100 has been printed exactly when all packets counted by setup have been delivered. */
  lemma HundredIsLast(r: Reader, n: nat)
    requires Reported(r, n) && n <= r.totalPackets
    ensures 100 in r.printed <==> n == r.totalPackets
  {
    var k := |r.printed| - 1;
    PercentFacts(if n == r.totalPackets then 0 else n, r.totalPackets);
    assert forall i :: 0 <= i < k ==> r.printed[i] < r.printed[k];
    if n == r.totalPackets { assert r.printed[k] == 100; }
  }

  /** The printed percentages strictly increase within 0..100; and 100 is printed (once, by
      the last packet) exactly when no packet was lost in setup. */
  lemma ProgressReports(list: seq<DevPcap>, rs: seq<Reader>, out: seq<Emission>)
    requires IsFullRun(list, rs, out) && out != []
    ensures forall n :: 0 <= n <= |out| ==> Reported(rs[n], n)
    ensures forall n :: 0 <= n < |out| ==> 100 !in rs[n].printed
    ensures 100 in rs[|out|].printed <==> Lossless(list)
  {
    MergeCount(list, rs, out);
    var total := SetUp(list).totalPackets;
    forall n | 0 <= n <= |out|
      ensures Reported(rs[n], n)
      ensures 100 in rs[n].printed <==> n == total
    {
      ReportedAt(list, rs, out, n);
      HundredIsLast(rs[n], n);
    }
  }

  /** A percentage is printed exactly if one of the packets delivered brings the share of
      total_packets, rounded down, to it. */
  lemma PrintedExactly(list: seq<DevPcap>, rs: seq<Reader>, out: seq<Emission>, v: int)
    requires IsFullRun(list, rs, out) && out != []
    ensures var total := SetUp(list).totalPackets;
            v in rs[|out|].printed <==> exists k :: 1 <= k <= |out| && RoundsTo(k, total, v)
  {
    ReportedAt(list, rs, out, |out|);
  }
}
