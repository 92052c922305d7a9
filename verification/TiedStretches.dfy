/**
 Runs of the reader through a stretch of ties: the fairness results of RoundRobin, carried to
 get_next_packet in both directions.
 */
module TiedStretches {
  import opened Basics
  import opened PcapReading
  import opened ReaderRuns
  import opened RoundRobin

  /** T is the set of devices whose pending packets are the earliest, all at time ts. */
  ghost predicate IsTie(r: Reader, T: set<Device>, ts: int) {
    && T != {} && T <= r.pending.Keys
    && forall d :: d in r.pending ==> if d in T then r.pending[d].ts == ts else r.pending[d].ts > ts
  }

  /** Calls during which the pending devices P and the tied ones T stay the same. */
  ghost predicate IsStretch(rs: seq<Reader>, out: seq<Emission>, P: set<Device>, T: set<Device>, ts: int) {
    && IsRun(rs, out)
    && T != {} && T <= P
    && forall i :: 0 <= i < |out| ==> rs[i].pending.Keys == P && IsTie(rs[i], T, ts)
  }

  /** Each call iterates the hash table in the given order. */
  ghost predicate InOrder(order: seq<Device>, rs: seq<Reader>, out: seq<Emission>, ts: int) {
    && |rs| == |out| + 1
    && forall i :: 0 <= i < |out| ==>
         var tied := Tied(rs[i].pending, order, ts);
         tied != [] && out[i].dev == Pick(tied, rs[i].lastDevs)
  }

  ghost predicate IsOrderedStretch(order: seq<Device>, rs: seq<Reader>, out: seq<Emission>,
                                   P: set<Device>, T: set<Device>, ts: int) {
    IsStretch(rs, out, P, T, ts) && Enumerates(order, P) && InOrder(order, rs, out, ts)
  }

  ghost function DevicesOf(out: seq<Emission>): (ds: seq<Device>)
    ensures |ds| == |out|
  {
    seq(|out|, i requires 0 <= i < |out| => out[i].dev)
  }

  /** last_devs as the stretch sees it: a new timestamp clears it on the first call. */
  ghost function Recent(r: Reader, ts: int): set<Device> {
    if r.lastTs == ts then r.lastDevs else {}
  }

  // ---------- one call ----------

  lemma StretchStep(r: Reader, d: Device, p: Packet, r': Reader, T: set<Device>, ts: int)
    requires WF(r) && Next(r, d, p, r') && IsTie(r, T, ts)
    ensures r'.lastTs == ts && TieStep(T, |r.pending.Keys|, Recent(r, ts), d, r'.lastDevs)
  {
    var e :| e in T;
    assert Earliest(r, d) ==> r.pending[d].ts <= r.pending[e].ts;
    assert |r.pending.Keys| == |r.pending|;
    SizePositive(r.pending.Keys);
    if r.lastTs == ts && T - r.lastDevs != {} {
      var f :| f in T - r.lastDevs;
      assert Earliest(r, f) && f !in r.lastDevs;
    }
  }

  /** The order restricted to the tied devices. */
  ghost function Within(order: seq<Device>, T: set<Device>): seq<Device> {
    if order == [] then []
    else
      var n := |order| - 1;
      if order[n] in T then Within(order[..n], T) + [order[n]] else Within(order[..n], T)
  }

  lemma {:induction false} TiedIsWithin(r: Reader, T: set<Device>, ts: int, order: seq<Device>)
    requires IsTie(r, T, ts) && forall d :: d in order ==> d in r.pending
    ensures Tied(r.pending, order, ts) == Within(order, T)
    decreases |order|
  {
    if order != [] {
      var n := |order| - 1;
      assert order == order[..n] + [order[n]];
      TiedIsWithin(r, T, ts, order[..n]);
    }
  }

  lemma {:induction false} WithinSkips(order: seq<Device>, T: set<Device>, d: Device)
    requires d !in order
    ensures Within(order, T - {d}) == Within(order, T)
    decreases |order|
  {
    if order != [] {
      var n := |order| - 1;
      assert order == order[..n] + [order[n]];
      WithinSkips(order[..n], T, d);
    }
  }

  lemma {:induction false} WithinEnumerates(order: seq<Device>, P: set<Device>, T: set<Device>)
    requires Enumerates(order, P) && T <= P
    ensures Enumerates(Within(order, T), T)
    decreases |order|
  {
    if order == [] {
      assert T == {};
    } else {
      var n := |order| - 1;
      var d := order[n];
      assert order == order[..n] + [d];
      assert Enumerates(order[..n], P - {d});
      WithinEnumerates(order[..n], P - {d}, T - {d});
      WithinSkips(order[..n], T, d);
      if d in T {
        EnumeratesSnoc(Within(order[..n], T), T - {d}, d);
        assert T - {d} + {d} == T;
      } else {
        assert T - {d} == T;
      }
    }
  }

  lemma {:induction false} WithinAppend(order: seq<Device>, rest: seq<Device>, T: set<Device>)
    requires (forall d :: d in order ==> d in T) && (forall d :: d in rest ==> d !in T)
    ensures Within(order + rest, T) == order
    decreases |order| + |rest|
  {
    if rest != [] {
      var n := |rest| - 1;
      assert (order + rest)[..|order| + n] == order + rest[..n];
      WithinAppend(order, rest[..n], T);
    } else if order != [] {
      var n := |order| - 1;
      assert order + [] == order && order[..n] + [] == order[..n] && order == order[..n] + [order[n]];
      WithinAppend(order[..n], [], T);
    }
  }

  lemma EnumeratesJoin(order: seq<Device>, s: set<Device>, rest: seq<Device>, t: set<Device>)
    requires Enumerates(order, s) && Enumerates(rest, t) && s !! t
    ensures Enumerates(order + rest, s + t)
  {
    var all := order + rest;
    forall i, j | 0 <= i < j < |all|
      ensures all[i] != all[j]
    {
      if i < |order| <= j {
        assert order[i] in order && rest[j - |order|] in rest;
      }
    }
  }

  /** Some order of the whole hash table shows the tied devices in the given order. */
  lemma OrderAround(P: set<Device>, T: set<Device>, tied: seq<Device>) returns (order: seq<Device>)
    requires T <= P && Enumerates(tied, T)
    ensures Enumerates(order, P) && Within(order, T) == tied
  {
    var rest := Enumeration(P - T);
    order := tied + rest;
    WithinAppend(tied, rest, T);
    EnumeratesJoin(tied, T, rest, P - T);
    assert T + (P - T) == P;
  }

  // ---------- stretches as tie runs ----------

  ghost function RecentOf(rs: seq<Reader>, ts: int): (Ls: seq<set<Device>>)
    ensures |Ls| == |rs|
  {
    seq(|rs|, i requires 0 <= i < |rs| => Recent(rs[i], ts))
  }

  lemma StretchIsTieRun(rs: seq<Reader>, out: seq<Emission>, P: set<Device>, T: set<Device>, ts: int)
    requires IsStretch(rs, out, P, T, ts)
    ensures TieRun(T, |P|, RecentOf(rs, ts), DevicesOf(out))
    ensures forall i :: 0 < i <= |out| ==> rs[i].lastTs == ts
  {
    forall i | 0 <= i < |out|
      ensures TieStep(T, |P|, RecentOf(rs, ts)[i], DevicesOf(out)[i], RecentOf(rs, ts)[i + 1])
    {
      StretchStep(rs[i], out[i].dev, out[i].pkt, rs[i + 1], T, ts);
    }
    forall i | 0 < i <= |out|
      ensures rs[i].lastTs == ts
    {
      StretchStep(rs[i - 1], out[i - 1].dev, out[i - 1].pkt, rs[i], T, ts);
    }
  }

  lemma StretchIsOrderedRun(order: seq<Device>, rs: seq<Reader>, out: seq<Emission>,
                            P: set<Device>, T: set<Device>, ts: int)
    requires IsOrderedStretch(order, rs, out, P, T, ts) && rs[0].lastTs == ts
    ensures OrderedRun(Within(order, T), |P|, RecentOf(rs, ts), DevicesOf(out))
  {
    StretchIsTieRun(rs, out, P, T, ts);
    forall i | 0 <= i < |out|
      ensures OrderedStep(Within(order, T), |P|, RecentOf(rs, ts)[i], DevicesOf(out)[i], RecentOf(rs, ts)[i + 1])
    {
      TiedIsWithin(rs[i], T, ts, order);
      assert TieStep(T, |P|, RecentOf(rs, ts)[i], DevicesOf(out)[i], RecentOf(rs, ts)[i + 1]);
      assert rs[i].lastTs == ts;
    }
  }

  // ---------- fair and starving stretches ----------

  /** From a fair start, each block of calls serves every tied device exactly once. */
  lemma FairStretch(order: seq<Device>, rs: seq<Reader>, out: seq<Emission>,
                    P: set<Device>, T: set<Device>, ts: int)
    requires IsOrderedStretch(order, rs, out, P, T, ts) && FairStart(T, |P|, Recent(rs[0], ts))
    ensures BlocksFair(T, DevicesOf(out))
  {
    var Ls, ds := RecentOf(rs, ts), DevicesOf(out);
    StretchIsTieRun(rs, out, P, T, ts);
    if rs[0].lastTs == ts {
      StretchIsOrderedRun(order, rs, out, P, T, ts);
      WithinEnumerates(order, P, T);
      FairRun(T, |P|, Within(order, T), Ls, ds);
    } else if |T| == 1 {
      OneDevice(T, |P|, Ls, ds);
    } else {
      FairForever(T, Ls, ds);
    }
  }

  /** With all pending devices tied, and last_devs not larger, the blocks are fair from the call
      on that fills last_devs, even if the order of the hash table changes from call to call. */
  lemma FairAfterFilling(rs: seq<Reader>, out: seq<Emission>, P: set<Device>, ts: int)
    requires IsStretch(rs, out, P, P, ts) && |Recent(rs[0], ts)| <= |P| <= |Recent(rs[0], ts)| + |out|
    ensures BlocksFair(P, DevicesOf(out)[|P| - |Recent(rs[0], ts)|..])
  {
    StretchIsTieRun(rs, out, P, P, ts);
    FairOnceFilled(P, RecentOf(rs, ts), DevicesOf(out));
  }

  /** With a pending device that is not tied, or more stale entries than pending devices, every
      call after the first few serves the first tied device of the order. */
  lemma StarvedStretch(order: seq<Device>, rs: seq<Reader>, out: seq<Emission>,
                       P: set<Device>, T: set<Device>, ts: int, i: nat)
    requires IsOrderedStretch(order, rs, out, P, T, ts) && Overlarge(T, |P|, Recent(rs[0], ts))
    requires Debt(T, Recent(rs[0], ts)) <= i < |out|
    ensures Within(order, T) != [] && out[i].dev == Within(order, T)[0]
  {
    var tied := Within(order, T);
    SubsetSize(T, P);
    StretchIsTieRun(rs, out, P, T, ts);
    StuckAt(T, |P|, RecentOf(rs, ts), DevicesOf(out), i);
    assert Stuck(T, |P|, Recent(rs[i], ts));
    assert T <= rs[i].lastDevs;
    WithinEnumerates(order, P, T);
    TiedIsWithin(rs[i], T, ts, order);
    PickFirst(tied, rs[i].lastDevs);
  }

  lemma StarvedTail(order: seq<Device>, rs: seq<Reader>, out: seq<Emission>,
                    P: set<Device>, T: set<Device>, ts: int, n: nat)
    requires IsOrderedStretch(order, rs, out, P, T, ts) && Overlarge(T, |P|, Recent(rs[0], ts))
    requires Debt(T, Recent(rs[0], ts)) <= n
    ensures Within(order, T) != []
    ensures forall i :: n <= i < |out| ==> DevicesOf(out)[i] == Within(order, T)[0]
  {
    WithinEnumerates(order, P, T);
    var t :| t in T;
    assert t in Within(order, T);
    forall i | n <= i < |out|
      ensures DevicesOf(out)[i] == Within(order, T)[0]
    {
      StarvedStretch(order, rs, out, P, T, ts, i);
    }
  }

  lemma StarvedIsUnfair(order: seq<Device>, rs: seq<Reader>, out: seq<Emission>,
                        P: set<Device>, T: set<Device>, ts: int)
    requires IsOrderedStretch(order, rs, out, P, T, ts) && Overlarge(T, |P|, Recent(rs[0], ts))
    requires |T| >= 2 && |out| == 3 * |T|
    ensures !BlocksFair(T, DevicesOf(out))
  {
    DebtBound(T, Recent(rs[0], ts));
    StarvedTail(order, rs, out, P, T, ts, 2 * |T|);
    ThirdBlockUnfair(T, DevicesOf(out), Within(order, T)[0]);
  }

  // ---------- stretches the reader can make ----------

  /** Every tied device has more than n packets left, and the next n + 1 are all at ts. */
  ghost predicate Plenty(r: Reader, T: set<Device>, ts: int, n: nat)
    requires WF(r)
  {
    forall d :: d in T ==> |Remaining(r, d)| > n && forall k :: 0 <= k <= n ==> Remaining(r, d)[k].ts == ts
  }

  lemma PlentyStep(r: Reader, d: Device, p: Packet, r': Reader, T: set<Device>, ts: int, n: nat)
    requires WF(r) && Next(r, d, p, r') && IsTie(r, T, ts) && Plenty(r, T, ts, n + 1)
    ensures WF(r') && r'.pending.Keys == r.pending.Keys && IsTie(r', T, ts) && Plenty(r', T, ts, n)
  {
    NextTakesHead(r, d, p, r');
    StretchStep(r, d, p, r', T, ts);
    assert d in T;
    assert forall k :: 0 <= k <= n ==> Remaining(r', d)[k] == Remaining(r, d)[k + 1];
    assert Remaining(r', d)[0] == r'.pending[d];
    assert Plenty(r', T, ts, n);
  }

  lemma SnocStretch(rs: seq<Reader>, out: seq<Emission>, P: set<Device>, T: set<Device>, ts: int,
                    e: Emission, r: Reader)
    requires IsStretch(rs, out, P, T, ts) && IsRun(rs + [r], out + [e])
    requires rs[|out|].pending.Keys == P && IsTie(rs[|out|], T, ts)
    ensures IsStretch(rs + [r], out + [e], P, T, ts)
  {
    forall i | 0 <= i <= |out|
      ensures (rs + [r])[i].pending.Keys == P && IsTie((rs + [r])[i], T, ts)
    {
      assert (rs + [r])[i] == rs[i];
    }
  }

  lemma SnocInOrder(order: seq<Device>, rs: seq<Reader>, out: seq<Emission>, ts: int, e: Emission, r: Reader)
    requires InOrder(order, rs, out, ts)
    requires var tied := Tied(rs[|out|].pending, order, ts); tied != [] && e.dev == Pick(tied, rs[|out|].lastDevs)
    ensures InOrder(order, rs + [r], out + [e], ts)
  {
    forall i | 0 <= i <= |out|
      ensures var tied := Tied((rs + [r])[i].pending, order, ts);
              tied != [] && (out + [e])[i].dev == Pick(tied, (rs + [r])[i].lastDevs)
    {
      assert (rs + [r])[i] == rs[i];
    }
  }

  lemma StretchSnoc(order: seq<Device>, rs: seq<Reader>, out: seq<Emission>,
                    P: set<Device>, T: set<Device>, ts: int, e: Emission, r: Reader)
    requires IsOrderedStretch(order, rs, out, P, T, ts) && WF(r) && Next(rs[|out|], e.dev, e.pkt, r)
    requires rs[|out|].pending.Keys == P && IsTie(rs[|out|], T, ts)
    requires Tied(rs[|out|].pending, order, ts) != []
    requires e.dev == Pick(Tied(rs[|out|].pending, order, ts), rs[|out|].lastDevs)
    ensures IsOrderedStretch(order, rs + [r], out + [e], P, T, ts)
  {
    RunSnoc(rs, out, e, r);
    SnocStretch(rs, out, P, T, ts, e, r);
    SnocInOrder(order, rs, out, ts, e, r);
  }

  lemma NextInOrder(r: Reader, T: set<Device>, ts: int, order: seq<Device>)
    returns (e: Emission, r': Reader)
    requires WF(r) && IsTie(r, T, ts) && Enumerates(order, r.pending.Keys)
    ensures Next(r, e.dev, e.pkt, r')
    ensures Tied(r.pending, order, ts) != [] && e.dev == Pick(Tied(r.pending, order, ts), r.lastDevs)
  {
    var t :| t in T;
    assert Earliest(r, t) && r.pending[t].ts == ts;
    PickIsEligible(r, order, ts);
    var d := Pick(Tied(r.pending, order, ts), r.lastDevs);
    e, r' := Emission(d, r.pending[d]), Advance(r, d);
  }

  /** As long as packets last, the reader goes through the stretch in any given order. */
  lemma {:induction false} StretchOf(r: Reader, T: set<Device>, ts: int, order: seq<Device>, n: nat, m: nat)
    returns (rs: seq<Reader>, out: seq<Emission>)
    requires WF(r) && IsTie(r, T, ts) && Enumerates(order, r.pending.Keys) && Plenty(r, T, ts, n + m)
    ensures IsOrderedStretch(order, rs, out, r.pending.Keys, T, ts) && rs[0] == r && |out| == n
    ensures rs[n].pending.Keys == r.pending.Keys && IsTie(rs[n], T, ts) && Plenty(rs[n], T, ts, m)
    decreases n
  {
    if n == 0 {
      rs, out := [r], [];
    } else {
      rs, out := StretchOf(r, T, ts, order, n - 1, m + 1);
      var last := rs[n - 1];
      var e, r' := NextInOrder(last, T, ts, order);
      PlentyStep(last, e.dev, e.pkt, r', T, ts, m);
      StretchSnoc(order, rs, out, r.pending.Keys, T, ts, e, r');
      rs, out := rs + [r'], out + [e];
    }
  }

  /** Whatever the order of the hash table, the reader serves the tied devices in fair blocks. */
  ghost predicate ReaderFair(r: Reader, T: set<Device>, ts: int)
    requires T != {}
  {
    forall order, rs, out ::
      IsOrderedStretch(order, rs, out, r.pending.Keys, T, ts) && rs[0] == r ==> BlocksFair(T, DevicesOf(out))
  }

  lemma ReaderUnfair(r: Reader, T: set<Device>, ts: int)
    requires WF(r) && IsTie(r, T, ts) && Plenty(r, T, ts, 3 * |T|)
    requires !FairStart(T, |r.pending.Keys|, Recent(r, ts))
    ensures !ReaderFair(r, T, ts)
  {
    var P := r.pending.Keys;
    SubsetSize(T, P);
    SizePositive(T);
    if Overlarge(T, |P|, Recent(r, ts)) {
      var order := Enumeration(P);
      var rs, out := StretchOf(r, T, ts, order, 3 * |T|, 0);
      StarvedIsUnfair(order, rs, out, P, T, ts);
    } else {
      var tied, Ls, ds := UnfairWitness(T, |P|, Recent(r, ts));
      var order := OrderAround(P, T, tied);
      var rs, out := StretchOf(r, T, ts, order, |ds|, 3 * |T| - |ds|);
      StretchIsOrderedRun(order, rs, out, P, T, ts);
      SameRun(tied, |P|, Ls, ds, RecentOf(rs, ts), DevicesOf(out));
    }
  }

  /** The reader serves tied devices round robin, whatever the order of the hash table, exactly
      when one device is tied, or when every pending device is tied and last_devs is empty or
      out of date, as large as the set of pending devices, or a single stale device. */
  lemma ReaderRoundRobinExact(r: Reader, T: set<Device>, ts: int)
    requires WF(r) && IsTie(r, T, ts) && Plenty(r, T, ts, 3 * |T|)
    ensures ReaderFair(r, T, ts) <==> FairStart(T, |r.pending.Keys|, Recent(r, ts))
  {
    if FairStart(T, |r.pending.Keys|, Recent(r, ts)) {
      forall order, rs, out | IsOrderedStretch(order, rs, out, r.pending.Keys, T, ts) && rs[0] == r
        ensures BlocksFair(T, DevicesOf(out))
      {
        FairStretch(order, rs, out, r.pending.Keys, T, ts);
      }
    } else {
      ReaderUnfair(r, T, ts);
    }
  }

  // ---------- how fairness breaks ----------

  /** When the last device of a cycle ends, it stays in last_devs, which is now larger than the
      set of pending devices: a stretch that goes on at this timestamp is fair only with one
      tied device. */
  lemma EndOfCaptureBreaksFairness(r: Reader, d: Device, p: Packet, r': Reader, T: set<Device>)
    requires WF(r) && Next(r, d, p, r')
    requires r.lastTs == p.ts && d !in r.lastDevs && |r.lastDevs| + 1 == |r.pending|
    requires |Remaining(r, d)| == 1 && T != {} && T <= r'.pending.Keys
    ensures |Recent(r', p.ts)| > |r'.pending.Keys|
    ensures AlwaysFair(T, |r'.pending.Keys|, Recent(r', p.ts)) <==> |T| == 1
  {
    assert r'.pending.Keys == r.pending.Keys - {d};
    assert |r.pending.Keys| == |r.pending|;
    assert r'.lastDevs == r.lastDevs + {d};
    SubsetSize(T, r'.pending.Keys);
    SizePositive(T);
    RoundRobinExact(T, |r'.pending.Keys|, Recent(r', p.ts));
  }

  /** A capture of n packets, all at one time. */
  ghost function Capture(d: Device, ts: nat, n: nat): DevPcap {
    DevPcap(d, false, seq(n, i => Packet([], 60, ts)), false)
  }

  /** Two captures at time 5 and one at time 9. */
  ghost function TwoAndOneLater(n: nat): seq<DevPcap> {
    [Capture(0, 5, n), Capture(1, 5, n), Capture(2, 9, 1)]
  }

  lemma FeedsOfExample(n: nat)
    ensures var list := TwoAndOneLater(n);
            && (forall d: Device :: d < 2 ==> Feed(list, d) == Capture(d, 5, n).frames)
            && Feed(list, 2) == Capture(2, 9, 1).frames
            && (forall d: Device :: d > 2 ==> Feed(list, d) == [])
  {
    var list := TwoAndOneLater(n);
    DistinctFeeds(list, 0);
    DistinctFeeds(list, 1);
    DistinctFeeds(list, 2);
    assert forall k :: 0 <= k < 3 ==> IngestAll(false, list[k].frames) == list[k].frames;
    forall d: Device | d > 2
      ensures Feed(list, d) == []
    {
      FeedEmpty(list, d);
    }
  }

  lemma PendingIsHead(list: seq<DevPcap>, d: Device)
    ensures WF(SetUp(list)) && (d in SetUp(list).pending <==> Feed(list, d) != [])
    ensures Feed(list, d) != [] ==> SetUp(list).pending[d] == Feed(list, d)[0]
  {
    SetUpFeeds(list, d);
  }

  /** The devices tied in the example, and those pending. */
  ghost function ExampleTied(): set<Device> { {0, 1} }

  ghost function ExamplePending(): set<Device> { {0, 1, 2} }

  lemma ExampleTie(n: nat)
    ensures var r := SetUp(TwoAndOneLater(n + 1));
            WF(r) && r.pending.Keys == ExamplePending() && IsTie(r, ExampleTied(), 5) && Plenty(r, ExampleTied(), 5, n)
  {
    var list := TwoAndOneLater(n + 1);
    var r := SetUp(list);
    forall d: Device
      ensures WF(r) && (d in r.pending <==> d in ExamplePending())
      ensures d in r.pending ==> r.pending[d].ts == if d in ExampleTied() then 5 else 9
    {
      FeedsOfExample(n + 1);
      PendingIsHead(list, d);
    }
    assert r.pending.Keys == ExamplePending();
    forall d: Device | d in ExampleTied()
      ensures |Remaining(r, d)| > n && forall k :: 0 <= k <= n ==> Remaining(r, d)[k].ts == 5
    {
      FeedsOfExample(n + 1);
      SetUpFeeds(list, d);
    }
  }

  lemma {:induction false} StartsAtMinusOne(list: seq<DevPcap>)
    ensures SetUp(list).lastTs == -1
    decreases |list|
  {
    if list != [] { StartsAtMinusOne(list[..|list| - 1]); }
  }

  /** A reader just set up with a device pending after the tied ones: after one call for each
      tied device, only the first of them in the order is served. */
  lemma SetUpStarves(list: seq<DevPcap>, T: set<Device>, ts: nat, order: seq<Device>, n: nat)
    returns (rs: seq<Reader>, out: seq<Emission>)
    requires var r := SetUp(list);
             && WF(r) && IsTie(r, T, ts) && Plenty(r, T, ts, n)
             && T < r.pending.Keys && Enumerates(order, r.pending.Keys)
    ensures IsOrderedStretch(order, rs, out, SetUp(list).pending.Keys, T, ts) && rs[0] == SetUp(list) && |out| == n
    ensures Within(order, T) != [] && forall i :: |T| <= i < n ==> DevicesOf(out)[i] == Within(order, T)[0]
  {
    var r := SetUp(list);
    var P := r.pending.Keys;
    rs, out := StretchOf(r, T, ts, order, n, 0);
    StartsAtMinusOne(list);
    SubsetSize(T, P);
    DebtBound(T, {});
    StarvedTail(order, rs, out, P, T, ts, |T|);
  }

  /** No capture has to end: with a third device pending later, the reader set up on these
      captures serves one of the two tied devices only, from the third call on. */
  lemma LaterDeviceStarves(n: nat, order: seq<Device>) returns (rs: seq<Reader>, out: seq<Emission>)
    requires Enumerates(order, ExamplePending())
    ensures IsRun(rs, out) && rs[0] == SetUp(TwoAndOneLater(n + 1)) && |out| == n && InOrder(order, rs, out, 5)
    ensures exists d :: d in ExampleTied() && forall i :: 2 <= i < n ==> out[i].dev == d
  {
    var T := ExampleTied();
    ExampleTie(n);
    assert 2 in ExamplePending() && 2 !in T;
    rs, out := SetUpStarves(TwoAndOneLater(n + 1), T, 5, order, n);
    WithinEnumerates(order, ExamplePending(), T);
    var d := Within(order, T)[0];
    assert d in Within(order, T) && |T| == 2;
    assert forall i :: 2 <= i < n ==> out[i].dev == DevicesOf(out)[i] == d;
  }
}
