/**
 The DPDK forwarding loop (dpdk-nfs/nf.c, worker_loop without KLEE_VERIFICATION): receive a
 burst from each device, sort the packets into per-port batches, transmit the batches.

 Hardware and network function are inputs: which buffers a poll receives, which output each is
 given, and how many packets each port accepts. What happens to a buffer is logged.
 */
module Forwarding {

  type Mbuf = nat

  const DROP: nat := 65535
  const BATCH_SIZE: nat := 32

  /** One poll of one device: buffers received, the output chosen for each, and the room each
      port has for transmission. */
  datatype Burst = Burst(mbufs: seq<Mbuf>, dsts: seq<nat>, room: seq<nat>)

  /** What the loop needs of its environment: bursts fit the receive array, outputs are DROP or
      existing ports, and a buffer is not received twice at once. */
  ghost predicate ValidBurst(b: Burst, devices: nat) {
    && |b.mbufs| == |b.dsts| <= BATCH_SIZE
    && |b.room| == devices <= DROP
    && (forall i :: 0 <= i < |b.dsts| ==> b.dsts[i] == DROP || b.dsts[i] < devices)
    && (forall i, j :: 0 <= i < j < |b.mbufs| ==> b.mbufs[i] != b.mbufs[j])
  }

  ghost predicate AllValid(bs: seq<Burst>, devices: nat) {
    forall i {:trigger bs[i]} :: 0 <= i < |bs| ==> ValidBurst(bs[i], devices)
  }

  /** The buffers given output d, in the order received. */
  ghost function Routed(mbufs: seq<Mbuf>, dsts: seq<nat>, d: nat): seq<Mbuf>
    requires |mbufs| == |dsts|
  {
    if mbufs == [] then []
    else
      var n := |mbufs| - 1;
      Routed(mbufs[..n], dsts[..n], d) + if dsts[n] == d then [mbufs[n]] else []
  }

  ghost function Count(b: Burst, p: nat): nat
    requires |b.mbufs| == |b.dsts|
  {
    |Routed(b.mbufs, b.dsts, p)|
  }

  function Min(a: nat, b: nat): nat { if a < b then a else b }

  /** How many packets port p transmits. */
  ghost function SentCount(b: Burst, p: nat): nat
    requires |b.mbufs| == |b.dsts| && p < |b.room|
  {
    Min(b.room[p], Count(b, p))
  }

  ghost function Sent(b: Burst, p: nat): seq<Mbuf>
    requires |b.mbufs| == |b.dsts| && p < |b.room|
  {
    Routed(b.mbufs, b.dsts, p)[..SentCount(b, p)]
  }

  lemma {:induction false} RoutedIsShorter(mbufs: seq<Mbuf>, dsts: seq<nat>, d: nat)
    requires |mbufs| == |dsts|
    ensures |Routed(mbufs, dsts, d)| <= |mbufs|
    decreases |mbufs|
  {
    if mbufs != [] {
      var n := |mbufs| - 1;
      RoutedIsShorter(mbufs[..n], dsts[..n], d);
    }
  }

  lemma RoutedSnoc(mbufs: seq<Mbuf>, dsts: seq<nat>, mbuf: Mbuf, dst: nat, d: nat)
    requires |mbufs| == |dsts|
    ensures Routed(mbufs + [mbuf], dsts + [dst], d) == Routed(mbufs, dsts, d) + if dst == d then [mbuf] else []
  {
    assert (mbufs + [mbuf])[..|mbufs|] == mbufs && (dsts + [dst])[..|dsts|] == dsts;
  }

  /** What the cleanup loop frees for ports below n: entries of the RECEIVE array, from the
      sent count of each port to the size of its batch. */
  ghost function CleanedUp(b: Burst, n: nat): seq<Mbuf>
    requires |b.mbufs| == |b.dsts| && n <= |b.room|
  {
    if n == 0 then []
    else
      RoutedIsShorter(b.mbufs, b.dsts, n - 1);
      CleanedUp(b, n - 1) + b.mbufs[SentCount(b, n - 1)..Count(b, n - 1)]
  }

  ghost function AllFreed(bs: seq<Burst>, devices: nat): seq<Mbuf>
    requires AllValid(bs, devices)
  {
    if bs == [] then []
    else
      var b := bs[|bs| - 1];
      AllFreed(bs[..|bs| - 1], devices) + (Routed(b.mbufs, b.dsts, DROP) + CleanedUp(b, devices))
  }

  lemma AllFreedSnoc(freed: seq<Mbuf>, bs: seq<Burst>, i: nat, devices: nat)
    requires AllValid(bs, devices) && i < |bs|
    ensures AllValid(bs[..i], devices) && AllValid(bs[..i + 1], devices)
    ensures freed + AllFreed(bs[..i], devices) + (Routed(bs[i].mbufs, bs[i].dsts, DROP) + CleanedUp(bs[i], devices))
            == freed + AllFreed(bs[..i + 1], devices)
  {
    assert bs[..i + 1][..i] == bs[..i] && bs[..i + 1][i] == bs[i];
  }

  ghost function AllSent(bs: seq<Burst>, devices: nat, p: nat): seq<Mbuf>
    requires AllValid(bs, devices) && p < devices
  {
    if bs == [] then [] else AllSent(bs[..|bs| - 1], devices, p) + Sent(bs[|bs| - 1], p)
  }

  lemma PrefixSnoc(b: Burst, n: nat, freed: seq<Mbuf>)
    requires |b.mbufs| == |b.dsts| && n < |b.mbufs|
    ensures b.mbufs[..n + 1] == b.mbufs[..n] + [b.mbufs[n]] && b.dsts[..n + 1] == b.dsts[..n] + [b.dsts[n]]
    ensures freed + Routed(b.mbufs[..n], b.dsts[..n], DROP) + (if b.dsts[n] == DROP then [b.mbufs[n]] else [])
            == freed + Routed(b.mbufs[..n + 1], b.dsts[..n + 1], DROP)
  {
    assert b.mbufs[..n + 1] == b.mbufs[..n] + [b.mbufs[n]] && b.dsts[..n + 1] == b.dsts[..n] + [b.dsts[n]];
    RoutedSnoc(b.mbufs[..n], b.dsts[..n], b.mbufs[n], b.dsts[n], DROP);
  }

  class Worker {
    const devices: nat
    const batch: array2<Mbuf>
    const txCount: array<nat>
    ghost var freed: seq<Mbuf>        // buffers given back to the pool
    ghost var wire: seq<seq<Mbuf>>    // buffers transmitted, per port

    ghost predicate Valid()
      reads this, txCount
    {
      && batch.Length0 == devices && batch.Length1 == BATCH_SIZE
      && txCount.Length == devices && |wire| == devices
      && forall p :: 0 <= p < devices ==> txCount[p] == 0
    }

    constructor (devices: nat)
      ensures this.devices == devices && Valid() && freed == []
      ensures wire == seq(devices, i => []) && fresh(batch) && fresh(txCount)
    {
      this.devices := devices;
      batch := new Mbuf[devices, BATCH_SIZE]((i, j) => 0);
      txCount := new nat[devices](i => 0);
      freed, wire := [], seq(devices, i => []);
    }

    /** The batches hold exactly the given buffers, and the counts their numbers. */
    ghost predicate Holds(mbufs: seq<Mbuf>, dsts: seq<nat>)
      requires |mbufs| == |dsts|
      reads this, batch, txCount
    {
      && batch.Length0 == devices && batch.Length1 == BATCH_SIZE && txCount.Length == devices
      && (forall p :: 0 <= p < devices ==> txCount[p] == |Routed(mbufs, dsts, p)| <= |mbufs|)
      && (|mbufs| <= BATCH_SIZE ==>
            forall p, j :: 0 <= p < devices && 0 <= j < |Routed(mbufs, dsts, p)| && j < BATCH_SIZE ==>
              batch[p, j] == Routed(mbufs, dsts, p)[j])
    }

    method Enqueue(dst: nat, mbuf: Mbuf, ghost mbufs: seq<Mbuf>, ghost dsts: seq<nat>)
      requires |mbufs| == |dsts| < BATCH_SIZE && dst < devices && Holds(mbufs, dsts)
      modifies batch, txCount
      ensures Holds(mbufs + [mbuf], dsts + [dst])
    {
      var count := txCount[dst];
      batch[dst, count] := mbuf;
      txCount[dst] := txCount[dst] + 1;
      forall p
        ensures Routed(mbufs + [mbuf], dsts + [dst], p) ==
                Routed(mbufs, dsts, p) + if p == dst then [mbuf] else []
      {
        RoutedSnoc(mbufs, dsts, mbuf, dst, p);
      }
    }

    method ClassifyOne(mbuf: Mbuf, dst: nat, ghost mbufs: seq<Mbuf>, ghost dsts: seq<nat>)
      requires |mbufs| == |dsts| < BATCH_SIZE && Holds(mbufs, dsts)
      requires devices <= DROP && (dst == DROP || dst < devices)
      modifies `freed, batch, txCount
      ensures freed == old(freed) + if dst == DROP then [mbuf] else []
      ensures Holds(mbufs + [mbuf], dsts + [dst])
    {
      if dst == DROP {
        DroppedNotHeld(mbufs, dsts, mbuf);
        freed := freed + [mbuf];
      } else {
        Enqueue(dst, mbuf, mbufs, dsts);
      }
    }

    /** The classification loop: each received buffer is freed or put in one batch. */
    method Classify(b: Burst)
      requires Valid() && ValidBurst(b, devices)
      modifies `freed, batch, txCount
      ensures freed == old(freed) + Routed(b.mbufs, b.dsts, DROP)
      ensures Holds(b.mbufs, b.dsts)
    {
      ghost var freed0 := freed;
      var rxCount := |b.mbufs|;
      for n := 0 to rxCount
        invariant freed == freed0 + Routed(b.mbufs[..n], b.dsts[..n], DROP)
        invariant Holds(b.mbufs[..n], b.dsts[..n])
      {
        PrefixSnoc(b, n, freed0);
        ClassifyOne(b.mbufs[n], b.dsts[n], b.mbufs[..n], b.dsts[..n]);
      }
      assert b.mbufs[..rxCount] == b.mbufs && b.dsts[..rxCount] == b.dsts;
    }

    /** A dropped buffer is in no batch (port numbers are below DROP). */
    lemma DroppedNotHeld(mbufs: seq<Mbuf>, dsts: seq<nat>, mbuf: Mbuf)
      requires |mbufs| == |dsts| < BATCH_SIZE && Holds(mbufs, dsts) && devices <= DROP
      ensures Holds(mbufs + [mbuf], dsts + [DROP])
    {
      forall p: nat | p < devices
        ensures Routed(mbufs + [mbuf], dsts + [DROP], p) == Routed(mbufs, dsts, p)
      {
        RoutedSnoc(mbufs, dsts, mbuf, DROP, p);
      }
    }

    /** rte_eth_tx_burst followed by the cleanup loop, for one port. */
    method FlushPort(b: Burst, p: nat)
      requires ValidBurst(b, devices) && p < devices == |wire|
      requires batch.Length0 == devices && batch.Length1 == BATCH_SIZE && txCount.Length == devices
      requires txCount[p] == Count(b, p) <= BATCH_SIZE
      requires forall j :: 0 <= j < Count(b, p) ==> batch[p, j] == Routed(b.mbufs, b.dsts, p)[j]
      modifies `freed, `wire
      ensures wire == old(wire)[p := old(wire)[p] + Sent(b, p)]
      ensures SentCount(b, p) == if b.room[p] < Count(b, p) then b.room[p] else Count(b, p)
      ensures SentCount(b, p) <= Count(b, p) <= |b.mbufs|
      ensures freed == old(freed) + b.mbufs[SentCount(b, p)..Count(b, p)]
    {
      RoutedIsShorter(b.mbufs, b.dsts, p);
      var sentCount := Min(b.room[p], txCount[p]);
      ghost var burst := seq(sentCount, j requires 0 <= j < sentCount reads batch => batch[p, j]);
      assert burst == Sent(b, p);
      wire := wire[p := wire[p] + burst];
      ghost var freed0, wire0 := freed, wire;
      for n := sentCount to txCount[p]
        invariant freed == freed0 + b.mbufs[sentCount..n] && wire == wire0
      {
        freed := freed + [b.mbufs[n]];
      }
    }

    /** The transmit loop over all ports, which resets every count. */
    method Flush(b: Burst)
      requires |wire| == devices && ValidBurst(b, devices) && Holds(b.mbufs, b.dsts)
      modifies `freed, `wire, txCount
      ensures Valid()
      ensures freed == old(freed) + CleanedUp(b, devices)
      ensures forall p :: 0 <= p < devices ==> wire[p] == old(wire[p]) + Sent(b, p)
    {
      ghost var freed0, wire0 := freed, wire;
      for p := 0 to devices
        invariant |wire| == devices
        invariant freed == freed0 + CleanedUp(b, p)
        invariant forall q :: 0 <= q < p ==> txCount[q] == 0 && wire[q] == wire0[q] + Sent(b, q)
        invariant forall q :: p <= q < devices ==> txCount[q] == Count(b, q) && wire[q] == wire0[q]
      {
        FlushPort(b, p);
        txCount[p] := 0;
      }
    }

    /** One iteration of the device loop. */
    method Poll(b: Burst)
      requires Valid() && ValidBurst(b, devices)
      modifies `freed, `wire, batch, txCount
      ensures Valid()
      ensures freed == old(freed) + (Routed(b.mbufs, b.dsts, DROP) + CleanedUp(b, devices))
      ensures forall p :: 0 <= p < devices ==> wire[p] == old(wire[p]) + Sent(b, p)
    {
      Classify(b);
      Flush(b);
    }

    /** Any number of polls, as the endless loop makes them one after the other. */
    method PollAll(bs: seq<Burst>)
      requires Valid() && AllValid(bs, devices)
      modifies `freed, `wire, batch, txCount
      ensures Valid()
      ensures freed == old(freed) + AllFreed(bs, devices)
      ensures forall p :: 0 <= p < devices ==> wire[p] == old(wire[p]) + AllSent(bs, devices, p)
    {
      ghost var freed0, wire0 := freed, wire;
      for i := 0 to |bs|
        invariant Valid()
        invariant freed == freed0 + AllFreed(bs[..i], devices)
        invariant forall p :: 0 <= p < devices ==> wire[p] == wire0[p] + AllSent(bs[..i], devices, p)
      {
        assert bs[..i + 1][..i] == bs[..i];
        Poll(bs[i]);
        AllFreedSnoc(freed0, bs, i, devices);
      }
      assert bs[..|bs|] == bs;
    }
  }

  // ---------- rounds in which every port takes its whole batch ----------

  ghost predicate NoShortSend(b: Burst, devices: nat)
    requires |b.mbufs| == |b.dsts| && |b.room| == devices
  {
    forall p :: 0 <= p < devices ==> Count(b, p) <= b.room[p]
  }

  /** The received buffers and their outputs over all polls, in order. */
  ghost function Received(bs: seq<Burst>): seq<Mbuf> {
    if bs == [] then [] else Received(bs[..|bs| - 1]) + bs[|bs| - 1].mbufs
  }

  ghost function Outputs(bs: seq<Burst>): seq<nat> {
    if bs == [] then [] else Outputs(bs[..|bs| - 1]) + bs[|bs| - 1].dsts
  }

  lemma {:induction false} SameLength(bs: seq<Burst>, devices: nat)
    requires AllValid(bs, devices)
    ensures |Received(bs)| == |Outputs(bs)|
    decreases |bs|
  {
    if bs != [] {
      SameLength(bs[..|bs| - 1], devices);
      assert ValidBurst(bs[|bs| - 1], devices);
    }
  }

  lemma {:induction false} RoutedAppend(m1: seq<Mbuf>, d1: seq<nat>, m2: seq<Mbuf>, d2: seq<nat>, d: nat)
    requires |m1| == |d1| && |m2| == |d2|
    ensures Routed(m1 + m2, d1 + d2, d) == Routed(m1, d1, d) + Routed(m2, d2, d)
    decreases |m2|
  {
    if m2 == [] {
      assert m1 + m2 == m1 && d1 + d2 == d1;
    } else {
      var n := |m2| - 1;
      RoutedAppend(m1, d1, m2[..n], d2[..n], d);
      RoutedSnoc(m1 + m2[..n], d1 + d2[..n], m2[n], d2[n], d);
      assert m1 + m2 == m1 + m2[..n] + [m2[n]] && d1 + d2 == d1 + d2[..n] + [d2[n]];
    }
  }

  lemma {:induction false} NothingCleanedUp(b: Burst, devices: nat, n: nat)
    requires ValidBurst(b, devices) && NoShortSend(b, devices) && n <= devices
    ensures CleanedUp(b, n) == []
  {
    if n > 0 {
      RoutedIsShorter(b.mbufs, b.dsts, n - 1);
      NothingCleanedUp(b, devices, n - 1);
    }
  }

  /** What is freed is what was dropped, and what each port transmits is what was given to it,
      in the order of reception: nothing is lost, duplicated or reordered. */
  lemma {:induction false} RoundsConserve(bs: seq<Burst>, devices: nat, p: nat)
    requires AllValid(bs, devices) && p < devices
    requires forall i :: 0 <= i < |bs| ==> NoShortSend(bs[i], devices)
    ensures |Received(bs)| == |Outputs(bs)|
    ensures AllFreed(bs, devices) == Routed(Received(bs), Outputs(bs), DROP)
    ensures AllSent(bs, devices, p) == Routed(Received(bs), Outputs(bs), p)
    decreases |bs|
  {
    SameLength(bs, devices);
    if bs != [] {
      var n, b := |bs| - 1, bs[|bs| - 1];
      RoundsConserve(bs[..n], devices, p);
      assert NoShortSend(b, devices);
      NothingCleanedUp(b, devices, devices);
      RoutedAppend(Received(bs[..n]), Outputs(bs[..n]), b.mbufs, b.dsts, DROP);
      RoutedAppend(Received(bs[..n]), Outputs(bs[..n]), b.mbufs, b.dsts, p);
      assert Sent(b, p) == Routed(b.mbufs, b.dsts, p);
    }
  }

  // ---------- counting buffers ----------

  /** How often m occurs. */
  ghost function Occurs(s: seq<Mbuf>, m: Mbuf): nat {
    if s == [] then 0 else Occurs(s[..|s| - 1], m) + if s[|s| - 1] == m then 1 else 0
  }

  lemma {:induction false} OccursAppend(s: seq<Mbuf>, t: seq<Mbuf>, m: Mbuf)
    ensures Occurs(s + t, m) == Occurs(s, m) + Occurs(t, m)
    decreases |t|
  {
    if t == [] {
      assert s + t == s;
    } else {
      var n := |t| - 1;
      OccursAppend(s, t[..n], m);
      assert (s + t)[..|s + t| - 1] == s + t[..n];
    }
  }

  lemma {:induction false} OccursIn(s: seq<Mbuf>, m: Mbuf)
    ensures Occurs(s, m) > 0 <==> m in s
    decreases |s|
  {
    if s != [] {
      var n := |s| - 1;
      OccursIn(s[..n], m);
      assert s == s[..n] + [s[n]];
    }
  }

  ghost function OverPorts(f: nat -> nat, n: nat): nat {
    if n == 0 then 0 else OverPorts(f, n - 1) + f(n - 1)
  }

  lemma {:induction false} OverPortsBump(f: nat -> nat, g: nat -> nat, p: nat, n: nat, c: nat)
    requires forall q: nat :: q < n ==> g(q) == f(q) + if q == p then c else 0
    ensures OverPorts(g, n) == OverPorts(f, n) + if p < n then c else 0
  {
    if n > 0 { OverPortsBump(f, g, p, n - 1, c); }
  }

  lemma {:induction false} OverPortsAdd(f: nat -> nat, g: nat -> nat, h: nat -> nat, n: nat)
    requires forall q: nat :: q < n ==> f(q) == g(q) + h(q)
    ensures OverPorts(f, n) == OverPorts(g, n) + OverPorts(h, n)
  {
    if n > 0 { OverPortsAdd(f, g, h, n - 1); }
  }

  lemma {:induction false} OverPortsSame(f: nat -> nat, g: nat -> nat, n: nat)
    requires forall q: nat :: q < n ==> f(q) == g(q)
    ensures OverPorts(f, n) == OverPorts(g, n)
  {
    if n > 0 { OverPortsSame(f, g, n - 1); }
  }

  lemma {:induction false} OverPortsPositive(f: nat -> nat, n: nat)
    ensures OverPorts(f, n) > 0 <==> exists q: nat :: q < n && f(q) > 0
  {
    if n > 0 {
      OverPortsPositive(f, n - 1);
      if q: nat :| q < n && f(q) > 0 {
        assert q < n - 1 || q == n - 1;
      }
    }
  }

  /** Every received buffer is dropped or in exactly one batch, once. */
  lemma {:induction false} EveryBufferOnce(mbufs: seq<Mbuf>, dsts: seq<nat>, devices: nat, m: Mbuf)
    requires |mbufs| == |dsts| && devices <= DROP
    requires forall i :: 0 <= i < |dsts| ==> dsts[i] == DROP || dsts[i] < devices
    ensures Occurs(Routed(mbufs, dsts, DROP), m)
            + OverPorts((p: nat) => Occurs(Routed(mbufs, dsts, p), m), devices) == Occurs(mbufs, m)
    decreases |mbufs|
  {
    var g := (p: nat) => Occurs(Routed(mbufs, dsts, p), m);
    if mbufs == [] {
      OverPortsPositive(g, devices);
    } else {
      var n := |mbufs| - 1;
      EveryBufferOnce(mbufs[..n], dsts[..n], devices, m);
      var c := if mbufs[n] == m then 1 else 0;
      forall p: nat
        ensures g(p) == Occurs(Routed(mbufs[..n], dsts[..n], p), m) + if p == dsts[n] then c else 0
      {
        OccursAppend(Routed(mbufs[..n], dsts[..n], p), if dsts[n] == p then [mbufs[n]] else [], m);
      }
      OverPortsBump((p: nat) => Occurs(Routed(mbufs[..n], dsts[..n], p), m), g, dsts[n], devices, c);
    }
  }

  // ---------- short sends ----------

  /** The receive positions of the buffers given output d. */
  ghost function Positions(dsts: seq<nat>, d: nat): seq<nat> {
    if dsts == [] then []
    else
      var n := |dsts| - 1;
      Positions(dsts[..n], d) + if dsts[n] == d then [n] else []
  }

  lemma {:induction false} PrefixRoutedHere(mbufs: seq<Mbuf>, dsts: seq<nat>, d: nat, k: nat)
    requires |mbufs| == |dsts| && k <= |dsts| && forall i :: 0 <= i < k ==> dsts[i] == d
    ensures |Routed(mbufs, dsts, d)| >= k
    decreases |mbufs|
  {
    if k > 0 {
      var n := |mbufs| - 1;
      PrefixRoutedHere(mbufs[..n], dsts[..n], d, if k <= n then k else n);
    }
  }

  /** A batch as long as the burst holds all of it. */
  lemma {:induction false} AllRoutedHere(mbufs: seq<Mbuf>, dsts: seq<nat>, d: nat)
    requires |mbufs| == |dsts|
    ensures |Routed(mbufs, dsts, d)| == |mbufs| <==> forall i :: 0 <= i < |dsts| ==> dsts[i] == d
    decreases |mbufs|
  {
    if mbufs != [] {
      var n := |mbufs| - 1;
      AllRoutedHere(mbufs[..n], dsts[..n], d);
      RoutedIsShorter(mbufs[..n], dsts[..n], d);
    }
  }

  /** The j-th buffer of a batch was received at position j or later, and at position j exactly
      when all buffers up to it went to this batch. */
  lemma {:induction false} PositionsMeaning(mbufs: seq<Mbuf>, dsts: seq<nat>, d: nat)
    requires |mbufs| == |dsts|
    ensures var ps := Positions(dsts, d);
            && |ps| == |Routed(mbufs, dsts, d)| <= |dsts|
            && (forall j :: 0 <= j < |ps| ==> j <= ps[j] < |dsts|)
            && (forall j :: 0 <= j < |ps| ==> Routed(mbufs, dsts, d)[j] == mbufs[ps[j]])
            && (forall j :: 0 <= j < |ps| ==> (ps[j] == j <==> forall i :: 0 <= i <= j ==> dsts[i] == d))
    decreases |dsts|
  {
    if dsts != [] {
      var n := |dsts| - 1;
      PositionsMeaning(mbufs[..n], dsts[..n], d);
      var qs, ps := Positions(dsts[..n], d), Positions(dsts, d);
      if dsts[n] == d {
        var k := |qs|;
        if forall i :: 0 <= i <= k ==> dsts[i] == d {
          if k < n { PrefixRoutedHere(mbufs[..n], dsts[..n], d, k + 1); }
        }
        if k == n { AllRoutedHere(mbufs[..n], dsts[..n], d); }
      }
    }
  }

  /** What the cleanup loop should free for port p, and what it does free. */
  ghost function Unsent(b: Burst, p: nat): seq<Mbuf>
    requires |b.mbufs| == |b.dsts| && p < |b.room|
  {
    Routed(b.mbufs, b.dsts, p)[SentCount(b, p)..]
  }

  ghost function FreedFor(b: Burst, p: nat): seq<Mbuf>
    requires |b.mbufs| == |b.dsts| && p < |b.room|
  {
    RoutedIsShorter(b.mbufs, b.dsts, p);
    b.mbufs[SentCount(b, p)..Count(b, p)]
  }

  ghost function SentOf(b: Burst, m: Mbuf): nat -> nat
    requires |b.mbufs| == |b.dsts|
  {
    (p: nat) => if p < |b.room| then Occurs(Sent(b, p), m) else 0
  }

  /** After the poll each received buffer has been transmitted or freed, exactly once. */
  ghost predicate DisposedOnce(b: Burst, devices: nat)
    requires ValidBurst(b, devices)
  {
    forall m: Mbuf ::
      Occurs(Routed(b.mbufs, b.dsts, DROP), m) + OverPorts(SentOf(b, m), devices) + Occurs(CleanedUp(b, devices), m)
      == Occurs(b.mbufs, m)
  }

  ghost function UnsentOf(b: Burst, m: Mbuf): nat -> nat
    requires |b.mbufs| == |b.dsts|
  {
    (p: nat) => if p < |b.room| then Occurs(Unsent(b, p), m) else 0
  }

  ghost function FreedOf(b: Burst, m: Mbuf): nat -> nat
    requires |b.mbufs| == |b.dsts|
  {
    (p: nat) => if p < |b.room| then Occurs(FreedFor(b, p), m) else 0
  }

  /** A port with a short send got the whole beginning of the burst, as far as its batch goes. */
  ghost predicate Harmless(b: Burst, devices: nat)
    requires ValidBurst(b, devices)
  {
    forall p, i ::
      0 <= p < devices && b.room[p] < Count(b, p) && 0 <= i < Count(b, p) && i < |b.dsts| ==> b.dsts[i] == p
  }

  lemma {:induction false} CleanedUpCount(b: Burst, devices: nat, n: nat, m: Mbuf)
    requires ValidBurst(b, devices) && n <= devices
    ensures Occurs(CleanedUp(b, n), m) == OverPorts(FreedOf(b, m), n)
  {
    if n > 0 {
      CleanedUpCount(b, devices, n - 1, m);
      OccursAppend(CleanedUp(b, n - 1), FreedFor(b, n - 1), m);
    }
  }

  /** The books balance for m exactly when it is cleaned up as often as it was left unsent. */
  lemma BalanceOf(b: Burst, devices: nat, m: Mbuf)
    requires ValidBurst(b, devices)
    ensures Occurs(Routed(b.mbufs, b.dsts, DROP), m) + OverPorts(SentOf(b, m), devices)
            + OverPorts(UnsentOf(b, m), devices) == Occurs(b.mbufs, m)
  {
    EveryBufferOnce(b.mbufs, b.dsts, devices, m);
    var all := (p: nat) => Occurs(Routed(b.mbufs, b.dsts, p), m);
    forall p: nat | p < devices
      ensures all(p) == SentOf(b, m)(p) + UnsentOf(b, m)(p)
    {
      OccursAppend(Sent(b, p), Unsent(b, p), m);
      assert Routed(b.mbufs, b.dsts, p) == Sent(b, p) + Unsent(b, p);
    }
    OverPortsAdd(all, SentOf(b, m), UnsentOf(b, m), devices);
  }

  lemma HarmlessPort(b: Burst, devices: nat, p: nat)
    requires ValidBurst(b, devices) && Harmless(b, devices) && p < devices
    ensures Unsent(b, p) == FreedFor(b, p)
  {
    PositionsMeaning(b.mbufs, b.dsts, p);
    var r := Routed(b.mbufs, b.dsts, p);
    if b.room[p] < Count(b, p) {
      forall j | 0 <= j < |r|
        ensures r[j] == b.mbufs[j]
      {
        assert forall i :: 0 <= i <= j ==> b.dsts[i] == p;
      }
    }
  }

  lemma FreedAt(b: Burst, devices: nat, q: nat, k: nat)
    requires ValidBurst(b, devices) && q < devices && k < |b.mbufs| && Occurs(FreedFor(b, q), b.mbufs[k]) > 0
    ensures SentCount(b, q) <= k < Count(b, q)
  {
    OccursIn(FreedFor(b, q), b.mbufs[k]);
    RoutedIsShorter(b.mbufs, b.dsts, q);
    var i :| 0 <= i < |FreedFor(b, q)| && FreedFor(b, q)[i] == b.mbufs[k];
    assert b.mbufs[SentCount(b, q) + i] == b.mbufs[k];
  }

  /** If the books balance, an unsent buffer received at position k is freed for some port, at
      whose batch position k a later buffer stands, unless it is the same port. */
  lemma UnsentIsFreed(b: Burst, devices: nat, p: nat, j: nat) returns (q: nat)
    requires ValidBurst(b, devices) && DisposedOnce(b, devices) && p < devices
    requires SentCount(b, p) <= j < Count(b, p)
    ensures Count(b, p) == |Positions(b.dsts, p)|
    ensures q < devices && SentCount(b, q) <= Positions(b.dsts, p)[j] < Count(b, q)
  {
    PositionsMeaning(b.mbufs, b.dsts, p);
    var k := Positions(b.dsts, p)[j];
    var m := b.mbufs[k];
    assert Unsent(b, p)[j - SentCount(b, p)] == m;
    OccursIn(Unsent(b, p), m);
    BalanceOf(b, devices, m);
    CleanedUpCount(b, devices, devices, m);
    assert UnsentOf(b, m)(p) > 0;
    OverPortsPositive(UnsentOf(b, m), devices);
    OverPortsPositive(FreedOf(b, m), devices);
    q :| q < devices && FreedOf(b, m)(q) > 0;
    FreedAt(b, devices, q, k);
  }

  lemma {:induction false} PositionsOrder(dsts: seq<nat>, d: nat)
    ensures forall j :: 0 <= j < |Positions(dsts, d)| ==> Positions(dsts, d)[j] < |dsts|
    ensures forall j :: 0 <= j < |Positions(dsts, d)| ==> dsts[Positions(dsts, d)[j]] == d
    ensures forall i, j :: 0 <= i < j < |Positions(dsts, d)| ==> Positions(dsts, d)[i] < Positions(dsts, d)[j]
    decreases |dsts|
  {
    if dsts != [] {
      var n := |dsts| - 1;
      PositionsOrder(dsts[..n], d);
      var qs, ps := Positions(dsts[..n], d), Positions(dsts, d);
      forall j | 0 <= j < |ps|
        ensures ps[j] < |dsts| && dsts[ps[j]] == d && (j < |qs| ==> ps[j] == qs[j] && ps[j] < n)
      {
        if j < |qs| {
          assert qs[j] < n && dsts[..n][qs[j]] == d;
        }
      }
    }
  }

  lemma NotYet(dsts: seq<nat>, d: nat)
    ensures |dsts| !in Positions(dsts, d)
  {
    PositionsOrder(dsts, d);
  }

  lemma {:induction false} PositionsAll(dsts: seq<nat>, d: nat, k: nat)
    requires k < |dsts|
    ensures k in Positions(dsts, d) <==> dsts[k] == d
    decreases |dsts|
  {
    var n := |dsts| - 1;
    var before := Positions(dsts[..n], d);
    if k < n {
      PositionsAll(dsts[..n], d, k);
    } else {
      NotYet(dsts[..n], d);
    }
  }

  /** The buffers routed to an output are exactly those given to it, in the order received. */
  lemma RoutedMeaning(mbufs: seq<Mbuf>, dsts: seq<nat>, d: nat) returns (ps: seq<nat>)
    requires |mbufs| == |dsts|
    ensures |ps| == |Routed(mbufs, dsts, d)| && forall i, j :: 0 <= i < j < |ps| ==> ps[i] < ps[j]
    ensures forall j :: 0 <= j < |ps| ==> ps[j] < |mbufs| && Routed(mbufs, dsts, d)[j] == mbufs[ps[j]]
    ensures forall k: nat :: k < |dsts| ==> (k in ps <==> dsts[k] == d)
  {
    ps := Positions(dsts, d);
    PositionsMeaning(mbufs, dsts, d);
    PositionsOrder(dsts, d);
    forall k: nat | k < |dsts|
      ensures k in ps <==> dsts[k] == d
    {
      PositionsAll(dsts, d, k);
    }
  }

  /** If the books balance, no unsent buffer is out of place: one out of place at position k
      would lead to another at a later position. */
  lemma {:induction false} NoneOutOfPlace(b: Burst, devices: nat, p: nat, j: nat)
    requires ValidBurst(b, devices) && DisposedOnce(b, devices) && p < devices
    requires SentCount(b, p) <= j < Count(b, p)
    ensures |Positions(b.dsts, p)| == Count(b, p) && Positions(b.dsts, p)[j] == j
    decreases |b.dsts| - (if j < |Positions(b.dsts, p)| then Positions(b.dsts, p)[j] else 0)
  {
    PositionsMeaning(b.mbufs, b.dsts, p);
    var k := Positions(b.dsts, p)[j];
    if k != j {
      var q := UnsentIsFreed(b, devices, p, j);
      PositionsMeaning(b.mbufs, b.dsts, q);
      PositionsOrder(b.dsts, p);
      PositionsOrder(b.dsts, q);
      if Positions(b.dsts, q)[k] != k {
        NoneOutOfPlace(b, devices, q, k);
      }
    }
  }

  /** After a poll every received buffer has been transmitted or freed exactly once if and only
      if each port with a short send had got the whole beginning of the burst. Otherwise some
      buffer is freed that is also transmitted or freed elsewhere, and some other is lost. */
  lemma ShortSendExact(b: Burst, devices: nat)
    requires ValidBurst(b, devices)
    ensures DisposedOnce(b, devices) <==> Harmless(b, devices)
  {
    if Harmless(b, devices) {
      forall m: Mbuf
        ensures Occurs(Routed(b.mbufs, b.dsts, DROP), m) + OverPorts(SentOf(b, m), devices)
                + Occurs(CleanedUp(b, devices), m) == Occurs(b.mbufs, m)
      {
        BalanceOf(b, devices, m);
        CleanedUpCount(b, devices, devices, m);
        forall p: nat | p < devices
          ensures UnsentOf(b, m)(p) == FreedOf(b, m)(p)
        {
          HarmlessPort(b, devices, p);
        }
        OverPortsSame(UnsentOf(b, m), FreedOf(b, m), devices);
      }
    }
    if DisposedOnce(b, devices) {
      forall p, i | 0 <= p < devices && b.room[p] < Count(b, p) && 0 <= i < Count(b, p) && i < |b.dsts|
        ensures b.dsts[i] == p
      {
        NoneOutOfPlace(b, devices, p, Count(b, p) - 1);
        PositionsMeaning(b.mbufs, b.dsts, p);
      }
    }
  }

  lemma TwoRouted(m: Mbuf, n: Mbuf, d: nat, e: nat, p: nat)
    ensures Routed([m, n], [d, e], p) == (if d == p then [m] else []) + if e == p then [n] else []
  {
    RoutedSnoc([], [], m, d, p);
    RoutedSnoc([m], [d], n, e, p);
    assert [m] + [n] == [m, n] && [d] + [e] == [d, e] && [] + [m] == [m] && [] + [d] == [d];
  }

  /** A short send that does damage: two buffers for ports 0 and 1, no room on port 1. The
      buffer transmitted on port 0 is freed as well, and the other is never given back. */
  lemma ShortSendExample()
    ensures var b := Burst([7, 8], [0, 1], [1, 0]);
            ValidBurst(b, 2) && !Harmless(b, 2) && Sent(b, 0) == [7] && CleanedUp(b, 2) == [7]
  {
    var b := Burst([7, 8], [0, 1], [1, 0]);
    TwoRouted(7, 8, 0, 1, 0);
    TwoRouted(7, 8, 0, 1, 1);
    assert CleanedUp(b, 1) == [];
    assert b.room[1] < Count(b, 1) && b.dsts[0] != 1;
  }
}
