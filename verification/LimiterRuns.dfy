/**
 Runs of the connection limiter over any sequence of packets, from empty tables and without
 expiry: the flow map and the index allocator.
 */
module LimiterRuns {
  import opened LimiterTrees
  import opened LimiterPrograms

  ghost predicate IsController(prog: Program) {
    prog == Cuckoo() || prog == Guarded() || prog == MaxTput()
  }

  /** ts[i] are the tables before packet i; a crash ends a run. */
  ghost predicate IsRun(prog: Program, ts: seq<Tables>, xs: seq<Input>) {
    && |ts| == |xs| + 1
    && forall i :: 0 <= i < |xs| ==>
         Process(prog, xs[i], ts[i]).Done? && Process(prog, xs[i], ts[i]).tables == ts[i + 1]
  }

  ghost function Range(lo: nat, hi: nat): (r: set<nat>)
    ensures forall i :: i in r <==> lo <= i < hi
    ensures |r| == if lo < hi then hi - lo else 0
  {
    if lo >= hi then {} else Range(lo, hi - 1) + {hi - 1}
  }

  /** Freshly constructed tables; a guarded map starts with its guard on. */
  ghost function Empty(prog: Program, mapCapacity: nat, indices: nat,
                       devFlags: seq<Buffer>, devPorts: seq<Buffer>): Tables
  {
    Tables(map[], mapCapacity, Range(0, indices), if prog == Guarded() then Guard(true) else NoGuard,
           devFlags, devPorts)
  }

  /** Flows and allocated indices are in bijection. */
  ghost predicate Bijective(t: Tables, indices: nat) {
    && (forall i :: i in t.free ==> i < indices)
    && (forall k :: k in t.flows ==> t.flows[k] < indices && t.flows[k] !in t.free)
    && (forall k, k' :: k in t.flows && k' in t.flows && t.flows[k] == t.flows[k'] ==> k == k')
    && (forall i: nat :: i < indices && i !in t.free ==> exists k :: k in t.flows && t.flows[k] == i)
    && |t.flows| + |t.free| == indices
    && |t.flows| <= t.capacity
  }

  /** While the guard is on there is room in the map. */
  ghost predicate GuardSound(t: Tables) {
    t.guard == Guard(true) ==> |t.flows| < t.capacity
  }

  // ---------- one packet ----------

  /** The tables after a packet of the controller's code path. */
  lemma StepCases(prog: Program, x: Input, t: Tables)
    requires IsController(prog) && Process(prog, x, t).Done?
    ensures var t' := Process(prog, x, t).tables;
            || t' == t
            || (t.free != {} && t' == Installed(t, FlowKey(x.pkt)) && NewLimitedFlow(x, t)
                && (prog == Guarded() ==> t.guard == Guard(true)))
  {
    OnlyInstallsChangeTables(prog, x, t);
    if prog == Guarded() && x.pkt.codePath == prog.code { GuardedMeans(x, t); }
  }

  lemma InstallKeepsBijection(t: Tables, key: Buffer, indices: nat)
    requires Bijective(t, indices) && t.free != {} && key !in t.flows && |t.flows| < t.capacity
    ensures Bijective(Installed(t, key), indices) && GuardSound(Installed(t, key))
  {
    var i, t' := Least(t.free), Installed(t, key);
    assert t'.flows == t.flows[key := i] && t'.free == t.free - {i};
    assert t'.flows[key] == i;
    forall j: nat | j < indices && j !in t'.free
      ensures exists k :: k in t'.flows && t'.flows[k] == j
    {
      if j != i {
        var k :| k in t.flows && t.flows[k] == j;
        assert t'.flows[k] == j;
      }
    }
    assert |t'.flows| == |t.flows| + 1 by { assert t'.flows.Keys == t.flows.Keys + {key}; }
  }

  lemma StepKeepsBijection(prog: Program, x: Input, t: Tables, indices: nat)
    requires IsController(prog) && Process(prog, x, t).Done?
    requires Bijective(t, indices) && GuardSound(t)
    requires prog == Guarded() || indices <= t.capacity
    ensures var t' := Process(prog, x, t).tables;
            Bijective(t', indices) && GuardSound(t') && t'.capacity == t.capacity
  {
    StepCases(prog, x, t);
    if Process(prog, x, t).tables != t {
      assert |t.free| > 0;
      InstallKeepsBijection(t, FlowKey(x.pkt), indices);
    }
  }

  // ---------- every run ----------

  lemma {:induction false} RunKeepsBijection(prog: Program, ts: seq<Tables>, xs: seq<Input>, indices: nat, n: nat)
    requires IsController(prog) && IsRun(prog, ts, xs) && n <= |xs|
    requires Bijective(ts[0], indices) && GuardSound(ts[0])
    requires prog == Guarded() || indices <= ts[0].capacity
    ensures Bijective(ts[n], indices) && GuardSound(ts[n]) && ts[n].capacity == ts[0].capacity
  {
    if n > 0 {
      RunKeepsBijection(prog, ts, xs, indices, n - 1);
      StepKeepsBijection(prog, xs[n - 1], ts[n - 1], indices);
    }
  }

  lemma EmptyIsBijective(prog: Program, mapCapacity: nat, indices: nat, devFlags: seq<Buffer>, devPorts: seq<Buffer>)
    ensures Bijective(Empty(prog, mapCapacity, indices, devFlags, devPorts), indices)
  {
  }

  /** Flows and allocated indices stay in bijection over every run of the controller. */
  ghost predicate AlwaysBijective(prog: Program, mapCapacity: nat, indices: nat) {
    forall ts, xs, devFlags, devPorts ::
      IsRun(prog, ts, xs) && ts[0] == Empty(prog, mapCapacity, indices, devFlags, devPorts) ==>
        forall n :: 0 <= n <= |xs| ==> Bijective(ts[n], indices)
  }

  /** xs with every packet carrying the code path of prog. */
  ghost function AllOn(prog: Program, xs: seq<Input>): (ys: seq<Input>)
    ensures |ys| == |xs|
  {
    seq(|xs|, i requires 0 <= i < |xs| => On(prog, xs[i]))
  }

  lemma RunSnoc(prog: Program, ts: seq<Tables>, xs: seq<Input>, x: Input, t: Tables)
    requires IsRun(prog, ts, xs)
    requires Process(prog, x, ts[|xs|]).Done? && Process(prog, x, ts[|xs|]).tables == t
    ensures IsRun(prog, ts + [t], xs + [x])
  {
  }

  // ---------- the vectors nf_init writes ----------

  /** Even devices are exempt, odd devices are limited. */
  function InitFlags(): seq<Buffer> {
    seq(32, i => [0, 0, 0, if i % 2 == 0 then 1 else 0])
  }

  /** Each device sends to its neighbour in the pair. */
  function InitPorts(): seq<Buffer> {
    seq(32, i requires 0 <= i < 32 => [0, if i % 2 == 0 then i + 1 else i - 1])
  }

  lemma InitVectors(device: nat)
    requires device < 32
    ensures |InitFlags()| == 32 && InitFlags()[device] == [0, 0, 0, if device % 2 == 0 then 1 else 0]
    ensures |InitPorts()| == 32 && InitPorts()[device] == [0, if device % 2 == 0 then device + 1 else device - 1]
    ensures BigEndian(InitFlags()[device], 4) == if device % 2 == 0 then 1 else 0
    ensures BigEndian(InitPorts()[device], 2) == if device % 2 == 0 then device + 1 else device - 1
  {
    var f, p := InitFlags()[device], InitPorts()[device];
    assert BigEndian(f, 3) == 0 by { assert BigEndian(f, 2) == 0 by { assert BigEndian(f, 1) == 0; } }
    assert BigEndian(p, 1) == 0;
  }

  // ---------- a run that fills the map ----------

  function Bytes4(n: nat): (b: Buffer)
    requires n < 0x1_0000_0000
    ensures |b| == 4 && BigEndian(b, 4) == n
  {
    var b := [n / 0x100_0000, n / 0x1_0000 % 0x100, n / 0x100 % 0x100, n % 0x100];
    assert BigEndian(b, 1) == b[0];
    assert n / 0x100_0000 == n / 0x1_0000 / 0x100 && n / 0x1_0000 == n / 0x100 / 0x100;
    assert BigEndian(b, 2) == 0x100 * b[0] + b[1] == n / 0x1_0000;
    assert BigEndian(b, 3) == 0x100 * (n / 0x1_0000) + b[2] == n / 0x100;
    b
  }

  const ZERO_HEADER: Buffer := seq(20, i => 0)

  ghost function NothingSeen(key: Buffer): nat { 0 }

  /** Packet n of the run: a new flow of device 1, well under the threshold. */
  ghost function FillInput(prog: Program, n: nat): Input
    requires n < 0x1_0000_0000
  {
    Input(CpuPacket(prog.code, 1, 0, ZERO_HEADER, Bytes4(n)), NothingSeen)
  }

  ghost function FillKey(n: nat): Buffer
    requires n < 0x1_0000_0000
  {
    FlowKey(FillInput(Cuckoo(), n).pkt)
  }

  ghost function FillFlows(n: nat): map<Buffer, nat>
    requires n <= 0x1_0000_0000
  {
    if n == 0 then map[] else FillFlows(n - 1)[FillKey(n - 1) := n - 1]
  }

  ghost function FillTables(prog: Program, mapCapacity: nat, indices: nat, n: nat): Tables
    requires n <= 0x1_0000_0000
  {
    Tables(FillFlows(n), mapCapacity, Range(n, indices),
           if prog == Guarded() then Guard(n == 0 || n < mapCapacity) else NoGuard,
           InitFlags(), InitPorts())
  }

  lemma FillKeysDiffer(m: nat, n: nat)
    requires m < n < 0x1_0000_0000
    ensures FillKey(m) != FillKey(n)
  {
    assert FillKey(m)[..4] == Bytes4(m) && FillKey(n)[..4] == Bytes4(n);
  }

  lemma {:induction false} FillFlowsMeaning(n: nat)
    requires n <= 0x1_0000_0000
    ensures |FillFlows(n)| == n
    ensures forall k :: k in FillFlows(n) ==> FillFlows(n)[k] < n && k == FillKey(FillFlows(n)[k])
  {
    if n > 0 {
      FillFlowsMeaning(n - 1);
      var before := FillFlows(n - 1);
      if FillKey(n - 1) in before { FillKeysDiffer(before[FillKey(n - 1)], n - 1); }
      assert FillFlows(n).Keys == before.Keys + {FillKey(n - 1)};
    }
  }

  lemma FillKeyIsNew(n: nat)
    requires n < 0x1_0000_0000
    ensures FillKey(n) !in FillFlows(n)
  {
    FillFlowsMeaning(n);
    if FillKey(n) in FillFlows(n) { FillKeysDiffer(FillFlows(n)[FillKey(n)], n); }
  }

  lemma FillKeyOf(prog: Program, n: nat)
    requires n < 0x1_0000_0000
    ensures FlowKey(FillInput(prog, n).pkt) == FillKey(n)
  {
  }

  lemma FillIsNew(prog: Program, mapCapacity: nat, indices: nat, n: nat)
    requires n < 0x1_0000_0000
    ensures var x, t := FillInput(prog, n), FillTables(prog, mapCapacity, indices, n);
            && NewLimitedFlow(x, t) && FlowKey(x.pkt) == FillKey(n)
            && PortReadable(t, 1) && BigEndian(t.devPorts[1], 2) == 0
  {
    FillKeyIsNew(n);
    FillKeyOf(prog, n);
    InitVectors(1);
  }

  /** As long as the guard, if any, allows it, packet n is admitted. */
  lemma FillAdmitted(prog: Program, mapCapacity: nat, indices: nat, n: nat)
    requires IsController(prog) && n < 0x1_0000_0000
    requires prog == Guarded() ==> n == 0 || n < mapCapacity
    ensures var t := FillTables(prog, mapCapacity, indices, n);
            Process(prog, FillInput(prog, n), t) == Done(Installed(t, FillKey(n)), Verdict(true, false, 0, false))
  {
    var x, t := FillInput(prog, n), FillTables(prog, mapCapacity, indices, n);
    FillIsNew(prog, mapCapacity, indices, n);
    if prog == Cuckoo() { CuckooMeans(x, t); }
    else if prog == Guarded() { GuardedMeans(x, t); }
    else { MaxTputMeans(x, t); }
  }

  lemma RangeCons(n: nat, hi: nat)
    requires n < hi
    ensures Range(n, hi) == Range(n + 1, hi) + {n}
  {
  }

  lemma RangeTail(n: nat, hi: nat)
    requires n < hi
    ensures Range(n, hi) != {} && Least(Range(n, hi)) == n && Range(n, hi) - {n} == Range(n + 1, hi)
  {
    assert n in Range(n, hi);
  }

  lemma FillInstalled(prog: Program, mapCapacity: nat, indices: nat, n: nat)
    requires n < mapCapacity < 0x1_0000_0000 && n < indices
    ensures Installed(FillTables(prog, mapCapacity, indices, n), FillKey(n)) ==
            FillTables(prog, mapCapacity, indices, n + 1)
  {
    FillFlowsMeaning(n);
    FillFlowsMeaning(n + 1);
    RangeTail(n, indices);
  }

  /** The first n packets of the run. */
  ghost function FillInputs(n: nat): (xs: seq<Input>)
    requires n <= 0x1_0000_0000
    ensures |xs| == n
  {
    seq(n, i requires 0 <= i < n => FillInput(Cuckoo(), i))
  }

  lemma FillInputsSnoc(prog: Program, n: nat)
    requires n < 0x1_0000_0000
    ensures AllOn(prog, FillInputs(n + 1)) == AllOn(prog, FillInputs(n)) + [FillInput(prog, n)]
  {
    assert On(prog, FillInput(Cuckoo(), n)) == FillInput(prog, n);
  }

  lemma {:induction false} FillRun(prog: Program, mapCapacity: nat, indices: nat, n: nat)
    returns (ts: seq<Tables>, xs: seq<Input>)
    requires IsController(prog) && n <= mapCapacity < 0x1_0000_0000 && n <= indices
    ensures IsRun(prog, ts, xs) && xs == AllOn(prog, FillInputs(n))
    ensures ts[0] == Empty(prog, mapCapacity, indices, InitFlags(), InitPorts())
    ensures ts[n] == FillTables(prog, mapCapacity, indices, n)
  {
    if n == 0 {
      ts, xs := [FillTables(prog, mapCapacity, indices, 0)], [];
    } else {
      ts, xs := FillRun(prog, mapCapacity, indices, n - 1);
      var t := FillTables(prog, mapCapacity, indices, n);
      FillAdmitted(prog, mapCapacity, indices, n - 1);
      FillInstalled(prog, mapCapacity, indices, n - 1);
      RunSnoc(prog, ts, xs, FillInput(prog, n - 1), t);
      ts, xs := ts + [t], xs + [FillInput(prog, n - 1)];
      FillInputsSnoc(prog, n - 1);
    }
  }

  lemma LeakedIndex(t: Tables, indices: nat, i: nat)
    requires i < indices && i !in t.free && forall k :: k in t.flows ==> t.flows[k] != i
    ensures !Bijective(t, indices)
  {
  }

  /** When the map is full and an index is free, installing a new flow takes the least free index
      but does not put the flow, nor anything else: if flows and indices matched, they no longer do. */
  lemma OverflowLeaks(t: Tables, key: Buffer, indices: nat)
    requires |t.flows| >= t.capacity && t.free != {} && key !in t.flows
    ensures var t' := Installed(t, key);
            && t'.free == t.free - {Least(t.free)} && Least(t.free) in t.free
            && t'.flows == t.flows && key !in t'.flows
            && t' == t.(free := t'.free)
            && (Bijective(t, indices) ==> !Bijective(t', indices))
  {
    if Bijective(t, indices) {
      LeakedIndex(Installed(t, key), indices, Least(t.free));
    }
  }

  lemma FillOverflows(prog: Program, mapCapacity: nat, indices: nat)
    requires mapCapacity < 0x1_0000_0000 && mapCapacity < indices
    ensures var t := FillTables(prog, mapCapacity, indices, mapCapacity);
            !Bijective(Installed(t, FillKey(mapCapacity)), indices)
  {
    FillFlowsMeaning(mapCapacity);
    FillKeyIsNew(mapCapacity);
    var t := FillTables(prog, mapCapacity, indices, mapCapacity);
    assert mapCapacity in t.free;
    if Bijective(t, indices) {
      OverflowLeaks(t, FillKey(mapCapacity), indices);
    } else {
      LeakedIndex(Installed(t, FillKey(mapCapacity)), indices, Least(t.free));
    }
  }

  lemma BrokenRun(prog: Program, mapCapacity: nat, indices: nat, ts: seq<Tables>, xs: seq<Input>, n: nat)
    requires IsRun(prog, ts, xs) && ts[0] == Empty(prog, mapCapacity, indices, InitFlags(), InitPorts())
    requires n <= |xs| && !Bijective(ts[n], indices)
    ensures !AlwaysBijective(prog, mapCapacity, indices)
  {
  }

  lemma NotAlwaysBijective(prog: Program, mapCapacity: nat, indices: nat)
    requires IsController(prog) && mapCapacity < 0x1_0000_0000 && mapCapacity < indices
    requires prog == Guarded() ==> mapCapacity == 0
    ensures !AlwaysBijective(prog, mapCapacity, indices)
  {
    var n := mapCapacity;
    var ts, xs := FillRun(prog, mapCapacity, indices, n);
    FillAdmitted(prog, mapCapacity, indices, n);
    FillOverflows(prog, mapCapacity, indices);
    var t := Installed(ts[n], FillKey(n));
    RunSnoc(prog, ts, xs, FillInput(prog, n), t);
    BrokenRun(prog, mapCapacity, indices, ts + [t], xs + [FillInput(prog, n)], n + 1);
  }

  lemma {:induction false} NoIndicesNoChange(prog: Program, ts: seq<Tables>, xs: seq<Input>, n: nat)
    requires IsController(prog) && IsRun(prog, ts, xs) && n <= |xs| && ts[0].free == {}
    ensures ts[n] == ts[0]
  {
    if n > 0 {
      NoIndicesNoChange(prog, ts, xs, n - 1);
      StepCases(prog, xs[n - 1], ts[n - 1]);
    }
  }

  lemma FlowsMatchIndices(prog: Program, mapCapacity: nat, indices: nat,
                          ts: seq<Tables>, xs: seq<Input>, devFlags: seq<Buffer>, devPorts: seq<Buffer>)
    requires IsController(prog) && IsRun(prog, ts, xs)
    requires ts[0] == Empty(prog, mapCapacity, indices, devFlags, devPorts)
    requires indices <= mapCapacity || (prog == Guarded() && mapCapacity > 0)
    ensures forall n :: 0 <= n <= |xs| ==> Bijective(ts[n], indices)
  {
    EmptyIsBijective(prog, mapCapacity, indices, devFlags, devPorts);
    if mapCapacity > 0 {
      forall n | 0 <= n <= |xs|
        ensures Bijective(ts[n], indices)
      {
        RunKeepsBijection(prog, ts, xs, indices, n);
      }
    } else {
      forall n | 0 <= n <= |xs|
        ensures ts[n] == ts[0]
      {
        NoIndicesNoChange(prog, ts, xs, n);
      }
    }
  }

  /** The bijection survives every run exactly when the flow map can hold an entry for every
      index; with a guard it is enough that the map can hold anything at all. */
  lemma BijectionExact(prog: Program, mapCapacity: nat, indices: nat)
    requires IsController(prog) && mapCapacity < 0x1_0000_0000
    ensures AlwaysBijective(prog, mapCapacity, indices) <==>
            indices <= mapCapacity || (prog == Guarded() && mapCapacity > 0)
  {
    if indices <= mapCapacity || (prog == Guarded() && mapCapacity > 0) {
      forall ts, xs, devFlags, devPorts |
        IsRun(prog, ts, xs) && ts[0] == Empty(prog, mapCapacity, indices, devFlags, devPorts)
        ensures forall n :: 0 <= n <= |xs| ==> Bijective(ts[n], indices)
      {
        FlowsMatchIndices(prog, mapCapacity, indices, ts, xs, devFlags, devPorts);
      }
    } else {
      NotAlwaysBijective(prog, mapCapacity, indices);
    }
  }

  // ---------- the controllers side by side ----------

  /** The two controllers keep the same flow map and allocator over every run. */
  ghost predicate AlwaysAgree(mapCapacity: nat, indices: nat) {
    forall ts, us, xs, devFlags, devPorts ::
      && IsRun(Cuckoo(), ts, AllOn(Cuckoo(), xs)) && IsRun(Guarded(), us, AllOn(Guarded(), xs))
      && ts[0] == Empty(Cuckoo(), mapCapacity, indices, devFlags, devPorts)
      && us[0] == Empty(Guarded(), mapCapacity, indices, devFlags, devPorts) ==>
        forall n :: 0 <= n <= |xs| ==> Erased(us[n]) == ts[n]
  }

  /** The guard refuses only when the map is full, and never in a map without room at all. */
  ghost predicate GuardTight(u: Tables) {
    && u.guard.Guard?
    && (!u.guard.allow ==> |u.flows| >= u.capacity)
    && (u.capacity == 0 ==> u.guard.allow)
  }

  lemma SideBySideStep(x: Input, t: Tables, u: Tables, indices: nat)
    requires Process(Cuckoo(), On(Cuckoo(), x), t).Done? && Process(Guarded(), On(Guarded(), x), u).Done?
    requires Erased(u) == t && GuardTight(u)
    requires u.capacity == 0 || (Bijective(u, indices) && indices <= u.capacity)
    ensures var t', u' := Process(Cuckoo(), On(Cuckoo(), x), t).tables, Process(Guarded(), On(Guarded(), x), u).tables;
            Erased(u') == t' && GuardTight(u') && u'.capacity == u.capacity
  {
    CuckooMeans(On(Cuckoo(), x), t);
    GuardedMeans(On(Guarded(), x), u);
    if !u.guard.allow {
      assert |u.free| == 0;
    }
  }

  /** Fed the same packets, the guarded controller keeps the same flow map and allocator as the
      cuckoo one after every packet, although it refuses flows the other lets pass: it refuses
      them only when the map is full, and then no index is left to allocate. */
  lemma {:induction false} GuardedMatchesCuckoo(ts: seq<Tables>, us: seq<Tables>, xs: seq<Input>,
                                                mapCapacity: nat, indices: nat,
                                                devFlags: seq<Buffer>, devPorts: seq<Buffer>, n: nat)
    requires IsRun(Cuckoo(), ts, AllOn(Cuckoo(), xs)) && IsRun(Guarded(), us, AllOn(Guarded(), xs))
    requires ts[0] == Empty(Cuckoo(), mapCapacity, indices, devFlags, devPorts)
    requires us[0] == Empty(Guarded(), mapCapacity, indices, devFlags, devPorts)
    requires (indices <= mapCapacity || mapCapacity == 0) && n <= |xs|
    ensures Erased(us[n]) == ts[n] && GuardTight(us[n]) && us[n].capacity == mapCapacity
  {
    if n > 0 {
      GuardedMatchesCuckoo(ts, us, xs, mapCapacity, indices, devFlags, devPorts, n - 1);
      EmptyIsBijective(Guarded(), mapCapacity, indices, devFlags, devPorts);
      if mapCapacity > 0 {
        RunKeepsBijection(Guarded(), us, AllOn(Guarded(), xs), indices, n - 1);
      }
      SideBySideStep(xs[n - 1], ts[n - 1], us[n - 1], indices);
    }
  }

  lemma OneMoreCuckoo(mapCapacity: nat, indices: nat) returns (ts: seq<Tables>)
    requires 0 < mapCapacity < 0x1_0000_0000 && mapCapacity < indices
    ensures IsRun(Cuckoo(), ts, AllOn(Cuckoo(), FillInputs(mapCapacity + 1)))
    ensures ts[0] == Empty(Cuckoo(), mapCapacity, indices, InitFlags(), InitPorts())
    ensures ts[mapCapacity + 1].free == Range(mapCapacity + 1, indices)
  {
    var n, xs := mapCapacity, [];
    ts, xs := FillRun(Cuckoo(), mapCapacity, indices, n);
    FillAdmitted(Cuckoo(), mapCapacity, indices, n);
    FillInputsSnoc(Cuckoo(), n);
    var t := Installed(ts[n], FillKey(n));
    RangeTail(n, indices);
    RunSnoc(Cuckoo(), ts, xs, FillInput(Cuckoo(), n), t);
    ts := ts + [t];
  }

  lemma OneMoreGuarded(mapCapacity: nat, indices: nat) returns (us: seq<Tables>)
    requires 0 < mapCapacity < 0x1_0000_0000 && mapCapacity < indices
    ensures IsRun(Guarded(), us, AllOn(Guarded(), FillInputs(mapCapacity + 1)))
    ensures us[0] == Empty(Guarded(), mapCapacity, indices, InitFlags(), InitPorts())
    ensures us[mapCapacity + 1].free == Range(mapCapacity, indices)
  {
    var n, xs := mapCapacity, [];
    us, xs := FillRun(Guarded(), mapCapacity, indices, n);
    FillInputsSnoc(Guarded(), n);
    FillIsNew(Guarded(), mapCapacity, indices, n);
    GuardedMeans(FillInput(Guarded(), n), us[n]);
    RunSnoc(Guarded(), us, xs, FillInput(Guarded(), n), us[n]);
    us := us + [us[n]];
  }

  lemma Disagree(mapCapacity: nat, indices: nat, ts: seq<Tables>, us: seq<Tables>, xs: seq<Input>, n: nat)
    requires IsRun(Cuckoo(), ts, AllOn(Cuckoo(), xs)) && IsRun(Guarded(), us, AllOn(Guarded(), xs))
    requires ts[0] == Empty(Cuckoo(), mapCapacity, indices, InitFlags(), InitPorts())
    requires us[0] == Empty(Guarded(), mapCapacity, indices, InitFlags(), InitPorts())
    requires n <= |xs| && us[n].free != ts[n].free
    ensures !AlwaysAgree(mapCapacity, indices)
  {
  }

  /** Fill both maps, then send one more flow: cuckoo takes an index for it, guarded does not. */
  lemma Diverge(mapCapacity: nat, indices: nat)
    requires 0 < mapCapacity < 0x1_0000_0000 && mapCapacity < indices
    ensures !AlwaysAgree(mapCapacity, indices)
  {
    var n, xs := mapCapacity, FillInputs(mapCapacity + 1);
    var ts := OneMoreCuckoo(mapCapacity, indices);
    var us := OneMoreGuarded(mapCapacity, indices);
    assert n in us[n + 1].free && n !in ts[n + 1].free;
    Disagree(mapCapacity, indices, ts, us, xs, n + 1);
  }

  /** The guarded and the cuckoo controller agree over every run exactly when the flow map can
      hold an entry for every index, or none at all. */
  lemma AgreeExact(mapCapacity: nat, indices: nat)
    requires mapCapacity < 0x1_0000_0000
    ensures AlwaysAgree(mapCapacity, indices) <==> indices <= mapCapacity || mapCapacity == 0
  {
    if indices <= mapCapacity || mapCapacity == 0 {
      forall ts, us, xs, devFlags, devPorts |
        && IsRun(Cuckoo(), ts, AllOn(Cuckoo(), xs)) && IsRun(Guarded(), us, AllOn(Guarded(), xs))
        && ts[0] == Empty(Cuckoo(), mapCapacity, indices, devFlags, devPorts)
        && us[0] == Empty(Guarded(), mapCapacity, indices, devFlags, devPorts)
        ensures forall n :: 0 <= n <= |xs| ==> Erased(us[n]) == ts[n]
      {
        forall n | 0 <= n <= |xs|
          ensures Erased(us[n]) == ts[n]
        {
          GuardedMatchesCuckoo(ts, us, xs, mapCapacity, indices, devFlags, devPorts, n);
        }
      }
    } else {
      Diverge(mapCapacity, indices);
    }
  }

  /** Fed the same packets, max-tput and cuckoo keep the same tables after every packet when the
      data plane's estimate is what the sketch would answer. */
  lemma {:induction false} MaxTputMatchesCuckoo(ts: seq<Tables>, us: seq<Tables>, xs: seq<Input>, n: nat)
    requires IsRun(Cuckoo(), ts, AllOn(Cuckoo(), xs)) && IsRun(MaxTput(), us, AllOn(MaxTput(), xs))
    requires ts[0] == us[0] && n <= |xs|
    requires forall i :: 0 <= i < |xs| ==> xs[i].pkt.minEstimate == xs[i].sketch(xs[i].pkt.ip[12..20])
    ensures ts[n] == us[n]
  {
    if n > 0 {
      MaxTputMatchesCuckoo(ts, us, xs, n - 1);
      CuckooVersusMaxTput(xs[n - 1], ts[n - 1]);
    }
  }

  /** The deployed tables: 72818 entries of which nine tenths are used, in map and allocator. */
  lemma DeployedTables(prog: Program)
    requires IsController(prog)
    ensures 72818 * 9 / 10 == 65536 && AlwaysBijective(prog, 65536, 65536) && AlwaysAgree(65536, 65536)
  {
    BijectionExact(prog, 65536, 65536);
    AgreeExact(65536, 65536);
  }

  // ---------- indices in order ----------

  lemma StepAllocatesNext(prog: Program, x: Input, t: Tables, k: nat, indices: nat)
    requires IsController(prog) && Process(prog, x, t).Done? && t.free == Range(k, indices) && k <= indices
    ensures var t' := Process(prog, x, t).tables;
            t'.free == t.free || (k < indices && t'.free == Range(k + 1, indices))
  {
    StepCases(prog, x, t);
    if Process(prog, x, t).tables.free != t.free {
      assert t.free != {};
      RangeTail(k, indices);
    }
  }

  lemma {:induction false} FirstFree(prog: Program, ts: seq<Tables>, xs: seq<Input>, indices: nat, n: nat)
    returns (k: nat)
    requires IsController(prog) && IsRun(prog, ts, xs) && n <= |xs| && ts[0].free == Range(0, indices)
    ensures k <= indices && ts[n].free == Range(k, indices)
  {
    if n == 0 {
      k := 0;
    } else {
      k := FirstFree(prog, ts, xs, indices, n - 1);
      StepAllocatesNext(prog, xs[n - 1], ts[n - 1], k, indices);
      if ts[n].free != ts[n - 1].free { k := k + 1; }
    }
  }

  /** In every run the allocator has handed out the smallest indices, in order, whether or not
      the flow map kept up with it. */
  lemma IndicesInOrder(prog: Program, ts: seq<Tables>, xs: seq<Input>, indices: nat, n: nat)
    requires IsController(prog) && IsRun(prog, ts, xs) && n <= |xs| && ts[0].free == Range(0, indices)
    ensures |ts[n].free| <= indices && ts[n].free == Range(indices - |ts[n].free|, indices)
  {
    var k := FirstFree(prog, ts, xs, indices, n);
  }

  /** As long as no index can be lost, the k-th flow installed gets index k - 1. */
  lemma IndexIsRank(prog: Program, mapCapacity: nat, indices: nat, ts: seq<Tables>, xs: seq<Input>,
                    devFlags: seq<Buffer>, devPorts: seq<Buffer>, n: nat)
    requires IsController(prog) && IsRun(prog, ts, xs) && n < |xs|
    requires ts[0] == Empty(prog, mapCapacity, indices, devFlags, devPorts)
    requires indices <= mapCapacity || (prog == Guarded() && mapCapacity > 0)
    ensures ts[n].free == Range(|ts[n].flows|, indices)
    ensures ts[n + 1] != ts[n] ==> ts[n + 1].flows == ts[n].flows[FlowKey(xs[n].pkt) := |ts[n].flows|]
  {
    FlowsMatchIndices(prog, mapCapacity, indices, ts, xs, devFlags, devPorts);
    IndicesInOrder(prog, ts, xs, indices, n);
    if ts[n + 1] != ts[n] {
      StepCases(prog, xs[n], ts[n]);
      RangeTail(|ts[n].flows|, indices);
      EmptyIsBijective(prog, mapCapacity, indices, devFlags, devPorts);
      assert mapCapacity > 0;
      RunKeepsBijection(prog, ts, xs, indices, n);
    }
  }

  // ---------- one index per flow ----------

  lemma StepKeepsFlows(prog: Program, x: Input, t: Tables, key: Buffer)
    requires IsController(prog) && Process(prog, x, t).Done? && key in t.flows
    ensures var t' := Process(prog, x, t).tables;
            && key in t'.flows && t'.flows[key] == t.flows[key]
            && t'.devFlags == t.devFlags && t'.devPorts == t.devPorts
  {
    StepCases(prog, x, t);
  }

  lemma {:induction false} RunKeepsFlows(prog: Program, ts: seq<Tables>, xs: seq<Input>, key: Buffer, i: nat, j: nat)
    requires IsController(prog) && IsRun(prog, ts, xs) && i <= j <= |xs| && key in ts[i].flows
    ensures key in ts[j].flows && ts[j].flows[key] == ts[i].flows[key]
    decreases j
  {
    if i < j {
      RunKeepsFlows(prog, ts, xs, key, i, j - 1);
      StepKeepsFlows(prog, xs[j - 1], ts[j - 1], key);
    }
  }

  /** Once a five-tuple is installed it keeps its index for the rest of the run, and every later
      packet of it is sent back to the data plane without touching any table. */
  lemma OneIndexPerFlow(prog: Program, ts: seq<Tables>, xs: seq<Input>, i: nat, j: nat)
    requires IsController(prog) && IsRun(prog, ts, xs) && i < j < |xs|
    requires TupleOf(xs[j].pkt) == TupleOf(xs[i].pkt) && xs[j].pkt.codePath == prog.code
    requires FlowKey(xs[i].pkt) in ts[i + 1].flows
    ensures Process(prog, xs[j], ts[j]) == Done(ts[j], ABORT) && ts[j + 1] == ts[j]
    ensures FlowKey(xs[j].pkt) in ts[j].flows
    ensures ts[j].flows[FlowKey(xs[j].pkt)] == ts[i + 1].flows[FlowKey(xs[i].pkt)]
  {
    KeyIsFiveTuple(xs[i].pkt, xs[j].pkt);
    RunKeepsFlows(prog, ts, xs, FlowKey(xs[i].pkt), i + 1, j);
    if prog == Cuckoo() { CuckooMeans(xs[j], ts[j]); }
    else if prog == Guarded() { GuardedMeans(xs[j], ts[j]); }
    else { MaxTputMeans(xs[j], ts[j]); }
  }

  // ---------- where packets go ----------

  lemma {:induction false} VectorsFixed(prog: Program, ts: seq<Tables>, xs: seq<Input>, n: nat)
    requires IsController(prog) && IsRun(prog, ts, xs) && n <= |xs|
    ensures ts[n].devFlags == ts[0].devFlags && ts[n].devPorts == ts[0].devPorts
  {
    if n > 0 {
      VectorsFixed(prog, ts, xs, n - 1);
      StepCases(prog, xs[n - 1], ts[n - 1]);
    }
  }

  /** Over any run from nf_init: a packet of the controller's code path that is not sent back
      to the data plane comes from an odd device and leaves through the even device paired with
      it; the arm that drops for want of a port is never taken. Only max-tput drops, and only
      over the threshold. */
  lemma ForwardedToPeer(prog: Program, ts: seq<Tables>, xs: seq<Input>, n: nat)
    requires IsController(prog) && IsRun(prog, ts, xs) && n < |xs|
    requires ts[0].devFlags == InitFlags() && ts[0].devPorts == InitPorts()
    requires xs[n].pkt.codePath == prog.code
    ensures var v, device := Process(prog, xs[n], ts[n]).verdict, xs[n].pkt.device;
            && device < 32
            && (v.abort
                || (device % 2 == 1 && v == Verdict(true, false, device - 1, false))
                || (device % 2 == 1 && v == DROP && prog == MaxTput() && xs[n].sketch(xs[n].pkt.ip[12..20]) > 64))
  {
    var x, t := xs[n], ts[n];
    VectorsFixed(prog, ts, xs, n);
    if prog == Cuckoo() { CuckooMeans(x, t); }
    else if prog == Guarded() { GuardedMeans(x, t); }
    else { MaxTputMeans(x, t); }
    assert FlagReadable(t, x.pkt.device);
    InitVectors(x.pkt.device);
  }
}
