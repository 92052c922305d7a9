/**
 The three compiled controllers of the connection limiter, and how they relate:
 synthesized/cl-f40000-c0-unif-hds-pref-cuckoo.cpp, ...-hds-pref-guardedmaptable.cpp and
 cl-f40000-c0-unif-hmax-tput.cpp.
 */
module LimiterPrograms {
  import opened LimiterTrees

  /** A controller handles the packets of one code path and forwards all others untouched. */
  datatype Program = Program(code: nat, tree: Tree)

  function Exit(): Tree { If(HasPort, Forward, Drop) }

  function NoRoom(): Tree { Do(ReadPort, Exit()) }

  function CuckooInstall(): Tree { Do(ReadPort, If(HasPort, Do(PutFlow, Forward), Do(PutFlow, Drop))) }

  function GuardedInstall(): Tree { Do(ReadPort, Do(PutFlow, Exit())) }

  function MaxTputInstall(): Tree { Do(PutFlow, Do(ReadPort, Exit())) }

  function Allocating(install: Tree): Tree { Do(Allocate, If(NoIndex, NoRoom(), install)) }

  function Entry(limited: Tree): Tree {
    Do(ReadFlag, Do(Lookup, If(FlagClear, If(NotFound, limited, Abort), Abort)))
  }

  function Cuckoo(): Program {
    Program(4524, Entry(Do(ReadEstimate, If(EstimateLow, Allocating(CuckooInstall()), Abort))))
  }

  function Guarded(): Program {
    Program(5361, Entry(Do(ReadEstimate,
      If(EstimateLow, Do(CheckGuard, If(GuardAllows, Allocating(GuardedInstall()), Abort)), Abort))))
  }

  function MaxTput(): Program {
    Program(3361, Entry(Do(QuerySketch, If(EstimateLow, Allocating(MaxTputInstall()), Drop))))
  }

  function Process(prog: Program, x: Input, t: Tables): Outcome {
    if x.pkt.codePath == prog.code then Run(prog.tree, x, t, NO_LOCALS)
    else Done(t, Verdict(true, false, 0, false))
  }

  /** The same packet as the data plane hands it to another controller. */
  ghost function On(prog: Program, x: Input): Input {
    x.(pkt := x.pkt.(codePath := prog.code))
  }

  // ---------- the compiler's reorderings ----------

  /** The three orders in which the success arm reads the port, branches and installs the flow
      mean the same: hoisting the put out of both arms turns the first into the second, and
      swapping two independent operations turns the second into the third. */
  lemma InstallsAgree(x: Input, t: Tables, l: Locals)
    ensures Factor(CuckooInstall()) == GuardedInstall()
    ensures Run(CuckooInstall(), x, t, l) == Run(GuardedInstall(), x, t, l)
    ensures Run(GuardedInstall(), x, t, l) == Run(MaxTputInstall(), x, t, l)
  {
    var yes, no := Do(PutFlow, Forward), Do(PutFlow, Drop);
    assert FactorIf(HasPort, yes, no) == Do(PutFlow, FactorIf(HasPort, Forward, Drop));
    assert FactorIf(HasPort, Forward, Drop) == Exit();
    assert Factor(If(HasPort, yes, no)) == Do(PutFlow, Exit()) by {
      assert Factor(yes) == yes && Factor(no) == no;
    }
    assert Factor(CuckooInstall()) == Do(ReadPort, Factor(If(HasPort, yes, no)));
    FactorKeeps(CuckooInstall(), x, t, l);
    Commute(ReadPort, PutFlow, Exit(), x, t, l);
  }

  lemma AllocatingAgree(a: Tree, b: Tree, x: Input, t: Tables, l: Locals)
    requires forall t', l' :: Run(a, x, t', l') == Run(b, x, t', l')
    ensures Run(Allocating(a), x, t, l) == Run(Allocating(b), x, t, l)
  {
    var s := Apply(Allocate, x, t, l);
    assert Run(Allocating(a), x, t, l) == Run(If(NoIndex, NoRoom(), a), x, s.tables, s.locals);
    assert Run(Allocating(b), x, t, l) == Run(If(NoIndex, NoRoom(), b), x, s.tables, s.locals);
  }

  // ---------- the reference meaning ----------

  const ABORT := Verdict(true, true, 0, true)
  const DROP := Verdict(false, false, 0, false)

  ghost predicate FlagReadable(t: Tables, device: nat) {
    device < |t.devFlags| && 4 <= |t.devFlags[device]|
  }

  ghost predicate PortReadable(t: Tables, device: nat) {
    device < |t.devPorts| && 2 <= |t.devPorts[device]|
  }

  /** The packet belongs to a new flow of a device whose flows are limited. */
  ghost predicate NewLimitedFlow(x: Input, t: Tables) {
    && FlagReadable(t, x.pkt.device)
    && BigEndian(t.devFlags[x.pkt.device], 4) == 0
    && FlowKey(x.pkt) !in t.flows
  }

  /** Give the flow the least free index, if there is one. */
  ghost function Installed(t: Tables, key: Buffer): Tables {
    if t.free == {} then t else Put(t.(free := t.free - {Least(t.free)}), key, Least(t.free))
  }

  /** An admitted flow is installed and forwarded on its device's port, or dropped for want of one. */
  ghost function Admitted(x: Input, t: Tables): Outcome {
    if !PortReadable(t, x.pkt.device) then Crash
    else
      var port := BigEndian(t.devPorts[x.pkt.device], 2);
      Done(Installed(t, FlowKey(x.pkt)), if port != 65535 then Verdict(true, false, port, false) else DROP)
  }

  /** What any of the controllers does with a packet of its code path, given its decision
      whether to admit new flows and its verdict for those it does not admit. */
  ghost function Reference(x: Input, t: Tables, admit: bool, refusal: Verdict): Outcome {
    if !FlagReadable(t, x.pkt.device) then Crash
    else if !NewLimitedFlow(x, t) then Done(t, ABORT)
    else if admit then Admitted(x, t)
    else Done(t, refusal)
  }

  lemma NoRoomMeans(x: Input, t: Tables, l: Locals)
    ensures Run(NoRoom(), x, t, l) ==
            if !PortReadable(t, x.pkt.device) then Crash
            else
              var port := BigEndian(t.devPorts[x.pkt.device], 2);
              Done(t, if port != 65535 then Verdict(true, false, port, false) else DROP)
  {
    var s := Apply(ReadPort, x, t, l);
    if s.Ok? {
      assert Run(NoRoom(), x, t, l) == Run(Exit(), x, s.tables, s.locals);
    }
  }

  lemma InstallMeans(x: Input, t: Tables, l: Locals)
    ensures var t' := Put(t, FlowKey(x.pkt), l.index);
            Run(MaxTputInstall(), x, t, l) ==
            if !PortReadable(t, x.pkt.device) then Crash
            else
              var port := BigEndian(t.devPorts[x.pkt.device], 2);
              Done(t', if port != 65535 then Verdict(true, false, port, false) else DROP)
  {
    var t' := Put(t, FlowKey(x.pkt), l.index);
    assert Run(MaxTputInstall(), x, t, l) == Run(Do(ReadPort, Exit()), x, t', l);
    NoRoomMeans(x, t', l);
  }

  lemma AllocatingMeans(x: Input, t: Tables, l: Locals)
    ensures Run(Allocating(MaxTputInstall()), x, t, l) == Admitted(x, t)
  {
    var s := Apply(Allocate, x, t, l);
    RunDo(Allocate, If(NoIndex, NoRoom(), MaxTputInstall()), x, t, l);
    RunIf(NoIndex, NoRoom(), MaxTputInstall(), x, s.tables, s.locals);
    NoRoomMeans(x, s.tables, s.locals);
    InstallMeans(x, s.tables, s.locals);
  }

  lemma EntryMeans(limited: Tree, x: Input, t: Tables, l: Locals)
    ensures !FlagReadable(t, x.pkt.device) ==> Run(Entry(limited), x, t, l) == Crash
    ensures FlagReadable(t, x.pkt.device) && !NewLimitedFlow(x, t) ==>
              Run(Entry(limited), x, t, l) == Done(t, ABORT)
    ensures NewLimitedFlow(x, t) ==>
              Run(Entry(limited), x, t, l) == Run(limited, x, t, l.(flag := 0, found := false))
  {
    var newFlow := If(NotFound, limited, Abort);
    var inner := If(FlagClear, newFlow, Abort);
    var s := Apply(ReadFlag, x, t, l);
    RunDo(ReadFlag, Do(Lookup, inner), x, t, l);
    if s.Ok? {
      var l' := Apply(Lookup, x, s.tables, s.locals).locals;
      RunDo(Lookup, inner, x, s.tables, s.locals);
      RunIf(FlagClear, newFlow, Abort, x, t, l');
      RunIf(NotFound, limited, Abort, x, t, l');
      assert Run(Abort, x, t, l') == Done(t, ABORT);
      assert NewLimitedFlow(x, t) ==> l' == l.(flag := 0, found := false);
    }
  }

  lemma CuckooInstallAgrees(x: Input, t: Tables, l: Locals)
    ensures Run(Allocating(CuckooInstall()), x, t, l) == Run(Allocating(MaxTputInstall()), x, t, l)
  {
    forall t', l'
      ensures Run(CuckooInstall(), x, t', l') == Run(MaxTputInstall(), x, t', l')
    {
      InstallsAgree(x, t', l');
    }
    AllocatingAgree(CuckooInstall(), MaxTputInstall(), x, t, l);
  }

  lemma CuckooMeans(x: Input, t: Tables)
    requires x.pkt.codePath == Cuckoo().code
    ensures Process(Cuckoo(), x, t) == Reference(x, t, x.pkt.minEstimate <= 64, ABORT)
  {
    var limited := Do(ReadEstimate, If(EstimateLow, Allocating(CuckooInstall()), Abort));
    EntryMeans(limited, x, t, NO_LOCALS);
    var l := NO_LOCALS.(flag := 0, found := false);
    var s := Apply(ReadEstimate, x, t, l);
    RunDo(ReadEstimate, If(EstimateLow, Allocating(CuckooInstall()), Abort), x, t, l);
    RunIf(EstimateLow, Allocating(CuckooInstall()), Abort, x, t, s.locals);
    assert Run(Abort, x, t, s.locals) == Done(t, ABORT);
    CuckooInstallAgrees(x, t, s.locals);
    AllocatingMeans(x, t, s.locals);
  }

  lemma GuardedInstallAgrees(x: Input, t: Tables, l: Locals)
    ensures Run(Allocating(GuardedInstall()), x, t, l) == Run(Allocating(MaxTputInstall()), x, t, l)
  {
    forall t', l'
      ensures Run(GuardedInstall(), x, t', l') == Run(MaxTputInstall(), x, t', l')
    {
      InstallsAgree(x, t', l');
    }
    AllocatingAgree(GuardedInstall(), MaxTputInstall(), x, t, l);
  }

  lemma GuardedMeans(x: Input, t: Tables)
    requires x.pkt.codePath == Guarded().code
    ensures Process(Guarded(), x, t) ==
            Reference(x, t, x.pkt.minEstimate <= 64 && t.guard == Guard(true), ABORT)
  {
    var checked := Do(CheckGuard, If(GuardAllows, Allocating(GuardedInstall()), Abort));
    var limited := Do(ReadEstimate, If(EstimateLow, checked, Abort));
    EntryMeans(limited, x, t, NO_LOCALS);
    var l := NO_LOCALS.(flag := 0, found := false);
    var s := Apply(ReadEstimate, x, t, l);
    RunDo(ReadEstimate, If(EstimateLow, checked, Abort), x, t, l);
    RunIf(EstimateLow, checked, Abort, x, t, s.locals);
    var g := Apply(CheckGuard, x, t, s.locals);
    RunDo(CheckGuard, If(GuardAllows, Allocating(GuardedInstall()), Abort), x, t, s.locals);
    RunIf(GuardAllows, Allocating(GuardedInstall()), Abort, x, t, g.locals);
    assert Run(Abort, x, t, s.locals) == Done(t, ABORT) && Run(Abort, x, t, g.locals) == Done(t, ABORT);
    GuardedInstallAgrees(x, t, g.locals);
    AllocatingMeans(x, t, g.locals);
  }

  lemma MaxTputQueries(x: Input, t: Tables)
    requires x.pkt.codePath == MaxTput().code
    ensures Process(MaxTput(), x, t) == Reference(x, t, x.sketch(SketchKey(x.pkt)) <= 64, DROP)
  {
    var limited := Do(QuerySketch, If(EstimateLow, Allocating(MaxTputInstall()), Drop));
    EntryMeans(limited, x, t, NO_LOCALS);
    var l := NO_LOCALS.(flag := 0, found := false);
    var s := Apply(QuerySketch, x, t, l);
    RunDo(QuerySketch, If(EstimateLow, Allocating(MaxTputInstall()), Drop), x, t, l);
    RunIf(EstimateLow, Allocating(MaxTputInstall()), Drop, x, t, s.locals);
    assert Run(Drop, x, t, s.locals) == Done(t, DROP);
    AllocatingMeans(x, t, s.locals);
  }

  lemma MaxTputMeans(x: Input, t: Tables)
    requires x.pkt.codePath == MaxTput().code
    ensures Process(MaxTput(), x, t) == Reference(x, t, x.sketch(x.pkt.ip[12..20]) <= 64, DROP)
  {
    SketchBytes(x.pkt);
    MaxTputQueries(x, t);
  }

  // ---------- how the three compare ----------

  /** With the header estimate equal to the sketch's answer, cuckoo and max-tput differ in
      nothing but this: a new limited flow over the threshold is sent back to the data plane by
      the first and dropped by the second; neither changes any table then. */
  lemma CuckooVersusMaxTput(x: Input, t: Tables)
    requires x.pkt.minEstimate == x.sketch(x.pkt.ip[12..20])
    ensures var a, b := Process(Cuckoo(), On(Cuckoo(), x), t), Process(MaxTput(), On(MaxTput(), x), t);
            && (a == b <==> !(NewLimitedFlow(x, t) && x.pkt.minEstimate > 64))
            && (a != b ==> a == Done(t, ABORT) && b == Done(t, DROP))
  {
    CuckooMeans(On(Cuckoo(), x), t);
    MaxTputMeans(On(MaxTput(), x), t);
  }

  /** Cuckoo and guarded differ only where the guard refuses a new limited flow under the
      threshold, which guarded sends back to the data plane with all tables unchanged. */
  lemma CuckooVersusGuarded(x: Input, t: Tables)
    requires t.guard.Guard?
    ensures var a, b := Process(Cuckoo(), On(Cuckoo(), x), t), Process(Guarded(), On(Guarded(), x), t);
            && (a == b <==> !(NewLimitedFlow(x, t) && x.pkt.minEstimate <= 64 && !t.guard.allow))
            && (a != b ==> b == Done(t, ABORT))
  {
    CuckooMeans(On(Cuckoo(), x), t);
    GuardedMeans(On(Guarded(), x), t);
  }

  /** The guard is no input of cuckoo: with or without one, its map and allocator evolve alike. */
  lemma CuckooIgnoresGuard(x: Input, t: Tables)
    ensures ErasedOutcome(Process(Cuckoo(), x, t)) == Process(Cuckoo(), x, Erased(t))
  {
    assert Unguarded(Allocating(CuckooInstall()));
    assert Unguarded(Do(ReadEstimate, If(EstimateLow, Allocating(CuckooInstall()), Abort)));
    assert Unguarded(Cuckoo().tree);
    GuardInvisible(Cuckoo().tree, x, t, NO_LOCALS);
  }

  /** A run that aborts, or drops for its estimate, leaves every table as it was; a table
      changes only by installing a new limited flow. */
  lemma OnlyInstallsChangeTables(prog: Program, x: Input, t: Tables)
    requires prog == Cuckoo() || prog == Guarded() || prog == MaxTput()
    requires Process(prog, x, t).Done?
    ensures var o := Process(prog, x, t);
            && (o.verdict.abort ==> o.tables == t)
            && (o.verdict.abort <==> o.verdict.reexecute)
            && (o.tables != t ==> NewLimitedFlow(x, t) && o.tables == Installed(t, FlowKey(x.pkt)))
  {
    if x.pkt.codePath == prog.code {
      if prog == Cuckoo() { CuckooMeans(x, t); }
      else if prog == Guarded() { GuardedMeans(x, t); }
      else { MaxTputMeans(x, t); }
    }
  }

  // ---------- keys ----------

  datatype FiveTuple = FiveTuple(srcPort: nat, dstPort: nat, srcAddr: nat, dstAddr: nat, protocol: nat)

  /** The header fields, in network byte order. */
  function TupleOf(p: Packet): FiveTuple {
    FiveTuple(BigEndian(p.l4[..2], 2), BigEndian(p.l4[2..], 2),
              BigEndian(p.ip[12..16], 4), BigEndian(p.ip[16..20], 4), p.ip[9])
  }

  lemma {:induction false} BigEndianPrefix(a: Buffer, n: nat)
    requires n <= |a|
    ensures BigEndian(a[..n], n) == BigEndian(a, n)
    decreases n
  {
    if n > 0 {
      BigEndianPrefix(a, n - 1);
      BigEndianPrefix(a[..n], n - 1);
      assert a[..n][..n - 1] == a[..n - 1];
    }
  }

  lemma {:induction false} BigEndianInjective(a: Buffer, b: Buffer, n: nat)
    requires |a| == n && |b| == n
    ensures BigEndian(a, n) == BigEndian(b, n) <==> a == b
  {
    if n > 0 {
      BigEndianPrefix(a, n - 1);
      BigEndianPrefix(b, n - 1);
      BigEndianInjective(a[..n - 1], b[..n - 1], n - 1);
      assert a == a[..n - 1] + [a[n - 1]] && b == b[..n - 1] + [b[n - 1]];
    }
  }

  lemma Split(a: Buffer, b: Buffer, s: Buffer, t: Buffer)
    requires a + s == b + t && |a| == |b|
    ensures a == b && s == t
  {
    assert a == (a + s)[..|a|] && b == (b + t)[..|b|];
    assert s == (a + s)[|a|..] && t == (b + t)[|b|..];
  }

  lemma KeyBytes(p: Packet)
    ensures FlowKey(p) == p.l4[..2] + (p.l4[2..] + (p.ip[12..16] + (p.ip[16..20] + [p.ip[9]])))
  {
  }

  /** Two packets have the same key exactly when ports, addresses and protocol agree. */
  lemma KeyIsFiveTuple(p: Packet, q: Packet)
    ensures FlowKey(p) == FlowKey(q) <==> TupleOf(p) == TupleOf(q)
  {
    BigEndianInjective(p.l4[..2], q.l4[..2], 2);
    BigEndianInjective(p.l4[2..], q.l4[2..], 2);
    BigEndianInjective(p.ip[12..16], q.ip[12..16], 4);
    BigEndianInjective(p.ip[16..20], q.ip[16..20], 4);
    KeyBytes(p);
    KeyBytes(q);
    if FlowKey(p) == FlowKey(q) {
      Split(p.l4[..2], q.l4[..2], p.l4[2..] + (p.ip[12..16] + (p.ip[16..20] + [p.ip[9]])),
            q.l4[2..] + (q.ip[12..16] + (q.ip[16..20] + [q.ip[9]])));
      Split(p.l4[2..], q.l4[2..], p.ip[12..16] + (p.ip[16..20] + [p.ip[9]]), q.ip[12..16] + (q.ip[16..20] + [q.ip[9]]));
      Split(p.ip[12..16], q.ip[12..16], p.ip[16..20] + [p.ip[9]], q.ip[16..20] + [q.ip[9]]);
      Split(p.ip[16..20], q.ip[16..20], [p.ip[9]], [q.ip[9]]);
    }
  }

  // ---------- the handlers in plain terms ----------

  /** The code paths of the controllers; all other packets are forwarded untouched. */
  lemma OtherPackets(x: Input, t: Tables)
    ensures Cuckoo().code == 4524 && Guarded().code == 5361 && MaxTput().code == 3361
    ensures x.pkt.codePath != 4524 ==> Process(Cuckoo(), x, t) == Done(t, Verdict(true, false, 0, false))
    ensures x.pkt.codePath != 5361 ==> Process(Guarded(), x, t) == Done(t, Verdict(true, false, 0, false))
    ensures x.pkt.codePath != 3361 ==> Process(MaxTput(), x, t) == Done(t, Verdict(true, false, 0, false))
  {
  }

  /** The map key: ports, addresses and protocol, as they stand in the headers. */
  ghost function HeaderKey(x: Input): Buffer {
    x.pkt.l4 + x.pkt.ip[12..20] + [x.pkt.ip[9]]
  }

  lemma HeaderKeyIs(x: Input)
    ensures FlowKey(x.pkt) == HeaderKey(x)
  {
  }

  lemma FourZeros(b: Buffer)
    requires |b| >= 4
    ensures BigEndian(b, 4) == 0 <==> b[..4] == [0, 0, 0, 0]
  {
    var z: Buffer := [0, 0, 0, 0];
    assert BigEndian(z, 1) == 0;
    assert BigEndian(z, 2) == 0;
    assert BigEndian(z, 3) == 0;
    assert BigEndian(z, 4) == 0;
    BigEndianPrefix(b, 4);
    BigEndianInjective(b[..4], z, 4);
  }

  lemma TwoBytes(b: Buffer)
    requires |b| >= 2
    ensures BigEndian(b, 2) == 0x100 * (b[0] as int) + (b[1] as int)
  {
    assert BigEndian(b, 1) == b[0];
  }

  /** Whether a controller lets a new flow of a limited device in. */
  ghost predicate Admits(prog: Program, x: Input, t: Tables) {
    if prog == MaxTput() then x.sketch(x.pkt.ip[12..20]) <= 64
    else x.pkt.minEstimate <= 64 && (prog == Guarded() ==> t.guard == Guard(true))
  }

  lemma MeansReference(prog: Program, x: Input, t: Tables)
    requires prog == Cuckoo() || prog == Guarded() || prog == MaxTput()
    requires x.pkt.codePath == prog.code
    ensures Process(prog, x, t) == Reference(x, t, Admits(prog, x, t), if prog == MaxTput() then DROP else ABORT)
  {
    OtherPackets(x, t);
    if prog == Cuckoo() { CuckooMeans(x, t); }
    else if prog == Guarded() { GuardedMeans(x, t); }
    else { MaxTputMeans(x, t); }
  }

  /** A packet of a device that is not limited, or of a known flow, is sent back to the data plane;
      so is a new flow that is not admitted, except that max-tput drops it. No table changes. */
  lemma NotInstalled(prog: Program, x: Input, t: Tables)
    requires prog == Cuckoo() || prog == Guarded() || prog == MaxTput()
    requires x.pkt.codePath == prog.code
    ensures var d := x.pkt.device;
            if d < |t.devFlags| && |t.devFlags[d]| >= 4 then
              && (t.devFlags[d][..4] != [0, 0, 0, 0] || HeaderKey(x) in t.flows ==>
                    Process(prog, x, t) == Done(t, Verdict(true, true, 0, true)))
              && (t.devFlags[d][..4] == [0, 0, 0, 0] && HeaderKey(x) !in t.flows && !Admits(prog, x, t) ==>
                    Process(prog, x, t) ==
                    Done(t, if prog == MaxTput() then Verdict(false, false, 0, false)
                            else Verdict(true, true, 0, true)))
            else Process(prog, x, t) == Crash
  {
    MeansReference(prog, x, t);
    HeaderKeyIs(x);
    if FlagReadable(t, x.pkt.device) { FourZeros(t.devFlags[x.pkt.device]); }
  }

  /** The tables after an admitted flow: unchanged without a free index, else the least one is
      taken, and the flow is put unless the map is full; a map that this fills turns its guard off. */
  lemma InstalledIs(t: Tables, key: Buffer, i: nat)
    requires key !in t.flows && i in t.free && forall j :: j in t.free ==> i <= j
    ensures Installed(t, key) ==
            if |t.flows| >= t.capacity then t.(free := t.free - {i})
            else t.(free := t.free - {i}, flows := t.flows[key := i],
                    guard := if t.guard.Guard? && |t.flows| + 1 >= t.capacity then Guard(false) else t.guard)
  {
    assert Least(t.free) == i;
    assert t.flows[key := i].Keys == t.flows.Keys + {key};
    assert |t.flows[key := i]| == |t.flows[key := i].Keys| == |t.flows| + 1;
  }

  /** An admitted flow is installed, with or without a free index, and its packet leaves on the
      port stored for its device, or is dropped if that is 65535. */
  lemma InstalledAndSent(prog: Program, x: Input, t: Tables)
    requires prog == Cuckoo() || prog == Guarded() || prog == MaxTput()
    requires x.pkt.codePath == prog.code && Admits(prog, x, t) && HeaderKey(x) !in t.flows
    requires var d := x.pkt.device; d < |t.devFlags| && |t.devFlags[d]| >= 4 && t.devFlags[d][..4] == [0, 0, 0, 0]
    ensures var d := x.pkt.device;
            if d < |t.devPorts| && |t.devPorts[d]| >= 2 then
              var port := 0x100 * (t.devPorts[d][0] as int) + (t.devPorts[d][1] as int);
              var o := Process(prog, x, t);
              && o.Done?
              && o.verdict ==
                 (if port != 65535 then Verdict(true, false, port, false) else Verdict(false, false, 0, false))
              && o.tables == if t.free == {} then t else Installed(t, HeaderKey(x))
            else Process(prog, x, t) == Crash
  {
    MeansReference(prog, x, t);
    HeaderKeyIs(x);
    FourZeros(t.devFlags[x.pkt.device]);
    if PortReadable(t, x.pkt.device) { TwoBytes(t.devPorts[x.pkt.device]); }
  }
}
