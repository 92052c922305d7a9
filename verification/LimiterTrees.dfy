/**
 The connection limiter as operation trees over its tables.

 The compiled controllers (synthesized/cl-*.cpp, nf_process) are straight-line table operations
 under nested conditions. `Tree` is that shape, `Run` its meaning, and `Factor` and `Commute`
 are the reorderings the compiler applies: they keep the meaning of every tree.
 The tables behave as in libsycon/include/sycon/data_structures.
 */
module LimiterTrees {
  import opened Basics
  import opened PcapReading

  type Buffer = seq<Byte>

  /** The guard register exists only in the guarded map table. */
  datatype Guard = NoGuard | Guard(allow: bool)

  datatype Tables = Tables(
    flows: map<Buffer, nat>,      // flow key to allocated index
    capacity: nat,                // of the flow map
    free: set<nat>,               // indices the allocator has left
    guard: Guard,
    devFlags: seq<Buffer>,        // per device: 0 if its flows are limited
    devPorts: seq<Buffer>)        // per device: where its packets go, 65535 for nowhere

  /** A packet punted to the controller: the fields of the CPU headers and the bytes of the
      IPv4 header and of the transport ports. */
  datatype CpuPacket = CpuPacket(codePath: nat, device: nat, minEstimate: nat, ip: Buffer, l4: Buffer)

  type Packet = p: CpuPacket | |p.ip| == 20 && |p.l4| == 4
    witness CpuPacket(0, 0, 0, seq(20, i => 0), seq(4, i => 0))

  /** A packet and what the count-min sketch would answer for each key while it is processed. */
  datatype Input = Input(pkt: Packet, sketch: Buffer -> nat)

  /** The map key built from a packet: ports, addresses, protocol. */
  function FlowKey(p: Packet): Buffer {
    [p.l4[0], p.l4[1], p.l4[2], p.l4[3],
     p.ip[12], p.ip[13], p.ip[14], p.ip[15], p.ip[16], p.ip[17], p.ip[18], p.ip[19],
     p.ip[9]]
  }

  /** The sketch key: source and destination address. */
  function SketchKey(p: Packet): Buffer {
    [p.ip[12], p.ip[13], p.ip[14], p.ip[15], p.ip[16], p.ip[17], p.ip[18], p.ip[19]]
  }

  /** The sketch is asked for the source and destination addresses, as they stand in the header. */
  lemma SketchBytes(p: Packet)
    ensures SketchKey(p) == p.ip[12..20]
  {
  }

  /** buffer_t::get(0, width): the leading bytes, most significant first. */
  function BigEndian(b: Buffer, width: nat): nat
    requires width <= |b|
  {
    if width == 0 then 0 else 0x100 * BigEndian(b, width - 1) + b[width - 1]
  }

  predicate IsLeast(s: set<nat>, x: nat) {
    x in s && forall y :: y in s ==> x <= y
  }

  lemma {:induction false} LeastExists(s: set<nat>)
    requires s != {}
    ensures exists x :: IsLeast(s, x)
    decreases |s|
  {
    var x :| x in s;
    if y :| y in s && y < x {
      LeastExists(s - {x});
      var z :| IsLeast(s - {x}, z);
      assert y in s - {x} && z <= y;
      forall w | w in s
        ensures z <= w
      {
        assert w == x || w in s - {x};
      }
      assert IsLeast(s, z);
    } else {
      assert IsLeast(s, x);
    }
  }

  /** *free_indexes.begin() of an ordered set. */
  function Least(s: set<nat>): (x: nat)
    requires s != {}
    ensures IsLeast(s, x)
  {
    LeastExists(s);
    var x :| x in s && forall y :: y in s ==> x <= y;
    x
  }

  /** put: ignored by a full map; filling a guarded map turns its guard off. */
  function Put(t: Tables, key: Buffer, index: nat): Tables {
    if |t.flows| >= t.capacity then t
    else
      var flows := t.flows[key := index];
      t.(flows := flows,
         guard := if t.guard.Guard? && |flows| >= t.capacity then Guard(false) else t.guard)
  }

  // ---------- trees ----------

  datatype Op = ReadFlag | Lookup | ReadEstimate | QuerySketch | CheckGuard | Allocate | ReadPort | PutFlow

  datatype Cond = FlagClear | NotFound | EstimateLow | GuardAllows | NoIndex | HasPort

  datatype Tree = Do(op: Op, next: Tree) | If(cond: Cond, yes: Tree, no: Tree) | Forward | Drop | Abort

  /** The local variables of nf_process. */
  datatype Locals = Locals(flag: nat, found: bool, estimate: nat, allowed: bool, success: bool, index: nat, port: nat)

  const NO_LOCALS := Locals(0, false, 0, false, false, 0, 0)

  /** What nf_process leaves in its result and in the CPU header (egress big-endian there). */
  datatype Verdict = Verdict(forward: bool, abort: bool, egress: nat, reexecute: bool)

  /** Crash is a failed bounds assertion of a vector or buffer access. */
  datatype Outcome = Crash | Done(tables: Tables, verdict: Verdict)

  datatype Step = Fail | Ok(tables: Tables, locals: Locals)

  function ReadVector(v: seq<Buffer>, device: nat, width: nat): (int, bool) {
    if device < |v| && width <= |v[device]| then (BigEndian(v[device], width), true) else (0, false)
  }

  function Apply(op: Op, x: Input, t: Tables, l: Locals): Step {
    match op
    case ReadFlag =>
      var (flag, ok) := ReadVector(t.devFlags, x.pkt.device, 4);
      if ok then Ok(t, l.(flag := flag)) else Fail
    case Lookup => Ok(t, l.(found := FlowKey(x.pkt) in t.flows))
    case ReadEstimate => Ok(t, l.(estimate := x.pkt.minEstimate))
    case QuerySketch => Ok(t, l.(estimate := x.sketch(SketchKey(x.pkt))))
    case CheckGuard => Ok(t, l.(allowed := t.guard.Guard? && t.guard.allow))
    case Allocate =>
      if t.free == {} then Ok(t, l.(success := false))
      else Ok(t.(free := t.free - {Least(t.free)}), l.(success := true, index := Least(t.free)))
    case ReadPort =>
      var (port, ok) := ReadVector(t.devPorts, x.pkt.device, 2);
      if ok then Ok(t, l.(port := port)) else Fail
    case PutFlow => Ok(Put(t, FlowKey(x.pkt), l.index), l)
  }

  predicate Holds(c: Cond, l: Locals) {
    match c
    case FlagClear => l.flag == 0
    case NotFound => !l.found
    case EstimateLow => l.estimate <= 64
    case GuardAllows => l.allowed
    case NoIndex => !l.success
    case HasPort => l.port != 65535
  }

  function Run(tree: Tree, x: Input, t: Tables, l: Locals): Outcome {
    match tree
    case Do(op, next) =>
      (match Apply(op, x, t, l)
       case Fail => Crash
       case Ok(t', l') => Run(next, x, t', l'))
    case If(c, yes, no) => if Holds(c, l) then Run(yes, x, t, l) else Run(no, x, t, l)
    case Forward => Done(t, Verdict(true, false, l.port, false))
    case Drop => Done(t, Verdict(false, false, 0, false))
    case Abort => Done(t, Verdict(true, true, 0, true))
  }

  lemma RunDo(op: Op, next: Tree, x: Input, t: Tables, l: Locals)
    ensures var s := Apply(op, x, t, l);
            Run(Do(op, next), x, t, l) == if s.Ok? then Run(next, x, s.tables, s.locals) else Crash
  {
  }

  lemma RunIf(c: Cond, yes: Tree, no: Tree, x: Input, t: Tables, l: Locals)
    ensures Run(If(c, yes, no), x, t, l) == if Holds(c, l) then Run(yes, x, t, l) else Run(no, x, t, l)
  {
  }

  // ---------- reorderings that keep the meaning of every tree ----------

  /** What an operation reads and writes, among tables and locals. */
  datatype Cell = Flows | Free | GuardReg | Flag | Found | Estimate | Allowed | Index | Port

  function Reads(op: Op): set<Cell> {
    match op
    case Lookup => {Flows}
    case CheckGuard => {GuardReg}
    case Allocate => {Free}
    case PutFlow => {Flows, GuardReg, Index}
    case _ => {}
  }

  function Writes(op: Op): set<Cell> {
    match op
    case ReadFlag => {Flag}
    case Lookup => {Found}
    case ReadEstimate => {Estimate}
    case QuerySketch => {Estimate}
    case CheckGuard => {Allowed}
    case Allocate => {Free, Index}
    case ReadPort => {Port}
    case PutFlow => {Flows, GuardReg}
  }

  function Tests(c: Cond): Cell {
    match c
    case FlagClear => Flag
    case NotFound => Found
    case EstimateLow => Estimate
    case GuardAllows => Allowed
    case NoIndex => Index
    case HasPort => Port
  }

  predicate Independent(a: Op, b: Op) {
    && Writes(a) !! Reads(b)
    && Writes(a) !! Writes(b)
    && Writes(b) !! Reads(a)
  }

  /** The operations that interfere, listed. */
  ghost predicate Clash(a: Op, b: Op) {
    || a == b
    || (a.PutFlow? && (b.Lookup? || b.CheckGuard? || b.Allocate?))
    || (a.ReadEstimate? && b.QuerySketch?)
  }

  lemma IndependentDontClash(a: Op, b: Op)
    requires Independent(a, b)
    ensures !Clash(a, b) && !Clash(b, a)
  {
    assert Flows in Writes(PutFlow) && Flows in Reads(Lookup);
    assert GuardReg in Writes(PutFlow) && GuardReg in Reads(CheckGuard);
    assert Index in Writes(Allocate) && Index in Reads(PutFlow);
    assert Estimate in Writes(ReadEstimate) && Estimate in Writes(QuerySketch);
    assert exists c :: c in Writes(a);
  }

  ghost function Then(s: Step, op: Op, x: Input): Step {
    match s
    case Fail => Fail
    case Ok(t, l) => Apply(op, x, t, l)
  }

  lemma CommuteTable(a: Op, b: Op, x: Input, t: Tables, l: Locals)
    requires !Clash(a, b) && !Clash(b, a) && (a.Allocate? || a.PutFlow?)
    ensures Then(Apply(a, x, t, l), b, x) == Then(Apply(b, x, t, l), a, x)
  {
  }

  lemma CommuteLocals(a: Op, b: Op, x: Input, t: Tables, l: Locals)
    requires !Clash(a, b) && !Clash(b, a)
    requires !a.Allocate? && !a.PutFlow? && !b.Allocate? && !b.PutFlow?
    ensures Then(Apply(a, x, t, l), b, x) == Then(Apply(b, x, t, l), a, x)
  {
  }

  lemma CommuteSteps(a: Op, b: Op, x: Input, t: Tables, l: Locals)
    requires !Clash(a, b) && !Clash(b, a)
    ensures Then(Apply(a, x, t, l), b, x) == Then(Apply(b, x, t, l), a, x)
  {
    if a.Allocate? || a.PutFlow? {
      CommuteTable(a, b, x, t, l);
    } else if b.Allocate? || b.PutFlow? {
      CommuteTable(b, a, x, t, l);
    } else {
      CommuteLocals(a, b, x, t, l);
    }
  }

  /** Two operations that touch each other's cells in no way may be swapped. */
  lemma Commute(a: Op, b: Op, tree: Tree, x: Input, t: Tables, l: Locals)
    requires Independent(a, b)
    ensures Run(Do(a, Do(b, tree)), x, t, l) == Run(Do(b, Do(a, tree)), x, t, l)
  {
    IndependentDontClash(a, b);
    CommuteSteps(a, b, x, t, l);
  }

  /** Pull operations that both arms start with in front of the condition, where the condition
      does not depend on them. */
  function FactorIf(c: Cond, yes: Tree, no: Tree): Tree
    decreases yes
  {
    if yes.Do? && no.Do? && yes.op == no.op && Tests(c) !in Writes(yes.op)
    then Do(yes.op, FactorIf(c, yes.next, no.next))
    else If(c, yes, no)
  }

  function Factor(tree: Tree): Tree {
    match tree
    case Do(op, next) => Do(op, Factor(next))
    case If(c, yes, no) => FactorIf(c, Factor(yes), Factor(no))
    case _ => tree
  }

  lemma ApplyKeepsTest(op: Op, c: Cond, x: Input, t: Tables, l: Locals)
    requires Tests(c) !in Writes(op) && Apply(op, x, t, l).Ok?
    ensures Holds(c, Apply(op, x, t, l).locals) == Holds(c, l)
  {
  }

  lemma {:induction false} FactorIfKeeps(c: Cond, yes: Tree, no: Tree, x: Input, t: Tables, l: Locals)
    ensures Run(FactorIf(c, yes, no), x, t, l) == Run(If(c, yes, no), x, t, l)
    decreases yes
  {
    if yes.Do? && no.Do? && yes.op == no.op && Tests(c) !in Writes(yes.op) {
      var s := Apply(yes.op, x, t, l);
      if s.Ok? {
        ApplyKeepsTest(yes.op, c, x, t, l);
        FactorIfKeeps(c, yes.next, no.next, x, s.tables, s.locals);
      }
    }
  }

  /** Factoring changes the result of no run. */
  lemma {:induction false} FactorKeeps(tree: Tree, x: Input, t: Tables, l: Locals)
    ensures Run(Factor(tree), x, t, l) == Run(tree, x, t, l)
    decreases tree
  {
    match tree {
      case Do(op, next) =>
        var s := Apply(op, x, t, l);
        if s.Ok? { FactorKeeps(next, x, s.tables, s.locals); }
      case If(c, yes, no) =>
        FactorIfKeeps(c, Factor(yes), Factor(no), x, t, l);
        FactorKeeps(yes, x, t, l);
        FactorKeeps(no, x, t, l);
      case _ =>
    }
  }

  function Ops(tree: Tree): nat {
    match tree
    case Do(_, next) => 1 + Ops(next)
    case If(_, yes, no) => Ops(yes) + Ops(no)
    case _ => 0
  }

  lemma {:induction false} FactorIfShrinks(c: Cond, yes: Tree, no: Tree)
    ensures Ops(FactorIf(c, yes, no)) <= Ops(yes) + Ops(no)
    decreases yes
  {
    if yes.Do? && no.Do? && yes.op == no.op && Tests(c) !in Writes(yes.op) {
      FactorIfShrinks(c, yes.next, no.next);
    }
  }

  /** Factoring never makes a tree larger. */
  lemma {:induction false} FactorShrinks(tree: Tree)
    ensures Ops(Factor(tree)) <= Ops(tree)
  {
    match tree {
      case Do(_, next) => FactorShrinks(next);
      case If(c, yes, no) =>
        FactorShrinks(yes);
        FactorShrinks(no);
        FactorIfShrinks(c, Factor(yes), Factor(no));
      case _ =>
    }
  }

  // ---------- the guard is invisible to trees that do not check it ----------

  predicate Unguarded(tree: Tree) {
    match tree
    case Do(op, next) => op != CheckGuard && Unguarded(next)
    case If(_, yes, no) => Unguarded(yes) && Unguarded(no)
    case _ => true
  }

  ghost function Erased(t: Tables): Tables {
    t.(guard := NoGuard)
  }

  ghost function ErasedOutcome(o: Outcome): Outcome {
    match o
    case Crash => Crash
    case Done(t, v) => Done(Erased(t), v)
  }

  /** Erasing the guard before the run or after it makes no difference. */
  lemma {:induction false} GuardInvisible(tree: Tree, x: Input, t: Tables, l: Locals)
    requires Unguarded(tree)
    ensures ErasedOutcome(Run(tree, x, t, l)) == Run(tree, x, Erased(t), l)
    decreases tree
  {
    match tree {
      case Do(op, next) =>
        var s, e := Apply(op, x, t, l), Apply(op, x, Erased(t), l);
        assert s.Fail? == e.Fail?;
        if s.Ok? {
          assert e == Ok(Erased(s.tables), s.locals);
          GuardInvisible(next, x, s.tables, s.locals);
        }
      case If(c, yes, no) =>
        GuardInvisible(yes, x, t, l);
        GuardInvisible(no, x, t, l);
      case _ =>
    }
  }
}
