/**
 The three nf_process functions in their own form: a controller object whose tables change step
 by step. Each is proved to do what its tree in LimiterPrograms means.
 */
module LimiterController {
  import opened LimiterTrees
  import opened LimiterPrograms
  import opened LimiterRuns

  /** The allocator's constructor: every index is free, inserted from the largest down. */
  method AllIndexes(capacity: nat) returns (indexes: set<nat>)
    ensures indexes == Range(0, capacity)
  {
    indexes := {};
    for i := 0 to capacity
      invariant indexes == Range(capacity - i, capacity)
    {
      RangeCons(capacity - i - 1, capacity);
      indexes := indexes + {capacity - i - 1};
    }
  }

  lemma LeastUnique(s: set<nat>, i: nat)
    requires IsLeast(s, i)
    ensures Least(s) == i
  {
  }

  class Controller {
    const capacity: nat
    var flows: map<Buffer, nat>
    var freeIndexes: set<nat>
    var guard: Guard
    var devFlags: seq<Buffer>
    var devPorts: seq<Buffer>

    ghost function View(): Tables
      reads this
    {
      Tables(flows, capacity, freeIndexes, guard, devFlags, devPorts)
    }

    /** The state constructor followed by the vector writes of nf_init. */
    constructor (capacity: nat, indices: nat, guarded: bool)
      ensures View() == Empty(if guarded then Guarded() else Cuckoo(), capacity, indices, InitFlags(), InitPorts())
    {
      this.capacity := capacity;
      flows, guard := map[], if guarded then Guard(true) else NoGuard;
      devFlags, devPorts := InitFlags(), InitPorts();
      freeIndexes := {};
      new;
      var all := AllIndexes(indices);
      freeIndexes := all;
    }

    method PutEntry(key: Buffer, index: nat)
      modifies this`flows, this`guard
      ensures View() == Put(old(View()), key, index)
    {
      if |flows| >= capacity {
        return;
      }
      flows := flows[key := index];
      if guard.Guard? && |flows| >= capacity {
        guard := Guard(false);
      }
    }

    method AllocateNewIndex() returns (success: bool, index: nat)
      modifies this`freeIndexes
      ensures success <==> old(freeIndexes) != {}
      ensures !success ==> freeIndexes == old(freeIndexes)
      ensures success ==> IsLeast(old(freeIndexes), index) && freeIndexes == old(freeIndexes) - {index}
    {
      if freeIndexes == {} {
        return false, 0;
      }
      index := Least(freeIndexes);
      freeIndexes := freeIndexes - {index};
      success := true;
    }

    /** Branch on the port read for the packet's device. */
    method Leave(port: nat) returns (v: Verdict)
      ensures v == if port != 65535 then Verdict(true, false, port, false) else DROP
    {
      if port != 65535 {
        v := Verdict(true, false, port, false);
      } else {
        v := Verdict(false, false, 0, false);
      }
    }

    /** Borrow the port, branch, and put the flow in both arms. Returns false on a failed
        bounds assertion. */
    method ProcessCuckoo(x: Input) returns (ok: bool, v: Verdict)
      modifies this
      ensures Process(Cuckoo(), x, old(View())) == if ok then Done(View(), v) else Crash
    {
      ghost var t := View();
      v := Verdict(true, false, 0, false);
      if x.pkt.codePath != 4524 {
        return true, v;
      }
      CuckooMeans(x, t);
      var (flag, readable) := ReadVector(devFlags, x.pkt.device, 4);
      if !readable {
        return false, v;
      }
      var found := FlowKey(x.pkt) in flows;
      if flag != 0 || found || x.pkt.minEstimate > 64 {
        return true, Verdict(true, true, 0, true);
      }
      var success, index := AllocateNewIndex();
      var (port, portReadable) := ReadVector(devPorts, x.pkt.device, 2);
      if !portReadable {
        return false, v;
      }
      if !success {
        v := Leave(port);
      } else {
        LeastUnique(t.free, index);
        if port != 65535 {
          PutEntry(FlowKey(x.pkt), index);
          v := Verdict(true, false, port, false);
        } else {
          PutEntry(FlowKey(x.pkt), index);
          v := Verdict(false, false, 0, false);
        }
      }
      ok := true;
    }

    /** Check the guard; borrow the port, put the flow, branch. */
    method ProcessGuarded(x: Input) returns (ok: bool, v: Verdict)
      modifies this
      ensures Process(Guarded(), x, old(View())) == if ok then Done(View(), v) else Crash
    {
      ghost var t := View();
      v := Verdict(true, false, 0, false);
      if x.pkt.codePath != 5361 {
        return true, v;
      }
      GuardedMeans(x, t);
      var (flag, readable) := ReadVector(devFlags, x.pkt.device, 4);
      if !readable {
        return false, v;
      }
      var found := FlowKey(x.pkt) in flows;
      if flag != 0 || found || x.pkt.minEstimate > 64 {
        return true, Verdict(true, true, 0, true);
      }
      if guard != Guard(true) {
        return true, Verdict(true, true, 0, true);
      }
      var success, index := AllocateNewIndex();
      var (port, portReadable) := ReadVector(devPorts, x.pkt.device, 2);
      if !portReadable {
        return false, v;
      }
      if success {
        LeastUnique(t.free, index);
        PutEntry(FlowKey(x.pkt), index);
      }
      v := Leave(port);
      ok := true;
    }

    /** Query the sketch; put the flow, borrow the port, branch. */
    method ProcessMaxTput(x: Input) returns (ok: bool, v: Verdict)
      modifies this
      ensures Process(MaxTput(), x, old(View())) == if ok then Done(View(), v) else Crash
    {
      ghost var t := View();
      v := Verdict(true, false, 0, false);
      if x.pkt.codePath != 3361 {
        return true, v;
      }
      MaxTputMeans(x, t);
      var (flag, readable) := ReadVector(devFlags, x.pkt.device, 4);
      if !readable {
        return false, v;
      }
      var found := FlowKey(x.pkt) in flows;
      if flag != 0 || found {
        return true, Verdict(true, true, 0, true);
      }
      SketchBytes(x.pkt);
      var minEstimate := x.sketch(SketchKey(x.pkt));
      if minEstimate > 64 {
        return true, Verdict(false, false, 0, false);
      }
      var success, index := AllocateNewIndex();
      if success {
        LeastUnique(t.free, index);
        PutEntry(FlowKey(x.pkt), index);
      }
      var (port, portReadable) := ReadVector(devPorts, x.pkt.device, 2);
      if !portReadable {
        return false, v;
      }
      v := Leave(port);
      ok := true;
    }
  }
}
