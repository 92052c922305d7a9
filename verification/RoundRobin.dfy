/**
 Fairness among devices whose pending packets carry the same timestamp
 (synthesized/echo-profiler.cpp, the choice and the last_devs bookkeeping of get_next_packet).

 In a stretch the set T of devices tied at the smallest timestamp stays the same, and so does
 the number q of pending devices, tied or not. Ls[i] is last_devs before the i-th call of the
 stretch and ds[i] the device served. In an ordered run every call iterates the hash table in
 the same order, as it does while no entry is inserted or erased.
 */
module RoundRobin {
  import opened Basics
  import opened PcapReading

  ghost predicate TieStep(T: set<Device>, q: nat, L: set<Device>, d: Device, L': set<Device>) {
    && d in T
    && (T - L != {} ==> d !in L)
    && L' == (if |L| == q then {} else L) + {d}
  }

  ghost predicate TieRun(T: set<Device>, q: nat, Ls: seq<set<Device>>, ds: seq<Device>) {
    && |Ls| == |ds| + 1
    && forall i :: 0 <= i < |ds| ==> TieStep(T, q, Ls[i], ds[i], Ls[i + 1])
  }

  ghost function Devices(ds: seq<Device>): set<Device> {
    set d | d in ds
  }

  /** Every block of |T| successive services covers T, hence serves each device once. */
  ghost predicate BlocksFair(T: set<Device>, ds: seq<Device>)
    requires T != {}
    decreases |ds|
  {
    |ds| >= |T| ==> Devices(ds[..|T|]) == T && BlocksFair(T, ds[|T|..])
  }

  ghost predicate OrderedStep(order: seq<Device>, q: nat, L: set<Device>, d: Device, L': set<Device>) {
    && order != []
    && d == Pick(order, L)
    && L' == (if |L| == q then {} else L) + {d}
  }

  ghost predicate OrderedRun(order: seq<Device>, q: nat, Ls: seq<set<Device>>, ds: seq<Device>) {
    && |Ls| == |ds| + 1
    && forall i :: 0 <= i < |ds| ==> OrderedStep(order, q, Ls[i], ds[i], Ls[i + 1])
  }

  /** Whatever the order of the hash table, all blocks are fair. */
  ghost predicate AlwaysFair(T: set<Device>, q: nat, L: set<Device>)
    requires T != {}
  {
    forall order, Ls, ds ::
      Enumerates(order, T) && OrderedRun(order, q, Ls, ds) && Ls[0] == L ==> BlocksFair(T, ds)
  }

  // ---------- runs ----------

  lemma TieRunFrom(T: set<Device>, q: nat, Ls: seq<set<Device>>, ds: seq<Device>, n: nat)
    requires TieRun(T, q, Ls, ds) && n <= |ds|
    ensures TieRun(T, q, Ls[..n + 1], ds[..n]) && TieRun(T, q, Ls[n..], ds[n..])
  {
  }

  lemma DevicesSnoc(ds: seq<Device>, d: Device)
    ensures Devices(ds + [d]) == Devices(ds) + {d}
  {
  }

  lemma DevicesCons(ds: seq<Device>)
    requires ds != []
    ensures Devices(ds) == {ds[0]} + Devices(ds[1..])
  {
    assert ds == [ds[0]] + ds[1..];
  }

  /** Below |T| entries, last_devs grows by a device not served before. */
  lemma {:induction false} Grow(T: set<Device>, q: nat, Ls: seq<set<Device>>, ds: seq<Device>)
    requires TieRun(T, q, Ls, ds) && |Ls[0]| + |ds| <= |T| <= q
    ensures Ls[|ds|] == Ls[0] + Devices(ds) && |Ls[|ds|]| == |Ls[0]| + |ds|
    decreases |ds|
  {
    if ds != [] {
      var n := |ds| - 1;
      TieRunFrom(T, q, Ls, ds, n);
      Grow(T, q, Ls[..n + 1], ds[..n]);
      SmallerMisses(T, Ls[n]);
      assert TieStep(T, q, Ls[n], ds[n], Ls[n + 1]);
      DevicesSnoc(ds[..n], ds[n]);
      assert ds[..n] + [ds[n]] == ds;
    }
  }

  lemma DevicesTied(T: set<Device>, q: nat, Ls: seq<set<Device>>, ds: seq<Device>)
    requires TieRun(T, q, Ls, ds)
    ensures Devices(ds) <= T
  {
    forall d | d in ds
      ensures d in T
    {
      var i :| 0 <= i < |ds| && ds[i] == d;
      assert TieStep(T, q, Ls[i], ds[i], Ls[i + 1]);
    }
  }

  /** A block that starts from a full or an empty last_devs serves all of T and ends full. */
  lemma FairBlock(T: set<Device>, Ls: seq<set<Device>>, ds: seq<Device>)
    requires T != {} && TieRun(T, |T|, Ls, ds) && |ds| == |T|
    requires Ls[0] == {} || |Ls[0]| == |T|
    ensures Devices(ds) == T && |Ls[|ds|]| == |T|
  {
    var n := |T|;
    assert Ls[n] == {ds[0]} + Devices(ds[1..]) && |Ls[n]| == n by {
      assert TieStep(T, n, Ls[0], ds[0], Ls[1]);
      TieRunFrom(T, n, Ls, ds, 1);
      Grow(T, n, Ls[1..], ds[1..]);
    }
    DevicesCons(ds);
    DevicesTied(T, n, Ls, ds);
    SubsetSize(Devices(ds), T);
  }

  lemma {:induction false} FairForever(T: set<Device>, Ls: seq<set<Device>>, ds: seq<Device>)
    requires T != {} && TieRun(T, |T|, Ls, ds)
    requires Ls[0] == {} || |Ls[0]| == |T|
    ensures BlocksFair(T, ds)
    decreases |ds|
  {
    var k := |T|;
    if |ds| >= k {
      TieRunFrom(T, |T|, Ls, ds, k);
      FairBlock(T, Ls[..k + 1], ds[..k]);
      FairForever(T, Ls[k..], ds[k..]);
    }
  }

  lemma {:induction false} OneDevice(T: set<Device>, q: nat, Ls: seq<set<Device>>, ds: seq<Device>)
    requires |T| == 1 && TieRun(T, q, Ls, ds)
    ensures BlocksFair(T, ds)
    decreases |ds|
  {
    if ds != [] {
      TieRunFrom(T, q, Ls, ds, 1);
      DevicesTied(T, q, Ls[..2], ds[..1]);
      assert ds[0] in Devices(ds[..1]);
      SubsetSize(Devices(ds[..1]), T);
      SubsetSize({ds[0]}, T);
      OneDevice(T, q, Ls[1..], ds[1..]);
    }
  }

  // ---------- ordered runs ----------

  lemma {:induction false} OrderSize(order: seq<Device>, T: set<Device>)
    requires Enumerates(order, T)
    ensures |order| == |T|
    decreases |order|
  {
    if order != [] {
      var n := |order| - 1;
      assert order == order[..n] + [order[n]];
      forall d
        ensures d in order[..n] <==> d in T - {order[n]}
      {
      }
      OrderSize(order[..n], T - {order[n]});
    } else {
      assert T == {};
    }
  }

  lemma OrderedIsTie(T: set<Device>, q: nat, order: seq<Device>, Ls: seq<set<Device>>, ds: seq<Device>)
    requires Enumerates(order, T) && OrderedRun(order, q, Ls, ds)
    ensures TieRun(T, q, Ls, ds)
  {
    OrderSize(order, T);
    forall i | 0 <= i < |ds|
      ensures TieStep(T, q, Ls[i], ds[i], Ls[i + 1])
    {
      assert OrderedStep(order, q, Ls[i], ds[i], Ls[i + 1]);
      PickMember(order, Ls[i]);
      if T - Ls[i] != {} {
        var e :| e in T - Ls[i];
        assert e in order;
      }
    }
  }

  lemma {:induction false} RunOf(order: seq<Device>, q: nat, L: set<Device>, n: nat)
    returns (Ls: seq<set<Device>>, ds: seq<Device>)
    requires order != []
    ensures OrderedRun(order, q, Ls, ds) && Ls[0] == L && |ds| == n
  {
    if n == 0 {
      return [L], [];
    }
    Ls, ds := RunOf(order, q, L, n - 1);
    var M := Ls[n - 1];
    var d := Pick(order, M);
    var M' := (if |M| == q then {} else M) + {d};
    assert OrderedStep(order, q, M, d, M');
    Ls, ds := Ls + [M'], ds + [d];
  }

  /** Once all devices are recent, the first one in the order is served. */
  lemma {:induction false} PickFirst(order: seq<Device>, recent: set<Device>)
    requires order != [] && forall d :: d in order ==> d in recent
    ensures Pick(order, recent) == order[0]
    decreases |order|
  {
    var n := |order| - 1;
    assert order[n] in recent;
    if n > 0 {
      assert order == order[..n] + [order[n]];
      PickFirst(order[..n], recent);
    }
  }

  /** The first device in the order is served only as a last resort. */
  lemma {:induction false} FirstIsLastResort(order: seq<Device>, recent: set<Device>)
    requires order != [] && Pick(order, recent) == order[0]
    requires forall i, j :: 0 <= i < j < |order| ==> order[i] != order[j]
    ensures forall d :: d in order && d != order[0] ==> d in recent
    decreases |order|
  {
    var n := |order| - 1;
    assert order == order[..n] + [order[n]];
    if n > 0 {
      assert order[n] in recent;
      FirstIsLastResort(order[..n], recent);
    }
  }

  lemma {:induction false} OrderWithLast(T: set<Device>, d: Device) returns (order: seq<Device>)
    requires d in T
    ensures Enumerates(order, T) && order[|order| - 1] == d
  {
    order := Enumeration(T - {d});
    EnumeratesSnoc(order, T - {d}, d);
    assert T - {d} + {d} == T;
    order := order + [d];
  }

  lemma OrderWithFirst(T: set<Device>, d: Device) returns (order: seq<Device>)
    requires d in T
    ensures Enumerates(order, T) && order != [] && order[0] == d
  {
    var rest := Enumeration(T - {d});
    order := [d] + rest;
  }

  lemma {:induction false} SameRun(order: seq<Device>, q: nat, Ls: seq<set<Device>>, ds: seq<Device>,
                                   Ms: seq<set<Device>>, es: seq<Device>)
    requires OrderedRun(order, q, Ls, ds) && OrderedRun(order, q, Ms, es) && |ds| == |es| && Ls[0] == Ms[0]
    ensures Ls == Ms && ds == es
    decreases |ds|
  {
    if ds == [] {
      assert Ls == [Ls[0]] && Ms == [Ms[0]];
    } else {
      var n := |ds| - 1;
      SameRun(order, q, Ls[..n + 1], ds[..n], Ms[..n + 1], es[..n]);
      assert Ls[..n + 1][n] == Ls[n] && Ms[..n + 1][n] == Ms[n];
      assert OrderedStep(order, q, Ls[n], ds[n], Ls[n + 1]) && OrderedStep(order, q, Ms[n], es[n], Ms[n + 1]);
      assert ds == ds[..n] + [ds[n]] && es == es[..n] + [es[n]];
      assert Ls == Ls[..n + 1] + [Ls[n + 1]] && Ms == Ms[..n + 1] + [Ms[n + 1]];
    }
  }

  // ---------- starvation ----------

  /** Some pending device is not tied, or last_devs has more entries than devices are pending. */
  ghost predicate Overlarge(T: set<Device>, q: nat, L: set<Device>) {
    |T| < q || q < |L|
  }

  /** All tied devices are recent and nothing clears last_devs. */
  ghost predicate Stuck(T: set<Device>, q: nat, L: set<Device>) {
    T <= L && |L| != q
  }

  /** How many calls may pass before the stretch is stuck. */
  ghost function Debt(T: set<Device>, L: set<Device>): nat {
    |T - L| + if L <= T then 0 else |T|
  }

  lemma SettleCleared(T: set<Device>, q: nat, L: set<Device>, d: Device)
    requires |T| < q == |L| && d in T
    ensures Debt(T, {d}) < Debt(T, L)
  {
    if L <= T { SubsetSize(L, T); }
    assert |T - {d}| == |T| - 1;
  }

  lemma SettleStep(T: set<Device>, q: nat, L: set<Device>, d: Device, L': set<Device>)
    requires |T| <= q && Overlarge(T, q, L) && TieStep(T, q, L, d, L')
    ensures Overlarge(T, q, L')
    ensures Stuck(T, q, L) ==> L' == L
    ensures Stuck(T, q, L') || Debt(T, L') < Debt(T, L)
  {
    if |L| == q {
      SettleCleared(T, q, L, d);
    } else if T - L != {} {
      assert T - L' == T - L - {d};
      SubsetSize(L, L');
    } else {
      NoneMissing(T, L);
      assert L' == L;
    }
  }

  lemma {:induction false} Settles(T: set<Device>, q: nat, Ls: seq<set<Device>>, ds: seq<Device>)
    requires |T| <= q && TieRun(T, q, Ls, ds) && Overlarge(T, q, Ls[0])
    ensures Overlarge(T, q, Ls[|ds|])
    ensures Stuck(T, q, Ls[|ds|]) || Debt(T, Ls[|ds|]) + |ds| <= Debt(T, Ls[0])
    decreases |ds|
  {
    if ds != [] {
      var n := |ds| - 1;
      TieRunFrom(T, q, Ls, ds, n);
      Settles(T, q, Ls[..n + 1], ds[..n]);
      assert TieStep(T, q, Ls[n], ds[n], Ls[n + 1]);
      SettleStep(T, q, Ls[n], ds[n], Ls[n + 1]);
    }
  }

  lemma DebtZero(T: set<Device>, L: set<Device>)
    requires T != {}
    ensures Debt(T, L) == 0 ==> L == T
  {
    SizePositive(T);
    if Debt(T, L) == 0 {
      assert T - L == {};
      NoneMissing(T, L);
    }
  }

  /** After Debt calls the stretch is stuck. */
  lemma StuckAt(T: set<Device>, q: nat, Ls: seq<set<Device>>, ds: seq<Device>, i: nat)
    requires T != {} && |T| <= q && TieRun(T, q, Ls, ds) && Overlarge(T, q, Ls[0])
    requires Debt(T, Ls[0]) <= i <= |ds|
    ensures Stuck(T, q, Ls[i])
  {
    TieRunFrom(T, q, Ls, ds, i);
    Settles(T, q, Ls[..i + 1], ds[..i]);
    DebtZero(T, Ls[i]);
  }

  lemma DebtBound(T: set<Device>, L: set<Device>)
    ensures Debt(T, L) <= 2 * |T|
    ensures L <= T ==> Debt(T, L) <= |T|
  {
    SubsetSize(T - L, T);
  }

  /** Starvation: if a pending device is not tied, or stale devices fill last_devs, then after
      at most two calls per tied device only the first tied device of the order is served. */
  lemma Starve(T: set<Device>, q: nat, order: seq<Device>, Ls: seq<set<Device>>, ds: seq<Device>, i: nat)
    requires T != {} && |T| <= q
    requires Enumerates(order, T) && order != [] && OrderedRun(order, q, Ls, ds)
    requires Overlarge(T, q, Ls[0]) && Debt(T, Ls[0]) <= i < |ds|
    ensures ds[i] == order[0]
  {
    OrderedIsTie(T, q, order, Ls, ds);
    StuckAt(T, q, Ls, ds, i);
    assert OrderedStep(order, q, Ls[i], ds[i], Ls[i + 1]);
    PickFirst(order, Ls[i]);
  }

  // ---------- unfair runs ----------

  ghost predicate UnfairRun(T: set<Device>, q: nat, L: set<Device>, order: seq<Device>,
                            Ls: seq<set<Device>>, ds: seq<Device>)
    requires T != {}
  {
    && Enumerates(order, T) && OrderedRun(order, q, Ls, ds) && Ls[0] == L
    && |ds| <= 3 * |T| && !BlocksFair(T, ds)
  }

  lemma {:induction false} DistinctSize(ds: seq<Device>)
    ensures |Devices(ds)| <= |ds|
    decreases |ds|
  {
    if ds != [] {
      var n := |ds| - 1;
      DistinctSize(ds[..n]);
      DevicesSnoc(ds[..n], ds[n]);
      assert ds[..n] + [ds[n]] == ds;
    }
  }

  lemma DuplicateSize(ds: seq<Device>, i: nat, j: nat)
    requires i < j < |ds| && ds[i] == ds[j]
    ensures |Devices(ds)| < |ds|
  {
    var rest := ds[..j] + ds[j + 1..];
    assert Devices(rest) == Devices(ds) by {
      forall d | d in ds
        ensures d in rest
      {
        var m :| 0 <= m < |ds| && ds[m] == d;
        var m' := if m == j then i else m;
        assert rest[if m' < j then m' else m' - 1] == d;
      }
    }
    DistinctSize(rest);
  }

  /** Serving a device twice makes a block unfair. */
  lemma RepeatBreaks(T: set<Device>, ds: seq<Device>, i: nat, j: nat)
    requires T != {} && |ds| == |T| && i < j < |T| && ds[i] == ds[j]
    ensures !BlocksFair(T, ds)
  {
    assert ds[..|T|] == ds;
    DuplicateSize(ds, i, j);
  }

  /** One device served throughout the third block. */
  lemma ThirdBlockUnfair(T: set<Device>, ds: seq<Device>, d: Device)
    requires |T| >= 2 && |ds| == 3 * |T|
    requires forall i :: 2 * |T| <= i < |ds| ==> ds[i] == d
    ensures !BlocksFair(T, ds)
  {
    var k := |T|;
    var b := ds[k..][k..];
    assert b == ds[2 * k..];
    assert b[0] == ds[2 * k] && b[1] == ds[2 * k + 1];
    RepeatBreaks(T, b, 0, 1);
    assert !BlocksFair(T, ds[k..]);
  }

  lemma UnfairStarve(T: set<Device>, q: nat, L: set<Device>)
    returns (order: seq<Device>, Ls: seq<set<Device>>, ds: seq<Device>)
    requires 2 <= |T| <= q && Overlarge(T, q, L)
    ensures UnfairRun(T, q, L, order, Ls, ds)
  {
    order := Enumeration(T);
    OrderSize(order, T);
    Ls, ds := RunOf(order, q, L, 3 * |T|);
    DebtBound(T, L);
    forall i | 2 * |T| <= i < |ds|
      ensures ds[i] == order[0]
    {
      Starve(T, q, order, Ls, ds, i);
    }
    ThirdBlockUnfair(T, ds, order[0]);
  }

  /** A partial last_devs among the pending devices is filled before the block ends; then the
      first device of the order is served a second time. */
  lemma UnfairInside(T: set<Device>, L: set<Device>)
    returns (order: seq<Device>, Ls: seq<set<Device>>, ds: seq<Device>)
    requires L != {} && L <= T && |L| < |T|
    ensures UnfairRun(T, |T|, L, order, Ls, ds)
  {
    SmallerMisses(T, L);
    var p :| p in T - L;
    order := OrderWithFirst(T, p);
    OrderSize(order, T);
    var n := |T| - |L|;
    SizePositive(L);
    Ls, ds := RunOf(order, |T|, L, |T|);
    OrderedIsTie(T, |T|, order, Ls, ds);
    TieRunFrom(T, |T|, Ls, ds, n);
    Grow(T, |T|, Ls[..n + 1], ds[..n]);
    DevicesTied(T, |T|, Ls[..n + 1], ds[..n]);
    SubsetSize(Ls[n], T);
    assert p in Devices(ds[..n]);
    var i :| 0 <= i < n && ds[..n][i] == p;
    assert OrderedStep(order, |T|, Ls[n], ds[n], Ls[n + 1]);
    PickFirst(order, Ls[n]);
    RepeatBreaks(T, ds, i, n);
  }

  lemma StaleLeavesOne(T: set<Device>, L: set<Device>, M: set<Device>)
    requires !(L <= T) && L <= M && |M| == |T|
    ensures T - M != {}
  {
    if T - M == {} {
      NoneMissing(T, M);
      SubsetSize(T, M);
    }
  }

  /** With two or more entries, some of them stale, last_devs is cleared before the block ends;
      then the last device of the order is served a second time. */
  lemma UnfairStale(T: set<Device>, L: set<Device>)
    returns (order: seq<Device>, Ls: seq<set<Device>>, ds: seq<Device>)
    requires 2 <= |L| < |T| && !(L <= T)
    ensures UnfairRun(T, |T|, L, order, Ls, ds)
  {
    SmallerMisses(T, L);
    var last :| last in T - L;
    order := OrderWithLast(T, last);
    OrderSize(order, T);
    var n := |T| - |L|;
    Ls, ds := RunOf(order, |T|, L, |T|);
    OrderedIsTie(T, |T|, order, Ls, ds);
    TieRunFrom(T, |T|, Ls, ds, n);
    Grow(T, |T|, Ls[..n + 1], ds[..n]);
    assert OrderedStep(order, |T|, Ls[0], ds[0], Ls[1]);
    assert ds[0] == last && ds[..n][0] == last;
    assert last in Ls[n];
    StaleLeavesOne(T, L, Ls[n]);
    assert TieStep(T, |T|, Ls[n], ds[n], Ls[n + 1]);
    assert Ls[n + 1] == {ds[n]} && ds[n] != last;
    assert OrderedStep(order, |T|, Ls[n + 1], ds[n + 1], Ls[n + 2]);
    assert ds[n + 1] == last;
    RepeatBreaks(T, ds, 0, n + 1);
  }

  // ---------- the one fair case with a stale device ----------

  /** One cycle of the fair case: from {first}, all others are served and then first. */
  lemma FirstCycle(T: set<Device>, order: seq<Device>, Ls: seq<set<Device>>, ds: seq<Device>)
    requires Enumerates(order, T) && order != [] && OrderedRun(order, |T|, Ls, ds) && |ds| == |T|
    requires Ls[0] == {order[0]}
    ensures Devices(ds) == T && Ls[|ds|] == {order[0]}
  {
    OrderSize(order, T);
    OrderedIsTie(T, |T|, order, Ls, ds);
    var n := |T| - 1;
    TieRunFrom(T, |T|, Ls, ds, n);
    Grow(T, |T|, Ls[..n + 1], ds[..n]);
    DevicesTied(T, |T|, Ls, ds);
    DevicesTied(T, |T|, Ls[..n + 1], ds[..n]);
    SubsetSize(Ls[n], T);
    assert OrderedStep(order, |T|, Ls[n], ds[n], Ls[n + 1]);
    PickFirst(order, Ls[n]);
    DevicesSnoc(ds[..n], ds[n]);
    assert ds[..n] + [ds[n]] == ds;
  }

  lemma {:induction false} FirstForever(T: set<Device>, order: seq<Device>, Ls: seq<set<Device>>, ds: seq<Device>)
    requires T != {} && Enumerates(order, T) && order != [] && OrderedRun(order, |T|, Ls, ds) && Ls[0] == {order[0]}
    ensures BlocksFair(T, ds)
    decreases |ds|
  {
    var k := |T|;
    if |ds| >= k {
      FirstCycle(T, order, Ls[..k + 1], ds[..k]);
      FirstForever(T, order, Ls[k..], ds[k..]);
    }
  }

  /** The first of the order is not served while two or more devices are not recent. */
  lemma NotBeforeLast(T: set<Device>, order: seq<Device>, Ls: seq<set<Device>>, ds: seq<Device>)
    requires Enumerates(order, T) && order != [] && OrderedRun(order, |T|, Ls, ds) && |ds| < |T|
    requires |Ls[0]| == 1 && Ls[0] !! T
    ensures order[0] !in ds
  {
    OrderSize(order, T);
    OrderedIsTie(T, |T|, order, Ls, ds);
    forall i | 0 <= i < |ds|
      ensures ds[i] != order[0]
    {
      TieRunFrom(T, |T|, Ls, ds, i);
      Grow(T, |T|, Ls[..i + 1], ds[..i]);
      DistinctSize(ds[..i]);
      assert OrderedStep(order, |T|, Ls[i], ds[i], Ls[i + 1]);
      if ds[i] == order[0] {
        FirstIsLastResort(order, Ls[i]);
        assert T - {order[0]} <= Devices(ds[..i]);
        SubsetSize(T - {order[0]}, Devices(ds[..i]));
        assert false;
      }
    }
  }

  /** The first cycle from one stale device: all of T is served, the first of the order last. */
  lemma StaleCycle(T: set<Device>, order: seq<Device>, Ls: seq<set<Device>>, ds: seq<Device>)
    requires Enumerates(order, T) && order != [] && OrderedRun(order, |T|, Ls, ds) && |ds| == |T|
    requires |Ls[0]| == 1 && Ls[0] !! T
    ensures Devices(ds) == T && Ls[|ds|] == {order[0]}
  {
    OrderSize(order, T);
    OrderedIsTie(T, |T|, order, Ls, ds);
    var n := |T| - 1;
    TieRunFrom(T, |T|, Ls, ds, n);
    Grow(T, |T|, Ls[..n + 1], ds[..n]);
    DevicesTied(T, |T|, Ls, ds);
    assert TieStep(T, |T|, Ls[n], ds[n], Ls[n + 1]);
    StaleLeavesOne(T, Ls[0], Ls[n]);
    DevicesSnoc(ds[..n], ds[n]);
    assert ds[..n] + [ds[n]] == ds;
    assert Devices(ds[..n]) == Ls[n] - Ls[0];
    assert |Devices(ds[..n])| == n by { assert Ls[n] == Ls[0] + Devices(ds[..n]); }
    SubsetSize(Devices(ds), T);
    if order[0] in Devices(ds[..n]) {
      NotBeforeLast(T, order, Ls[..n + 1], ds[..n]);
    }
    assert order[0] in T;
  }

  lemma StaleFair(T: set<Device>, order: seq<Device>, Ls: seq<set<Device>>, ds: seq<Device>)
    requires T != {} && Enumerates(order, T) && OrderedRun(order, |T|, Ls, ds)
    requires |Ls[0]| == 1 && Ls[0] !! T
    ensures BlocksFair(T, ds)
  {
    var k := |T|;
    OrderSize(order, T);
    if |ds| >= k {
      StaleCycle(T, order, Ls[..k + 1], ds[..k]);
      FirstForever(T, order, Ls[k..], ds[k..]);
    }
  }

  // ---------- the characterisation ----------

  /** The last_devs from which a stretch is served fairly, by the number of pending devices. */
  ghost predicate FairStart(T: set<Device>, q: nat, L: set<Device>) {
    |T| == 1 || (|T| == q && (L == {} || |L| == q || (|L| == 1 && L !! T)))
  }

  lemma FairRun(T: set<Device>, q: nat, order: seq<Device>, Ls: seq<set<Device>>, ds: seq<Device>)
    requires T != {} && Enumerates(order, T) && OrderedRun(order, q, Ls, ds) && FairStart(T, q, Ls[0])
    ensures BlocksFair(T, ds)
  {
    OrderedIsTie(T, q, order, Ls, ds);
    if |T| == 1 { OneDevice(T, q, Ls, ds); }
    else if Ls[0] == {} || |Ls[0]| == q { FairForever(T, Ls, ds); }
    else { StaleFair(T, order, Ls, ds); }
  }

  lemma OneStale(T: set<Device>, L: set<Device>)
    requires |L| == 1 && !(L <= T)
    ensures L !! T
  {
    var d :| d in L && d !in T;
    SubsetSize({d}, L);
  }

  lemma UnfairWitness(T: set<Device>, q: nat, L: set<Device>)
    returns (order: seq<Device>, Ls: seq<set<Device>>, ds: seq<Device>)
    requires T != {} && |T| <= q && !FairStart(T, q, L)
    ensures UnfairRun(T, q, L, order, Ls, ds)
  {
    SizePositive(T);
    if Overlarge(T, q, L) {
      order, Ls, ds := UnfairStarve(T, q, L);
    } else if L <= T {
      order, Ls, ds := UnfairInside(T, L);
    } else {
      SizePositive(L);
      if |L| == 1 { OneStale(T, L); }
      order, Ls, ds := UnfairStale(T, L);
    }
  }

  /** A stretch of ties is served round robin, whatever the order of the hash table, exactly
      when one device is tied, or when all pending devices are tied and the stretch starts with
      last_devs empty, as large as the set of pending devices, or a single stale device. */
  lemma RoundRobinExact(T: set<Device>, q: nat, L: set<Device>)
    requires T != {} && |T| <= q
    ensures AlwaysFair(T, q, L) <==> FairStart(T, q, L)
  {
    if FairStart(T, q, L) {
      forall order, Ls, ds | Enumerates(order, T) && OrderedRun(order, q, Ls, ds) && Ls[0] == L
        ensures BlocksFair(T, ds)
      {
        FairRun(T, q, order, Ls, ds);
      }
    } else {
      var order, Ls, ds := UnfairWitness(T, q, L);
    }
  }

  /** The other side of Starve: with all pending devices tied and no more of them in last_devs,
      the blocks are fair from the call on that fills last_devs, even if the order changes. */
  lemma FairOnceFilled(T: set<Device>, Ls: seq<set<Device>>, ds: seq<Device>)
    requires T != {} && TieRun(T, |T|, Ls, ds) && |Ls[0]| <= |T| <= |Ls[0]| + |ds|
    ensures BlocksFair(T, ds[|T| - |Ls[0]|..])
  {
    var n := |T| - |Ls[0]|;
    TieRunFrom(T, |T|, Ls, ds, n);
    Grow(T, |T|, Ls[..n + 1], ds[..n]);
    FairForever(T, Ls[n..], ds[n..]);
  }
}
