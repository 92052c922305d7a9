/**
 Per-map statistics cut into epochs (synthesized/echo-profiler.cpp, struct MapStats).

 A MapStats object owns its Stats objects by value (map entries and vector elements), so its
 fields hold `StatsData` values here; each update of one of them is what Stats.Update does.
 */
module EpochStats {
  import opened Basics
  import opened Sums
  import opened PcapReading
  import opened FlowStats

  const EPOCH_DURATION: int := 1_000_000_000

  datatype Epoch = Epoch(stats: StatsData, start: int, end: int, warmup: bool)

  datatype Tables = Tables(nodes: map<int, StatsData>, epochs: seq<Epoch>)

  /** One call of update, together with the warmup flag in force. */
  datatype Update = Update(op: int, key: Key, now: int, warmup: bool)

  ghost predicate NeedsEpoch(t: Tables, u: Update) {
    || t.epochs == []
    || (t.epochs[|t.epochs| - 1].warmup && !u.warmup)
    || u.now - t.epochs[|t.epochs| - 1].start > EPOCH_DURATION
  }

  ghost function WithEpoch(t: Tables, u: Update): (r: Tables)
    ensures r.epochs != []
  {
    if NeedsEpoch(t, u) then t.(epochs := t.epochs + [Epoch(NoStats(), u.now, -1, u.warmup)]) else t
  }

  /** The node an update counts for must have been initialised, else `at` throws. */
  ghost predicate Known(t: Tables, u: Update) {
    u.warmup || u.op in t.nodes
  }

  ghost function Stepped(crc: Key -> U32, t: Tables, u: Update): Tables
    requires Known(t, u)
  {
    var t' := WithEpoch(t, u);
    var n := |t'.epochs| - 1;
    var e := t'.epochs[n];
    if u.warmup then t'.(epochs := t'.epochs[n := e.(end := u.now)])
    else Tables(t'.nodes[u.op := Updated(crc, t'.nodes[u.op], u.key)],
                t'.epochs[n := e.(stats := Updated(crc, e.stats, u.key), end := u.now)])
  }

  class MapStats {
    const crc: Key -> U32
    var nodes: map<int, StatsData>
    var epochs: seq<Epoch>

    ghost function View(): Tables
      reads this
    {
      Tables(nodes, epochs)
    }

    constructor (crc: Key -> U32)
      ensures this.crc == crc && View() == Tables(map[], [])
    {
      this.crc := crc;
      nodes, epochs := map[], [];
    }

    /** An op that is already there keeps its counters. */
    method Init(op: int)
      modifies this`nodes
      ensures nodes == if op in old(nodes) then old(nodes) else old(nodes)[op := NoStats()]
    {
      if op !in nodes {
        var s := new Stats(crc);
        var data := StatsData(s.keyCounter, s.maskToCrc, s.totalCount);
        assert data == s.View();
        nodes := nodes[op := data];
      }
    }

    /** Stats.update on a stored value. */
    method UpdateStats(data: StatsData, key: Key) returns (r: StatsData)
      ensures r == Updated(crc, data, key)
    {
      var s := new Stats(crc);
      s.keyCounter, s.maskToCrc, s.totalCount := data.keyCounter, data.maskToCrc, data.totalCount;
      assert s.View() == data;
      s.Update(key);
      r := StatsData(s.keyCounter, s.maskToCrc, s.totalCount);
      assert r == s.View();
    }

    /** Returns false where the source throws: after a new epoch may have been opened. */
    method Update(u: Update) returns (ok: bool)
      modifies this
      ensures ok <==> u.warmup || u.op in old(nodes)
      ensures ok ==> View() == Stepped(crc, old(View()), u)
      ensures !ok ==> View() == WithEpoch(old(View()), u)
    {
      if || epochs == []
         || (epochs[|epochs| - 1].warmup && !u.warmup)
         || u.now - epochs[|epochs| - 1].start > EPOCH_DURATION {
        var s := new Stats(crc);
        var data := StatsData(s.keyCounter, s.maskToCrc, s.totalCount);
        assert data == s.View();
        epochs := epochs + [Epoch(data, u.now, -1, u.warmup)];
      }
      assert View() == WithEpoch(old(View()), u);
      var n := |epochs| - 1;
      if !u.warmup {
        if u.op !in nodes {
          return false;
        }
        var node := UpdateStats(nodes[u.op], u.key);
        nodes := nodes[u.op := node];
        var last := UpdateStats(epochs[n].stats, u.key);
        epochs := epochs[n := epochs[n].(stats := last)];
      }
      epochs := epochs[n := epochs[n].(end := u.now)];
      ok := true;
    }
  }

  // ---------- runs ----------

  ghost predicate AllKnown(t: Tables, us: seq<Update>) {
    forall i :: 0 <= i < |us| ==> Known(t, us[i])
  }

  ghost function After(crc: Key -> U32, t: Tables, us: seq<Update>): (r: Tables)
    requires AllKnown(t, us)
    ensures r.nodes.Keys == t.nodes.Keys
    decreases |us|
  {
    if us == [] then t
    else
      var before := After(crc, t, us[..|us| - 1]);
      Stepped(crc, before, us[|us| - 1])
  }

  // ---------- the ledger ----------

  /** Some additive quantity of a Stats object: updating with key k adds gain(k). */
  ghost predicate Additive(crc: Key -> U32, m: StatsData -> int, gain: Key -> int) {
    && m(NoStats()) == 0
    && forall s, k :: m(Updated(crc, s, k)) == m(s) + gain(k)
  }

  ghost function OverEpochs(epochs: seq<Epoch>, m: StatsData -> int): int {
    if epochs == [] then 0 else OverEpochs(epochs[..|epochs| - 1], m) + m(epochs[|epochs| - 1].stats)
  }

  ghost function OverNodes(nodes: map<int, StatsData>, m: StatsData -> int): int {
    Sum(nodes.Keys, (op: int) => if op in nodes then m(nodes[op]) else 0)
  }

  ghost function Gain(u: Update, gain: Key -> int): int {
    if u.warmup then 0 else gain(u.key)
  }

  ghost function Gained(us: seq<Update>, gain: Key -> int): int {
    if us == [] then 0
    else Gained(us[..|us| - 1], gain) + Gain(us[|us| - 1], gain)
  }

  lemma OverEpochsLast(epochs: seq<Epoch>, e: Epoch, m: StatsData -> int)
    ensures OverEpochs(epochs + [e], m) == OverEpochs(epochs, m) + m(e.stats)
  {
    assert (epochs + [e])[..|epochs|] == epochs;
  }

  lemma OverEpochsReplace(epochs: seq<Epoch>, e: Epoch, m: StatsData -> int)
    requires epochs != []
    ensures var n := |epochs| - 1;
            OverEpochs(epochs[n := e], m) == OverEpochs(epochs, m) - m(epochs[n].stats) + m(e.stats)
  {
    var n := |epochs| - 1;
    assert epochs[n := e][..n] == epochs[..n];
  }

  lemma NewEpochGainsNothing(t: Tables, u: Update, m: StatsData -> int)
    requires m(NoStats()) == 0
    ensures OverEpochs(WithEpoch(t, u).epochs, m) == OverEpochs(t.epochs, m)
  {
    OverEpochsLast(t.epochs, Epoch(NoStats(), u.now, -1, u.warmup), m);
  }

  lemma EpochsGain(crc: Key -> U32, t: Tables, u: Update, m: StatsData -> int, gain: Key -> int)
    requires Known(t, u) && Additive(crc, m, gain)
    ensures OverEpochs(Stepped(crc, t, u).epochs, m) == OverEpochs(t.epochs, m) + Gain(u, gain)
  {
    NewEpochGainsNothing(t, u, m);
    var w := WithEpoch(t, u).epochs;
    var e := w[|w| - 1];
    var stats := if u.warmup then e.stats else Updated(crc, e.stats, u.key);
    assert m(stats) == m(e.stats) + Gain(u, gain);
    OverEpochsReplace(w, e.(stats := stats, end := u.now), m);
  }

  lemma NodesGain(crc: Key -> U32, t: Tables, u: Update, m: StatsData -> int, gain: Key -> int)
    requires Known(t, u) && Additive(crc, m, gain)
    ensures OverNodes(Stepped(crc, t, u).nodes, m) == OverNodes(t.nodes, m) + Gain(u, gain)
  {
    if !u.warmup {
      var node := Updated(crc, t.nodes[u.op], u.key);
      var nodes := t.nodes[u.op := node];
      SumBump(t.nodes.Keys, (op: int) => if op in t.nodes then m(t.nodes[op]) else 0,
              (op: int) => if op in nodes then m(nodes[op]) else 0, u.op);
      assert nodes.Keys == t.nodes.Keys;
      assert Stepped(crc, t, u).nodes == nodes;
    }
  }

  /** For every additive quantity, the epochs and the nodes gain the same: what the updates
      outside warmup bring. */
  lemma {:induction false} Ledger(crc: Key -> U32, t: Tables, us: seq<Update>, m: StatsData -> int, gain: Key -> int)
    requires AllKnown(t, us) && Additive(crc, m, gain)
    ensures var r := After(crc, t, us);
            && OverEpochs(r.epochs, m) == OverEpochs(t.epochs, m) + Gained(us, gain)
            && OverNodes(r.nodes, m) == OverNodes(t.nodes, m) + Gained(us, gain)
    decreases |us|
  {
    if us != [] {
      Ledger(crc, t, us[..|us| - 1], m, gain);
      EpochsGain(crc, After(crc, t, us[..|us| - 1]), us[|us| - 1], m, gain);
      NodesGain(crc, After(crc, t, us[..|us| - 1]), us[|us| - 1], m, gain);
    }
  }

  ghost predicate Fresh(t: Tables) {
    t.epochs == [] && forall op :: op in t.nodes ==> t.nodes[op] == NoStats()
  }

  lemma FreshIsZero(t: Tables, m: StatsData -> int)
    requires Fresh(t) && m(NoStats()) == 0
    ensures OverNodes(t.nodes, m) == 0
  {
    var f := (op: int) => if op in t.nodes then m(t.nodes[op]) else 0;
    forall op | op in t.nodes.Keys
      ensures f(op) == 0
    {
      assert t.nodes[op] == NoStats();
    }
    SumZero(t.nodes.Keys, f);
  }

  /** Each key's packets over the epochs equal its packets over the nodes, namely the updates
      with that key outside warmup; likewise for the totals. */
  lemma EpochLedger(crc: Key -> U32, t: Tables, us: seq<Update>, key: Key)
    requires Fresh(t) && AllKnown(t, us)
    ensures var r := After(crc, t, us);
            && OverEpochs(r.epochs, (s: StatsData) => CountOf(s, key))
               == OverNodes(r.nodes, (s: StatsData) => CountOf(s, key))
               == Gained(us, (k: Key) => if k == key then 1 else 0)
            && OverEpochs(r.epochs, (s: StatsData) => s.totalCount)
               == OverNodes(r.nodes, (s: StatsData) => s.totalCount)
               == Gained(us, (k: Key) => 1)
  {
    var count, one := (s: StatsData) => CountOf(s, key), (k: Key) => if k == key then 1 else 0;
    assert Additive(crc, count, one);
    Ledger(crc, t, us, count, one);
    FreshIsZero(t, count);
    var total, each := (s: StatsData) => s.totalCount, (k: Key) => 1;
    assert Additive(crc, total, each);
    Ledger(crc, t, us, total, each);
    FreshIsZero(t, total);
  }

  // ---------- which keys each Stats object has seen ----------

  /** The keys counted for a node, in order. */
  ghost function NodeKeys(us: seq<Update>, op: int): seq<Key> {
    if us == [] then []
    else
      var u := us[|us| - 1];
      NodeKeys(us[..|us| - 1], op) + if !u.warmup && u.op == op then [u.key] else []
  }

  ghost function KeyOf(u: Update): seq<Key> {
    if u.warmup then [] else [u.key]
  }

  /** All keys counted, in order. */
  ghost function MeasuredKeys(us: seq<Update>): seq<Key> {
    if us == [] then []
    else MeasuredKeys(us[..|us| - 1]) + KeyOf(us[|us| - 1])
  }

  /** What an update does to the keys of the epochs. */
  ghost function NextKeys(t: Tables, ks: seq<seq<Key>>, u: Update): seq<seq<Key>>
    requires NeedsEpoch(t, u) || ks != []
  {
    if NeedsEpoch(t, u) then ks + [KeyOf(u)]
    else
      var n := |ks| - 1;
      ks[n := ks[n] + KeyOf(u)]
  }

  /** The keys counted in each epoch, in order. */
  ghost function EpochKeys(crc: Key -> U32, t: Tables, us: seq<Update>): (ks: seq<seq<Key>>)
    requires t.epochs == [] && AllKnown(t, us)
    ensures |ks| == |After(crc, t, us).epochs|
    decreases |us|
  {
    if us == [] then []
    else
      NextKeys(After(crc, t, us[..|us| - 1]), EpochKeys(crc, t, us[..|us| - 1]), us[|us| - 1])
  }

  ghost function Concat(ks: seq<seq<Key>>): seq<Key> {
    if ks == [] then [] else Concat(ks[..|ks| - 1]) + ks[|ks| - 1]
  }

  lemma ConcatNext(t: Tables, ks: seq<seq<Key>>, u: Update)
    requires NeedsEpoch(t, u) || ks != []
    ensures Concat(NextKeys(t, ks, u)) == Concat(ks) + KeyOf(u)
  {
    if NeedsEpoch(t, u) {
      assert (ks + [KeyOf(u)])[..|ks|] == ks;
    } else {
      var n := |ks| - 1;
      assert ks[n := ks[n] + KeyOf(u)][..n] == ks[..n];
    }
  }

  /** Epochs that have seen the given keys. */
  ghost predicate EpochsOf(crc: Key -> U32, epochs: seq<Epoch>, ks: seq<seq<Key>>) {
    |ks| == |epochs| && forall i :: 0 <= i < |epochs| ==> epochs[i].stats == StatsOf(crc, ks[i])
  }

  /** The last epoch after an update. */
  ghost function SteppedLast(crc: Key -> U32, t: Tables, u: Update): (e: Epoch)
    requires Known(t, u)
    ensures var w := WithEpoch(t, u).epochs;
            && Stepped(crc, t, u).epochs == w[|w| - 1 := e]
            && e.stats == if u.warmup then w[|w| - 1].stats else Updated(crc, w[|w| - 1].stats, u.key)
  {
    var w := WithEpoch(t, u).epochs;
    var e := w[|w| - 1];
    e.(stats := if u.warmup then e.stats else Updated(crc, e.stats, u.key), end := u.now)
  }

  lemma KeyOfSnoc(crc: Key -> U32, keys: seq<Key>, u: Update, s: StatsData)
    requires s == StatsOf(crc, keys)
    ensures StatsOf(crc, keys + KeyOf(u)) == if u.warmup then s else Updated(crc, s, u.key)
  {
    StatsOfSnoc(crc, keys, u.key);
    assert keys + [] == keys;
  }

  lemma NodeStep(crc: Key -> U32, t: Tables, u: Update, op: int, keys: seq<Key>)
    requires Known(t, u) && op in t.nodes && t.nodes[op] == StatsOf(crc, keys)
    ensures var r := Stepped(crc, t, u);
            op in r.nodes && r.nodes[op] == StatsOf(crc, keys + if !u.warmup && u.op == op then [u.key] else [])
  {
    StatsOfSnoc(crc, keys, u.key);
    assert keys + [] == keys;
  }

  /** Every node holds the statistics of the keys counted for it. */
  lemma {:induction false} NodesHoldKeys(crc: Key -> U32, t: Tables, us: seq<Update>, op: int)
    requires Fresh(t) && AllKnown(t, us) && op in t.nodes
    ensures op in After(crc, t, us).nodes
    ensures After(crc, t, us).nodes[op] == StatsOf(crc, NodeKeys(us, op))
    decreases |us|
  {
    if us != [] {
      var init, u := us[..|us| - 1], us[|us| - 1];
      NodesHoldKeys(crc, t, init, op);
      NodeStep(crc, After(crc, t, init), u, op, NodeKeys(init, op));
    }
  }

  /** The hash sets of a node: the next wider one under the mask, at most half as small, bounded
      by the mask and by the node's flows. */
  lemma NodeHashSets(crc: Key -> U32, t: Tables, us: seq<Update>, op: int, k: nat)
    requires Fresh(t) && AllKnown(t, us) && op in t.nodes && 1 <= k <= 32
    ensures op in After(crc, t, us).nodes
    ensures var node := After(crc, t, us).nodes[op];
            && node.maskToCrc.Keys == NoHashes(32).Keys && Mask(k) in node.maskToCrc
            && node.maskToCrc[Mask(k)] == LowHashes(crc, NodeKeys(us, op), k)
            && |node.maskToCrc[Mask(k)]| <= Pow2(k)
            && |node.maskToCrc[Mask(k)]| <= |node.keyCounter|
            && (k < 32 ==>
                  && Mask(k + 1) in node.maskToCrc
                  && MaskedTo(node.maskToCrc[Mask(k + 1)], node.maskToCrc[Mask(k)], k)
                  && |node.maskToCrc[Mask(k)]| <= |node.maskToCrc[Mask(k + 1)]| <= 2 * |node.maskToCrc[Mask(k)]|)
  {
    var keys := NodeKeys(us, op);
    NodesHoldKeys(crc, t, us, op);
    HashKeys(crc, keys);
    assert HashSet(crc, keys, k) == StatsOf(crc, keys).maskToCrc[Mask(k)];
    HashSetIsImage(crc, keys, k);
    HashSetBounds(crc, keys, k);
    if k < 32 {
      assert HashSet(crc, keys, k + 1) == StatsOf(crc, keys).maskToCrc[Mask(k + 1)];
      HashSetsRefine(crc, keys, k);
    }
  }

  // ---------- where epochs begin and end ----------

  /** The keys of exactly the wanted updates, found at increasing positions. */
  ghost predicate Selects(us: seq<Update>, wanted: Update -> bool, keys: seq<Key>, at: seq<nat>) {
    && |at| == |keys|
    && (forall i, j :: 0 <= i < j < |at| ==> at[i] < at[j])
    && (forall i :: 0 <= i < |at| ==> at[i] < |us| && keys[i] == us[at[i]].key)
    && (forall k: nat :: k < |us| ==> (k in at <==> wanted(us[k])))
  }

  lemma SelectsMore(us: seq<Update>, u: Update, wanted: Update -> bool, keys: seq<Key>, at: seq<nat>)
    requires Selects(us, wanted, keys, at) && wanted(u)
    ensures Selects(us + [u], wanted, keys + [u.key], at + [|us|])
  {
  }

  lemma SelectsSame(us: seq<Update>, u: Update, wanted: Update -> bool, keys: seq<Key>, at: seq<nat>)
    requires Selects(us, wanted, keys, at) && !wanted(u)
    ensures Selects(us + [u], wanted, keys, at)
  {
    assert |us| !in at;
  }

  /** The keys counted are those of the updates outside warmup, in order. */
  lemma {:induction false} MeasuredAt(us: seq<Update>) returns (at: seq<nat>)
    ensures Selects(us, (u: Update) => !u.warmup, MeasuredKeys(us), at)
    decreases |us|
  {
    if us == [] {
      at := [];
    } else {
      var init, u, wanted := us[..|us| - 1], us[|us| - 1], (u: Update) => !u.warmup;
      at := MeasuredAt(init);
      assert init + [u] == us;
      if !u.warmup {
        SelectsMore(init, u, wanted, MeasuredKeys(init), at);
        at := at + [|init|];
      } else {
        SelectsSame(init, u, wanted, MeasuredKeys(init), at);
        assert MeasuredKeys(us) == MeasuredKeys(init);
      }
    }
  }

  /** The keys counted for a node are those of its updates outside warmup, in order. */
  lemma {:induction false} CountedAt(us: seq<Update>, op: int) returns (at: seq<nat>)
    ensures Selects(us, (u: Update) => !u.warmup && u.op == op, NodeKeys(us, op), at)
    decreases |us|
  {
    if us == [] {
      at := [];
    } else {
      var init, u, wanted := us[..|us| - 1], us[|us| - 1], (u: Update) => !u.warmup && u.op == op;
      at := CountedAt(init, op);
      assert init + [u] == us;
      if wanted(u) {
        SelectsMore(init, u, wanted, NodeKeys(init, op), at);
        at := at + [|init|];
      } else {
        SelectsSame(init, u, wanted, NodeKeys(init, op), at);
        assert NodeKeys(us, op) == NodeKeys(init, op);
      }
    }
  }

  /** After `first`, update u has to open an epoch: warmup is over, or a second has passed. */
  ghost predicate Opens(first: Update, u: Update) {
    (first.warmup && !u.warmup) || u.now - first.now > 1_000_000_000
  }

  /** Increasing positions that start at the first update. */
  ghost predicate AreCuts(us: seq<Update>, cuts: seq<nat>) {
    && (cuts == [] <==> us == [])
    && (cuts != [] ==> cuts[0] == 0)
    && (forall i :: 0 <= i < |cuts| ==> cuts[i] < |us|)
    && (forall i, j :: 0 <= i < j < |cuts| ==> cuts[i] < cuts[j])
  }

  /** Stretch i ends where the next one begins, the last one with the updates. */
  ghost function CutEnd(us: seq<Update>, cuts: seq<nat>, i: nat): nat {
    if i + 1 < |cuts| then cuts[i + 1] else |us|
  }

  /** An epoch begins at the time of its first update and ends at that of its last, has the
      phase of the first and the keys counted by all of them. */
  ghost predicate Covers(crc: Key -> U32, e: Epoch, keys: seq<Key>, us: seq<Update>) {
    && us != []
    && e.start == us[0].now && e.end == us[|us| - 1].now && e.warmup == us[0].warmup
    && keys == MeasuredKeys(us) && e.stats == StatsOf(crc, keys)
  }

  /** The updates from a to b are exactly one epoch's: b is the first after a that has to open
      another. */
  ghost predicate IsEpoch(crc: Key -> U32, e: Epoch, keys: seq<Key>, us: seq<Update>, a: nat, b: nat) {
    && a < b <= |us| && Covers(crc, e, keys, us[a..b])
    && (forall j :: a < j < b ==> !Opens(us[a], us[j]))
    && (b < |us| ==> Opens(us[a], us[b]))
  }

  ghost predicate IsEpochAt(crc: Key -> U32, epochs: seq<Epoch>, ks: seq<seq<Key>>,
                            us: seq<Update>, cuts: seq<nat>, i: nat)
  {
    && i < |epochs| && i < |ks| && i < |cuts|
    && IsEpoch(crc, epochs[i], ks[i], us, cuts[i], CutEnd(us, cuts, i))
  }

  ghost predicate CutIntoEpochs(crc: Key -> U32, epochs: seq<Epoch>, ks: seq<seq<Key>>,
                                us: seq<Update>, cuts: seq<nat>)
  {
    && AreCuts(us, cuts) && |epochs| == |ks| == |cuts|
    && forall i :: 0 <= i < |cuts| ==> IsEpochAt(crc, epochs, ks, us, cuts, i)
  }

  lemma MeasuredSnoc(us: seq<Update>, u: Update)
    ensures MeasuredKeys(us + [u]) == MeasuredKeys(us) + KeyOf(u)
  {
    assert (us + [u])[..|us|] == us;
  }

  lemma CoversSnoc(crc: Key -> U32, e: Epoch, keys: seq<Key>, us: seq<Update>, u: Update, e': Epoch)
    requires Covers(crc, e, keys, us) && e'.start == e.start && e'.warmup == e.warmup && e'.end == u.now
    requires e'.stats == StatsOf(crc, keys + KeyOf(u))
    ensures Covers(crc, e', keys + KeyOf(u), us + [u])
  {
    MeasuredSnoc(us, u);
  }

  lemma CoversOne(crc: Key -> U32, u: Update, e: Epoch)
    requires e.start == e.end == u.now && e.warmup == u.warmup && e.stats == StatsOf(crc, [] + KeyOf(u))
    ensures Covers(crc, e, [] + KeyOf(u), [u])
  {
    MeasuredSnoc([], u);
    assert [] + [u] == [u];
  }

  /** A finished epoch stays as it is when another update follows. */
  lemma EpochKept(crc: Key -> U32, e: Epoch, keys: seq<Key>, us: seq<Update>, a: nat, b: nat, u: Update)
    requires IsEpoch(crc, e, keys, us, a, b) && (b == |us| ==> Opens(us[a], u))
    ensures IsEpoch(crc, e, keys, us + [u], a, b)
  {
    assert (us + [u])[a..b] == us[a..b];
  }

  /** The last epoch takes one more update. */
  lemma EpochGrows(crc: Key -> U32, e: Epoch, keys: seq<Key>, us: seq<Update>, a: nat, u: Update, e': Epoch)
    requires IsEpoch(crc, e, keys, us, a, |us|) && !Opens(us[a], u)
    requires e'.start == e.start && e'.warmup == e.warmup && e'.end == u.now
    requires e'.stats == StatsOf(crc, keys + KeyOf(u))
    ensures IsEpoch(crc, e', keys + KeyOf(u), us + [u], a, |us| + 1)
  {
    assert (us + [u])[a..|us| + 1] == us[a..|us|] + [u];
    CoversSnoc(crc, e, keys, us[a..|us|], u, e');
  }

  lemma EpochOpens(crc: Key -> U32, e: Epoch, us: seq<Update>, u: Update)
    requires Covers(crc, e, KeyOf(u), [u])
    ensures IsEpoch(crc, e, KeyOf(u), us + [u], |us|, |us| + 1)
  {
    assert (us + [u])[|us|..|us| + 1] == [u];
  }

  /** The tables decide as the cuts do: a new epoch opens where the last one's first update says. */
  lemma NeedsIsOpens(crc: Key -> U32, t: Tables, ks: seq<seq<Key>>, us: seq<Update>, cuts: seq<nat>, u: Update)
    requires CutIntoEpochs(crc, t.epochs, ks, us, cuts)
    ensures NeedsEpoch(t, u) <==> cuts == [] || Opens(us[cuts[|cuts| - 1]], u)
  {
    if cuts != [] {
      var n := |cuts| - 1;
      assert IsEpochAt(crc, t.epochs, ks, us, cuts, n);
      assert us[cuts[n]..|us|][0] == us[cuts[n]];
    }
  }

  /** The current epoch takes one more update. */
  lemma CutsGrow(crc: Key -> U32, epochs: seq<Epoch>, ks: seq<seq<Key>>, us: seq<Update>, cuts: seq<nat>,
                 e: Epoch, u: Update)
    requires cuts != [] && CutIntoEpochs(crc, epochs, ks, us, cuts)
    requires var n := |cuts| - 1;
             && !Opens(us[cuts[n]], u) && e.stats == StatsOf(crc, ks[n] + KeyOf(u))
             && e.start == epochs[n].start && e.warmup == epochs[n].warmup && e.end == u.now
    ensures var n := |cuts| - 1; CutIntoEpochs(crc, epochs[n := e], ks[n := ks[n] + KeyOf(u)], us + [u], cuts)
  {
    var n := |cuts| - 1;
    var epochs', ks' := epochs[n := e], ks[n := ks[n] + KeyOf(u)];
    forall i | 0 <= i < |cuts|
      ensures IsEpochAt(crc, epochs', ks', us + [u], cuts, i)
    {
      assert IsEpochAt(crc, epochs, ks, us, cuts, i);
      if i < n {
        EpochKept(crc, epochs[i], ks[i], us, cuts[i], cuts[i + 1], u);
      } else {
        EpochGrows(crc, epochs[n], ks[n], us, cuts[n], u, e);
      }
    }
  }

  lemma CutsSnoc(us: seq<Update>, cuts: seq<nat>, u: Update)
    requires AreCuts(us, cuts)
    ensures AreCuts(us + [u], cuts + [|us|])
    ensures forall i: nat :: i < |cuts| ==> CutEnd(us + [u], cuts + [|us|], i) == CutEnd(us, cuts, i)
  {
  }

  lemma EpochAtKept(crc: Key -> U32, epochs: seq<Epoch>, ks: seq<seq<Key>>, us: seq<Update>, cuts: seq<nat>,
                    e: Epoch, keys: seq<Key>, u: Update, i: nat)
    requires AreCuts(us, cuts) && |epochs| == |ks| == |cuts| && IsEpochAt(crc, epochs, ks, us, cuts, i)
    requires i == |cuts| - 1 ==> Opens(us[cuts[i]], u)
    ensures IsEpochAt(crc, epochs + [e], ks + [keys], us + [u], cuts + [|us|], i)
  {
    var b := CutEnd(us, cuts, i);
    CutsSnoc(us, cuts, u);
    EpochKept(crc, epochs[i], ks[i], us, cuts[i], b, u);
  }

  lemma EpochAtNew(crc: Key -> U32, epochs: seq<Epoch>, ks: seq<seq<Key>>, us: seq<Update>, cuts: seq<nat>,
                   e: Epoch, u: Update)
    requires |epochs| == |ks| == |cuts| && Covers(crc, e, KeyOf(u), [u])
    ensures IsEpochAt(crc, epochs + [e], ks + [KeyOf(u)], us + [u], cuts + [|us|], |cuts|)
  {
    EpochOpens(crc, e, us, u);
  }

  lemma EpochsAtKept(crc: Key -> U32, epochs: seq<Epoch>, ks: seq<seq<Key>>, us: seq<Update>, cuts: seq<nat>,
                     e: Epoch, keys: seq<Key>, u: Update)
    requires CutIntoEpochs(crc, epochs, ks, us, cuts)
    requires cuts == [] || Opens(us[cuts[|cuts| - 1]], u)
    ensures forall i: nat :: i < |cuts| ==>
              IsEpochAt(crc, epochs + [e], ks + [keys], us + [u], cuts + [|us|], i)
  {
    forall i: nat | i < |cuts|
      ensures IsEpochAt(crc, epochs + [e], ks + [keys], us + [u], cuts + [|us|], i)
    {
      EpochAtKept(crc, epochs, ks, us, cuts, e, keys, u, i);
    }
  }

  lemma CutsJoin(crc: Key -> U32, epochs: seq<Epoch>, ks: seq<seq<Key>>, us: seq<Update>, cuts: seq<nat>, n: nat)
    requires AreCuts(us, cuts) && |epochs| == |ks| == |cuts| == n + 1
    requires (forall i: nat :: i < n ==> IsEpochAt(crc, epochs, ks, us, cuts, i))
    requires IsEpochAt(crc, epochs, ks, us, cuts, n)
    ensures CutIntoEpochs(crc, epochs, ks, us, cuts)
  {
  }

  /** An update opens an epoch. */
  lemma CutsOpen(crc: Key -> U32, epochs: seq<Epoch>, ks: seq<seq<Key>>, us: seq<Update>, cuts: seq<nat>,
                 e: Epoch, u: Update)
    requires CutIntoEpochs(crc, epochs, ks, us, cuts) && Covers(crc, e, KeyOf(u), [u])
    requires cuts == [] || Opens(us[cuts[|cuts| - 1]], u)
    ensures CutIntoEpochs(crc, epochs + [e], ks + [KeyOf(u)], us + [u], cuts + [|us|])
  {
    CutsSnoc(us, cuts, u);
    EpochsAtKept(crc, epochs, ks, us, cuts, e, KeyOf(u), u);
    EpochAtNew(crc, epochs, ks, us, cuts, e, u);
    CutsJoin(crc, epochs + [e], ks + [KeyOf(u)], us + [u], cuts + [|us|], |cuts|);
  }

  lemma SteppedGrows(crc: Key -> U32, t: Tables, u: Update) returns (e: Epoch)
    requires Known(t, u) && !NeedsEpoch(t, u)
    ensures var n := |t.epochs| - 1;
            && n >= 0 && Stepped(crc, t, u).epochs == t.epochs[n := e]
            && e.start == t.epochs[n].start && e.warmup == t.epochs[n].warmup && e.end == u.now
            && e.stats == if u.warmup then t.epochs[n].stats else Updated(crc, t.epochs[n].stats, u.key)
  {
    e := SteppedLast(crc, t, u);
  }

  lemma SteppedOpens(crc: Key -> U32, t: Tables, u: Update) returns (e: Epoch)
    requires Known(t, u) && NeedsEpoch(t, u)
    ensures Stepped(crc, t, u).epochs == t.epochs + [e] && Covers(crc, e, KeyOf(u), [u])
  {
    e := SteppedLast(crc, t, u);
    KeyOfSnoc(crc, [], u, NoStats());
    CoversOne(crc, u, e);
    assert [] + KeyOf(u) == KeyOf(u);
  }

  lemma CutsStep(crc: Key -> U32, t: Tables, ks: seq<seq<Key>>, us: seq<Update>, cuts: seq<nat>, u: Update)
    returns (cuts': seq<nat>)
    requires Known(t, u) && CutIntoEpochs(crc, t.epochs, ks, us, cuts)
    ensures NeedsEpoch(t, u) || ks != []
    ensures CutIntoEpochs(crc, Stepped(crc, t, u).epochs, NextKeys(t, ks, u), us + [u], cuts')
  {
    NeedsIsOpens(crc, t, ks, us, cuts, u);
    if NeedsEpoch(t, u) {
      var e := SteppedOpens(crc, t, u);
      CutsOpen(crc, t.epochs, ks, us, cuts, e, u);
      cuts' := cuts + [|us|];
    } else {
      var e := SteppedGrows(crc, t, u);
      var n := |cuts| - 1;
      assert IsEpochAt(crc, t.epochs, ks, us, cuts, n);
      KeyOfSnoc(crc, ks[n], u, t.epochs[n].stats);
      CutsGrow(crc, t.epochs, ks, us, cuts, e, u);
      cuts' := cuts;
    }
  }

  /** After any updates, the updates are cut into epochs: an epoch starts with the first update,
      with the first one after warmup, and with the first one more than a second after the start
      of the epoch before it, and nowhere else. It starts at the time of its first update, ends
      at that of its last, and counts exactly those of its updates that are not warmup. */
  lemma {:induction false} EpochCuts(crc: Key -> U32, t: Tables, us: seq<Update>) returns (cuts: seq<nat>)
    requires t.epochs == [] && AllKnown(t, us)
    ensures CutIntoEpochs(crc, After(crc, t, us).epochs, EpochKeys(crc, t, us), us, cuts)
    decreases |us|
  {
    if us == [] {
      cuts := [];
    } else {
      var init, u := us[..|us| - 1], us[|us| - 1];
      cuts := EpochCuts(crc, t, init);
      assert init + [u] == us;
      cuts := CutsStep(crc, After(crc, t, init), EpochKeys(crc, t, init), init, cuts, u);
    }
  }

  lemma {:induction false} KeysConcat(crc: Key -> U32, t: Tables, us: seq<Update>)
    requires t.epochs == [] && AllKnown(t, us)
    ensures Concat(EpochKeys(crc, t, us)) == MeasuredKeys(us)
    decreases |us|
  {
    if us != [] {
      var init, u := us[..|us| - 1], us[|us| - 1];
      KeysConcat(crc, t, init);
      ConcatNext(After(crc, t, init), EpochKeys(crc, t, init), u);
    }
  }

  /** Every epoch holds the statistics of its keys, and the epochs cut the measured keys into
      consecutive stretches. */
  lemma EpochsCutKeys(crc: Key -> U32, t: Tables, us: seq<Update>)
    requires t.epochs == [] && AllKnown(t, us)
    ensures EpochsOf(crc, After(crc, t, us).epochs, EpochKeys(crc, t, us))
    ensures Concat(EpochKeys(crc, t, us)) == MeasuredKeys(us)
  {
    KeysConcat(crc, t, us);
    var epochs, ks := After(crc, t, us).epochs, EpochKeys(crc, t, us);
    var cuts := EpochCuts(crc, t, us);
    forall i | 0 <= i < |epochs|
      ensures epochs[i].stats == StatsOf(crc, ks[i])
    {
      assert IsEpochAt(crc, epochs, ks, us, cuts, i);
    }
  }

  // ---------- timing ----------

  /** As worker_main produces them: warmup first, and time does not go back within a phase. */
  ghost predicate Timed(us: seq<Update>) {
    forall i, j :: 0 <= i < j < |us| ==>
      && (us[j].warmup ==> us[i].warmup)
      && (us[i].warmup == us[j].warmup ==> us[i].now <= us[j].now)
  }

  ghost predicate EpochOk(e: Epoch) {
    && 0 <= e.end - e.start <= EPOCH_DURATION
    && (e.warmup ==> e.stats == NoStats())
    && (!e.warmup ==> e.stats.totalCount > 0)
  }

  /** d is an epoch before e: warmup comes first, and epochs of one phase do not overlap and
      start more than the epoch duration apart. */
  ghost predicate Precedes(d: Epoch, e: Epoch) {
    && (e.warmup ==> d.warmup)
    && (d.warmup == e.warmup ==> d.end <= e.start && e.start - d.start > EPOCH_DURATION)
  }

  ghost predicate WellCut(epochs: seq<Epoch>) {
    && (forall i :: 0 <= i < |epochs| ==> EpochOk(epochs[i]))
    && (forall i, j :: 0 <= i < j < |epochs| ==> Precedes(epochs[i], epochs[j]))
  }

  /** The current epoch ends at the latest update, in its phase. */
  ghost predicate Current(epochs: seq<Epoch>, u: Update) {
    epochs != [] && epochs[|epochs| - 1].end == u.now && epochs[|epochs| - 1].warmup == u.warmup
  }

  ghost predicate InOrder(u: Update, v: Update) {
    (v.warmup ==> u.warmup) && (u.warmup == v.warmup ==> u.now <= v.now)
  }

  lemma TimingStep(crc: Key -> U32, t: Tables, u: Update)
    requires Known(t, u) && WellCut(t.epochs)
    requires t.epochs != [] ==>
               exists last :: Current(t.epochs, last) && InOrder(last, u)
    ensures WellCut(Stepped(crc, t, u).epochs) && Current(Stepped(crc, t, u).epochs, u)
  {
    var r := Stepped(crc, t, u).epochs;
    var n := |r| - 1;
    forall i | 0 <= i < n
      ensures Precedes(r[i], r[n])
    {
      if NeedsEpoch(t, u) {
        assert r[i] == t.epochs[i] && EpochOk(t.epochs[n - 1]);
        if i < n - 1 { assert Precedes(t.epochs[i], t.epochs[n - 1]); }
      } else {
        assert Precedes(t.epochs[i], t.epochs[n]);
      }
    }
  }

  /** Every epoch lasts between 0 and the epoch duration; epochs of one phase are disjoint and
      ordered; warmup epochs come first and hold no keys. */
  lemma {:induction false} EpochTiming(crc: Key -> U32, t: Tables, us: seq<Update>)
    requires t.epochs == [] && AllKnown(t, us) && Timed(us)
    ensures WellCut(After(crc, t, us).epochs)
    ensures us != [] ==> Current(After(crc, t, us).epochs, us[|us| - 1])
    ensures us == [] ==> After(crc, t, us).epochs == []
    decreases |us|
  {
    if us != [] {
      var n := |us| - 1;
      EpochTiming(crc, t, us[..n]);
      if n > 0 { assert InOrder(us[n - 1], us[n]); }
      TimingStep(crc, After(crc, t, us[..n]), us[n]);
    }
  }
}
