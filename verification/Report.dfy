/** The aggregation loops of generate_report (synthesized/echo-profiler.cpp). */
module ReportAggregation {
  import opened Basics
  import opened Sums
  import opened FlowStats
  import opened EpochStats

  // ---------- std::sort with std::greater ----------

  ghost predicate Descending(xs: seq<nat>) {
    forall i, j :: 0 <= i < j < |xs| ==> xs[i] >= xs[j]
  }

  function Insert(xs: seq<nat>, x: nat): seq<nat> {
    if xs == [] || x >= xs[0] then [x] + xs else [xs[0]] + Insert(xs[1..], x)
  }

  function SortDescending(xs: seq<nat>): seq<nat> {
    if xs == [] then [] else Insert(SortDescending(xs[1..]), xs[0])
  }

  function SeqSum(xs: seq<nat>): nat {
    if xs == [] then 0 else xs[0] + SeqSum(xs[1..])
  }

  lemma {:induction false} InsertMembers(xs: seq<nat>, x: nat)
    ensures multiset(Insert(xs, x)) == multiset(xs) + multiset{x}
    ensures SeqSum(Insert(xs, x)) == x + SeqSum(xs)
    decreases |xs|
  {
    if xs == [] || x >= xs[0] {
      assert ([x] + xs)[1..] == xs;
    } else {
      InsertMembers(xs[1..], x);
      var rest := Insert(xs[1..], x);
      assert xs == [xs[0]] + xs[1..];
      assert ([xs[0]] + rest)[1..] == rest;
    }
  }

  lemma {:induction false} InsertDescends(xs: seq<nat>, x: nat)
    requires Descending(xs)
    ensures Descending(Insert(xs, x))
    ensures forall v :: v in Insert(xs, x) ==> v == x || v in xs
    decreases |xs|
  {
    if xs != [] && x < xs[0] {
      InsertDescends(xs[1..], x);
      var rest := Insert(xs[1..], x);
      forall j | 0 <= j < |rest|
        ensures xs[0] >= rest[j]
      {
        assert rest[j] in rest;
        if rest[j] != x {
          var m :| 0 <= m < |xs[1..]| && xs[1..][m] == rest[j];
          assert xs[m + 1] == rest[j];
        }
      }
    }
  }

  /** Sorting permutes, and orders from the largest down. */
  lemma {:induction false} SortKeeps(xs: seq<nat>)
    ensures Descending(SortDescending(xs)) && SeqSum(SortDescending(xs)) == SeqSum(xs)
    ensures multiset(SortDescending(xs)) == multiset(xs)
    decreases |xs|
  {
    if xs != [] {
      SortKeeps(xs[1..]);
      InsertMembers(SortDescending(xs[1..]), xs[0]);
      InsertDescends(SortDescending(xs[1..]), xs[0]);
      assert xs == [xs[0]] + xs[1..];
    }
  }

  lemma SplitHead(xs: seq<nat>)
    requires Descending(xs) && xs != []
    ensures multiset(xs) == multiset{xs[0]} + multiset(xs[1..])
    ensures forall v :: v in multiset(xs) ==> v <= xs[0]
    ensures Descending(xs[1..])
  {
    assert xs == [xs[0]] + xs[1..];
  }

  /** A descending sequence is determined by its members. */
  lemma {:induction false} DescendingUnique(xs: seq<nat>, ys: seq<nat>)
    requires Descending(xs) && Descending(ys) && multiset(xs) == multiset(ys)
    ensures xs == ys
    decreases |xs|
  {
    assert |multiset(xs)| == |xs| && |multiset(ys)| == |ys|;
    if xs != [] {
      SplitHead(xs);
      SplitHead(ys);
      assert xs[0] in multiset(xs) && ys[0] in multiset(ys);
      assert multiset(xs[1..]) == multiset(xs) - multiset{xs[0]};
      assert multiset(ys[1..]) == multiset(ys) - multiset{ys[0]};
      DescendingUnique(xs[1..], ys[1..]);
    }
  }

  // ---------- counters of a set of keys ----------

  /** The counters of the given keys, as a multiset. */
  ghost function Bag(s: StatsData, keys: set<Key>): multiset<nat>
    decreases |keys|
  {
    if keys == {} then multiset{} else
      var k :| k in keys;
      multiset{CountOf(s, k)} + Bag(s, keys - {k})
  }

  lemma {:induction false} BagRemove(s: StatsData, keys: set<Key>, k: Key)
    requires k in keys
    ensures Bag(s, keys) == multiset{CountOf(s, k)} + Bag(s, keys - {k})
    decreases |keys|
  {
    var j :| j in keys && Bag(s, keys) == multiset{CountOf(s, j)} + Bag(s, keys - {j});
    if j != k {
      BagRemove(s, keys - {j}, k);
      BagRemove(s, keys - {k}, j);
      assert keys - {j} - {k} == keys - {k} - {j};
    }
  }

  /** The keys among p with counter v. */
  ghost function Holding(s: StatsData, p: set<Key>, v: nat): set<Key> {
    set k | k in p && CountOf(s, k) == v
  }

  lemma HoldingRemove(s: StatsData, p: set<Key>, k: Key, v: nat)
    requires k in p
    ensures |Holding(s, p, v)| == |Holding(s, p - {k}, v)| + if CountOf(s, k) == v then 1 else 0
  {
    var rest := Holding(s, p - {k}, v);
    if CountOf(s, k) == v {
      assert Holding(s, p, v) == rest + {k};
    } else {
      assert Holding(s, p, v) == rest;
    }
  }

  /** Each value stands in the bag once for every key with that counter. */
  lemma {:induction false} BagMeaning(s: StatsData, keys: set<Key>, v: nat)
    ensures Bag(s, keys)[v] == |Holding(s, keys, v)|
    decreases |keys|
  {
    if keys == {} {
      assert Holding(s, keys, v) == {};
    } else {
      var k :| k in keys;
      BagRemove(s, keys, k);
      BagMeaning(s, keys - {k}, v);
      HoldingRemove(s, keys, k, v);
    }
  }

  lemma BagInsert(s: StatsData, keys: set<Key>, k: Key)
    requires k !in keys
    ensures Bag(s, keys + {k}) == Bag(s, keys) + multiset{CountOf(s, k)}
  {
    BagRemove(s, keys + {k}, k);
    assert keys + {k} - {k} == keys;
  }

  ghost function Packets(s: StatsData, keys: set<Key>): int {
    Sum(keys, (k: Key) => CountOf(s, k))
  }

  /** xs lists the counters of exactly the given keys. */
  ghost predicate Lists(xs: seq<nat>, s: StatsData, keys: set<Key>) {
    multiset(xs) == Bag(s, keys) && SeqSum(xs) == Packets(s, keys) && |xs| == |keys|
  }

  lemma {:induction false} SeqSumSnoc(xs: seq<nat>, x: nat)
    ensures SeqSum(xs + [x]) == SeqSum(xs) + x
    decreases |xs|
  {
    if xs == [] {
      assert xs + [x] == [x];
    } else {
      assert (xs + [x])[1..] == xs[1..] + [x];
      SeqSumSnoc(xs[1..], x);
    }
  }

  lemma ListsSnoc(xs: seq<nat>, s: StatsData, keys: set<Key>, k: Key)
    requires Lists(xs, s, keys) && k !in keys
    ensures Lists(xs + [CountOf(s, k)], s, keys + {k})
  {
    BagInsert(s, keys, k);
    SeqSumSnoc(xs, CountOf(s, k));
    SumInsert(keys, (j: Key) => CountOf(s, j), k);
  }

  lemma SortLists(xs: seq<nat>, s: StatsData, keys: set<Key>)
    requires Lists(xs, s, keys)
    ensures Lists(SortDescending(xs), s, keys) && Descending(SortDescending(xs))
  {
    SortKeeps(xs);
    assert |multiset(SortDescending(xs))| == |SortDescending(xs)| && |multiset(xs)| == |xs|;
  }

  // ---------- the report ----------

  /** build_pkts_per_flow: the counters of all flows, largest first. */
  method PktsPerFlow(s: StatsData) returns (ppf: seq<nat>)
    ensures Lists(ppf, s, s.keyCounter.Keys) && Descending(ppf)
  {
    ppf := [];
    ghost var done: set<Key> := {};
    var todo := s.keyCounter.Keys;
    while todo != {}
      invariant todo <= s.keyCounter.Keys
      invariant forall k :: k in done <==> k in s.keyCounter && k !in todo
      invariant Lists(ppf, s, done)
      decreases |todo|
    {
      var k :| k in todo;
      todo := todo - {k};
      ListsSnoc(ppf, s, done, k);
      done := done + {k};
      ppf := ppf + [s.keyCounter[k]];
    }
    assert done == s.keyCounter.Keys;
    SortLists(ppf, s, done);
    ppf := SortDescending(ppf);
  }

  /** The flows of epoch i that the previous epoch had too. */
  ghost function Persistent(epochs: seq<Epoch>, i: nat): set<Key>
    requires i < |epochs|
  {
    if i == 0 then {} else epochs[i].stats.keyCounter.Keys * epochs[i - 1].stats.keyCounter.Keys
  }

  /** The two lists of epoch i: flows the previous epoch had too, and new flows. */
  method EpochFlows(epochs: seq<Epoch>, i: nat) returns (pf: seq<nat>, nf: seq<nat>)
    requires i < |epochs|
    ensures Lists(pf, epochs[i].stats, Persistent(epochs, i)) && Descending(pf)
    ensures Lists(nf, epochs[i].stats, epochs[i].stats.keyCounter.Keys - Persistent(epochs, i))
    ensures Descending(nf)
  {
    pf, nf := [], [];
    var s := epochs[i].stats;
    ghost var known := Persistent(epochs, i);
    ghost var p: set<Key>, n: set<Key> := {}, {};
    var todo := s.keyCounter.Keys;
    while todo != {}
      invariant todo <= s.keyCounter.Keys
      invariant forall k :: k in p <==> k in known && k !in todo
      invariant forall k :: k in n <==> k in s.keyCounter && k !in known && k !in todo
      invariant Lists(pf, s, p) && Lists(nf, s, n)
      decreases |todo|
    {
      var k :| k in todo;
      todo := todo - {k};
      if i == 0 || k !in epochs[i - 1].stats.keyCounter {
        ListsSnoc(nf, s, n, k);
        n := n + {k};
        nf := nf + [s.keyCounter[k]];
      } else {
        ListsSnoc(pf, s, p, k);
        p := p + {k};
        pf := pf + [s.keyCounter[k]];
      }
    }
    SortLists(pf, s, p);
    SortLists(nf, s, n);
    pf, nf := SortDescending(pf), SortDescending(nf);
    assert p == known && n == s.keyCounter.Keys - known;
  }

  /** The report does not depend on the iteration order of the hash table. */
  lemma ReportIsDeterministic(s: StatsData, keys: set<Key>, xs: seq<nat>, ys: seq<nat>)
    requires Lists(xs, s, keys) && Descending(xs) && Lists(ys, s, keys) && Descending(ys)
    ensures xs == ys
  {
    DescendingUnique(xs, ys);
  }

  /** The pkts_per_flow list of a node has one entry per flow and sums to its packet count, the
      number of its updates outside warmup. */
  lemma FlowsAddUp(crc: Key -> U32, t: Tables, us: seq<Update>, op: int, ppf: seq<nat>)
    requires Fresh(t) && AllKnown(t, us) && op in t.nodes && op in After(crc, t, us).nodes
    requires Lists(ppf, After(crc, t, us).nodes[op], After(crc, t, us).nodes[op].keyCounter.Keys)
    ensures var node := After(crc, t, us).nodes[op];
            && SeqSum(ppf) == node.totalCount == |NodeKeys(us, op)|
            && |ppf| == |node.keyCounter|
            && (forall key :: key in node.keyCounter <==> key in NodeKeys(us, op))
            && (forall key :: CountOf(node, key) == Occurrences(NodeKeys(us, op), key))
  {
    NodesHoldKeys(crc, t, us, op);
    CountersMeaning(crc, NodeKeys(us, op));
  }

  lemma {:induction false} SumSplit(all: set<Key>, p: set<Key>, f: Key -> int)
    requires p <= all
    ensures Sum(all, f) == Sum(p, f) + Sum(all - p, f)
    decreases |p|
  {
    if p == {} {
      assert all - p == all;
    } else {
      var k :| k in p;
      SumRemove(p, f, k);
      SumRemove(all, f, k);
      SumSplit(all - {k}, p - {k}, f);
      assert all - {k} - (p - {k}) == all - p;
    }
  }

  lemma ListsPartition(s: StatsData, p: set<Key>, pf: seq<nat>, nf: seq<nat>)
    requires p <= s.keyCounter.Keys && Lists(pf, s, p) && Lists(nf, s, s.keyCounter.Keys - p)
    ensures |pf| + |nf| == |s.keyCounter|
    ensures SeqSum(pf) + SeqSum(nf) == Packets(s, s.keyCounter.Keys)
  {
    var all := s.keyCounter.Keys;
    SumSplit(all, p, (k: Key) => CountOf(s, k));
    assert all == p + (all - p);
  }

  /** The two lists of an epoch partition its flows and its packets; in the first epoch all
      flows are new. */
  lemma EpochPartition(crc: Key -> U32, t: Tables, us: seq<Update>, i: nat, pf: seq<nat>, nf: seq<nat>)
    requires Fresh(t) && AllKnown(t, us) && i < |After(crc, t, us).epochs|
    requires var epochs := After(crc, t, us).epochs;
             && Lists(pf, epochs[i].stats, Persistent(epochs, i))
             && Lists(nf, epochs[i].stats, epochs[i].stats.keyCounter.Keys - Persistent(epochs, i))
    ensures var stats := After(crc, t, us).epochs[i].stats;
            && |pf| + |nf| == |stats.keyCounter|
            && SeqSum(pf) + SeqSum(nf) == stats.totalCount == |EpochKeys(crc, t, us)[i]|
            && (i == 0 ==> pf == [])
  {
    var epochs := After(crc, t, us).epochs;
    var keys := EpochKeys(crc, t, us)[i];
    EpochsCutKeys(crc, t, us);
    assert epochs[i].stats == StatsOf(crc, keys);
    CountersMeaning(crc, keys);
    ListsPartition(epochs[i].stats, Persistent(epochs, i), pf, nf);
  }

  /** The keys of `now` that stand there v times, and in `before` as well. */
  ghost function Returning(now: seq<Key>, before: seq<Key>, v: nat): set<Key> {
    set k | k in now && k in before && Occurrences(now, k) == v
  }

  /** The keys of `now` that stand there v times, but not in `before`. */
  ghost function Arriving(now: seq<Key>, before: seq<Key>, v: nat): set<Key> {
    set k | k in now && k !in before && Occurrences(now, k) == v
  }

  lemma HoldingReturning(crc: Key -> U32, now: seq<Key>, before: seq<Key>, p: set<Key>, v: nat)
    requires forall k :: k in p <==> k in now && k in before
    ensures Holding(StatsOf(crc, now), p, v) == Returning(now, before, v)
  {
    CountersMeaning(crc, now);
  }

  lemma HoldingArriving(crc: Key -> U32, now: seq<Key>, before: seq<Key>, p: set<Key>, v: nat)
    requires forall k :: k in p <==> k in now && k !in before
    ensures Holding(StatsOf(crc, now), p, v) == Arriving(now, before, v)
  {
    CountersMeaning(crc, now);
  }

  lemma FlowsAre(crc: Key -> U32, keys: seq<Key>)
    ensures forall k :: k in StatsOf(crc, keys).keyCounter.Keys <==> k in keys
  {
    CountersMeaning(crc, keys);
  }

  lemma EpochHolds(crc: Key -> U32, t: Tables, us: seq<Update>, i: nat)
    requires t.epochs == [] && AllKnown(t, us) && i < |After(crc, t, us).epochs|
    ensures After(crc, t, us).epochs[i].stats == StatsOf(crc, EpochKeys(crc, t, us)[i])
  {
    EpochsCutKeys(crc, t, us);
  }

  /** The keys of the epoch before, none before the first. */
  ghost function KeysBefore(ks: seq<seq<Key>>, i: nat): seq<Key>
    requires i < |ks|
  {
    if i == 0 then [] else ks[i - 1]
  }

  lemma PersistentAre(crc: Key -> U32, t: Tables, us: seq<Update>, i: nat)
    requires t.epochs == [] && AllKnown(t, us) && i < |After(crc, t, us).epochs|
    ensures forall k :: k in Persistent(After(crc, t, us).epochs, i) <==>
              k in EpochKeys(crc, t, us)[i] && k in KeysBefore(EpochKeys(crc, t, us), i)
  {
    var ks := EpochKeys(crc, t, us);
    EpochHolds(crc, t, us, i);
    FlowsAre(crc, ks[i]);
    if i > 0 {
      EpochHolds(crc, t, us, i - 1);
      FlowsAre(crc, ks[i - 1]);
    }
  }

  lemma OthersAre(crc: Key -> U32, t: Tables, us: seq<Update>, i: nat)
    requires t.epochs == [] && AllKnown(t, us) && i < |After(crc, t, us).epochs|
    ensures var epochs := After(crc, t, us).epochs;
            forall k :: k in epochs[i].stats.keyCounter.Keys - Persistent(epochs, i) <==>
              k in EpochKeys(crc, t, us)[i] && k !in KeysBefore(EpochKeys(crc, t, us), i)
  {
    PersistentAre(crc, t, us, i);
    EpochHolds(crc, t, us, i);
    FlowsAre(crc, EpochKeys(crc, t, us)[i]);
  }

  /** What the lists hold, by the keys the epochs have counted: the first has the number of
      occurrences of every key that the previous epoch counted too, the second that of every
      other key. In the first epoch all keys are in the second list. */
  lemma EpochListsExact(crc: Key -> U32, t: Tables, us: seq<Update>, i: nat, pf: seq<nat>, nf: seq<nat>, v: nat)
    requires t.epochs == [] && AllKnown(t, us) && i < |After(crc, t, us).epochs|
    requires var epochs := After(crc, t, us).epochs;
             && Lists(pf, epochs[i].stats, Persistent(epochs, i))
             && Lists(nf, epochs[i].stats, epochs[i].stats.keyCounter.Keys - Persistent(epochs, i))
    ensures var ks := EpochKeys(crc, t, us);
            && multiset(pf)[v] == |Returning(ks[i], KeysBefore(ks, i), v)|
            && multiset(nf)[v] == |Arriving(ks[i], KeysBefore(ks, i), v)|
  {
    var epochs, ks := After(crc, t, us).epochs, EpochKeys(crc, t, us);
    var s, p := epochs[i].stats, Persistent(epochs, i);
    EpochHolds(crc, t, us, i);
    PersistentAre(crc, t, us, i);
    OthersAre(crc, t, us, i);
    BagMeaning(s, p, v);
    BagMeaning(s, s.keyCounter.Keys - p, v);
    HoldingReturning(crc, ks[i], KeysBefore(ks, i), p, v);
    HoldingArriving(crc, ks[i], KeysBefore(ks, i), s.keyCounter.Keys - p, v);
  }

  /** The pkts_per_flow list of a node has the number of occurrences of each of its keys. */
  lemma NodeListExact(crc: Key -> U32, t: Tables, us: seq<Update>, op: int, ppf: seq<nat>, v: nat)
    requires Fresh(t) && AllKnown(t, us) && op in t.nodes && op in After(crc, t, us).nodes
    requires Lists(ppf, After(crc, t, us).nodes[op], After(crc, t, us).nodes[op].keyCounter.Keys)
    ensures multiset(ppf)[v] == |Arriving(NodeKeys(us, op), [], v)|
  {
    var keys, s := NodeKeys(us, op), After(crc, t, us).nodes[op];
    NodesHoldKeys(crc, t, us, op);
    FlowsAre(crc, keys);
    BagMeaning(s, s.keyCounter.Keys, v);
    HoldingArriving(crc, keys, [], s.keyCounter.Keys, v);
  }
}
