/**
 Per-flow counters and the 32 hash sets, one per CRC mask width
 (synthesized/echo-profiler.cpp, struct Stats).

 A `StatsData` is the value of a Stats object. The CRC is a parameter: the statements hold
 for every 32-bit hash function.
 */
module FlowStats {
  import opened Basics
  import opened Sums
  import opened PcapReading

  type Key = seq<Byte>

  datatype StatsData = StatsData(
    keyCounter: map<Key, nat>,
    maskToCrc: map<nat, set<nat>>,
    totalCount: nat)

  /** Bitwise conjunction of naturals. */
  function BitAnd(a: nat, b: nat): (r: nat)
    ensures r <= a
    decreases a
  {
    if a == 0 || b == 0 then 0 else 2 * BitAnd(a / 2, b / 2) + (a % 2) * (b % 2)
  }

  /** (mask << 1) | 1 on 32-bit words. */
  function ShiftInOne(mask: nat): nat {
    2 * mask % 0x1_0000_0000 + 1
  }

  ghost function Pow2(k: nat): (p: nat)
    ensures p > 0
  {
    if k == 0 then 1 else 2 * Pow2(k - 1)
  }

  ghost function Mask(k: nat): nat {
    Pow2(k) - 1
  }

  /** The k low bits of x. */
  ghost function Low(x: nat, k: nat): nat
    decreases k
  {
    if k == 0 then 0 else 2 * Low(x / 2, k - 1) + x % 2
  }

  ghost function CountOf(s: StatsData, key: Key): nat {
    if key in s.keyCounter then s.keyCounter[key] else 0
  }

  ghost function Inserted(sets: map<nat, set<nat>>, crc32: nat): map<nat, set<nat>> {
    map m | m in sets :: sets[m] + {BitAnd(crc32, m)}
  }

  ghost function Updated(crc: Key -> U32, s: StatsData, key: Key): StatsData {
    StatsData(s.keyCounter[key := CountOf(s, key) + 1], Inserted(s.maskToCrc, crc(key)), s.totalCount + 1)
  }

  /** Empty sets for the masks of 1 to n low bits. */
  ghost function NoHashes(n: nat): map<nat, set<nat>> {
    map k | 1 <= k <= n :: Mask(k) := {}
  }

  ghost function NoStats(): StatsData {
    StatsData(map[], NoHashes(32), 0)
  }

  /** The value of a Stats object after the given updates. */
  ghost function StatsOf(crc: Key -> U32, keys: seq<Key>): StatsData {
    if keys == [] then NoStats()
    else Updated(crc, StatsOf(crc, keys[..|keys| - 1]), keys[|keys| - 1])
  }

  lemma {:induction false} Pow2Grows(a: nat, b: nat)
    requires a < b
    ensures Pow2(a) < Pow2(b)
    decreases b
  {
    if a < b - 1 { Pow2Grows(a, b - 1); }
  }

  /** The loop of the constructor stops at the 32nd mask, not before. */
  lemma MaskOf32(k: nat)
    requires k <= 32
    ensures Mask(k) <= 0xffff_ffff
    ensures Mask(k) == 0xffff_ffff <==> k == 32
  {
    assert Pow2(8) == 0x100;
    assert Pow2(16) == 0x1_0000;
    assert Pow2(24) == 0x100_0000;
    assert Pow2(32) == 0x1_0000_0000;
    if k < 32 { Pow2Grows(k, 32); }
  }

  lemma MaskStep(k: nat)
    requires k < 32
    ensures ShiftInOne(Mask(k)) == Mask(k + 1)
  {
    MaskOf32(k + 1);
  }

  lemma NoHashesStep(k: nat)
    ensures NoHashes(k)[Mask(k + 1) := {}] == NoHashes(k + 1)
  {
  }

  class Stats {
    const crc: Key -> U32
    var keyCounter: map<Key, nat>
    var maskToCrc: map<nat, set<nat>>
    var totalCount: nat

    ghost function View(): StatsData
      reads this
    {
      StatsData(keyCounter, maskToCrc, totalCount)
    }

    /** The loop that doubles the mask stops, with exactly the 32 low-bit masks as keys. */
    constructor (crc: Key -> U32)
      ensures this.crc == crc && View() == NoStats()
    {
      this.crc := crc;
      keyCounter, maskToCrc, totalCount := map[], map[], 0;
      new;
      var mask: nat := 0;
      ghost var k := 0;
      while true
        invariant 0 <= k < 32 && mask == Mask(k)
        invariant maskToCrc == NoHashes(k)
        invariant keyCounter == map[] && totalCount == 0 && this.crc == crc
        decreases 32 - k
      {
        MaskStep(k);
        NoHashesStep(k);
        mask := ShiftInOne(mask);
        maskToCrc := maskToCrc[mask := {}];
        k := k + 1;
        MaskOf32(k);
        if mask == 0xffff_ffff {
          break;
        }
      }
    }

    method InsertHashes(crc32: nat)
      modifies this`maskToCrc
      ensures maskToCrc == Inserted(old(maskToCrc), crc32)
    {
      var before := maskToCrc;
      var todo := maskToCrc.Keys;
      while todo != {}
        invariant todo <= before.Keys
        invariant maskToCrc.Keys == before.Keys
        invariant forall m :: m in before ==>
                    maskToCrc[m] == if m in todo then before[m] else before[m] + {BitAnd(crc32, m)}
        decreases |todo|
      {
        var m :| m in todo;
        maskToCrc := maskToCrc[m := maskToCrc[m] + {BitAnd(crc32, m)}];
        todo := todo - {m};
      }
    }

    method Update(key: Key)
      modifies this
      ensures View() == Updated(crc, old(View()), key)
    {
      keyCounter := keyCounter[key := if key in keyCounter then keyCounter[key] + 1 else 1];
      totalCount := totalCount + 1;
      InsertHashes(crc(key));
    }
  }

  // ---------- masks ----------

  lemma {:induction false} LowOfZero(k: nat)
    ensures Low(0, k) == 0
  {
    if k > 0 { LowOfZero(k - 1); }
  }

  lemma {:induction false} AndMask(x: nat, k: nat)
    ensures BitAnd(x, Mask(k)) == Low(x, k)
    decreases k
  {
    if k > 0 {
      AndMask(x / 2, k - 1);
      assert Mask(k) / 2 == Mask(k - 1) && Mask(k) % 2 == 1;
      LowOfZero(k - 1);
    }
  }

  /** One bit fewer: what is left, and the two values it can come from. */
  lemma {:induction false} DropTopBit(x: nat, k: nat)
    ensures Low(Low(x, k + 1), k) == Low(x, k)
    ensures Low(x, k + 1) == Low(x, k) || Low(x, k + 1) == Low(x, k) + Pow2(k)
    decreases k
  {
    if k > 0 {
      DropTopBit(x / 2, k - 1);
      assert Low(x, k + 1) == 2 * Low(x / 2, k) + x % 2;
    }
  }

  lemma {:induction false} LowBelow(x: nat, k: nat)
    ensures Low(x, k) < Pow2(k)
    decreases k
  {
    if k > 0 { LowBelow(x / 2, k - 1); }
  }

  /** The low bits are the remainder modulo the power of two. */
  lemma {:induction false} LowIsRemainder(x: nat, k: nat) returns (q: nat)
    ensures x == Pow2(k) * q + Low(x, k) && Low(x, k) < Pow2(k)
    decreases k
  {
    if k == 0 {
      q := x;
    } else {
      q := LowIsRemainder(x / 2, k - 1);
      LowBelow(x, k);
      assert Pow2(k) * q == 2 * (Pow2(k - 1) * q);
    }
  }

  // ---------- what the counters and hash sets hold ----------

  ghost function Occurrences(keys: seq<Key>, key: Key): nat {
    if keys == [] then 0
    else Occurrences(keys[..|keys| - 1], key) + if keys[|keys| - 1] == key then 1 else 0
  }

  lemma InSnoc(keys: seq<Key>)
    requires keys != []
    ensures forall key :: key in keys <==> key in keys[..|keys| - 1] || key == keys[|keys| - 1]
  {
    assert keys == keys[..|keys| - 1] + [keys[|keys| - 1]];
  }

  lemma CounterStep(s0: StatsData, key: Key, s: StatsData)
    requires s.keyCounter == s0.keyCounter[key := CountOf(s0, key) + 1]
    ensures forall k :: CountOf(s, k) == CountOf(s0, k) + if k == key then 1 else 0
    ensures Sum(s.keyCounter.Keys, (k: Key) => CountOf(s, k)) ==
            Sum(s0.keyCounter.Keys, (k: Key) => CountOf(s0, k)) + 1
  {
    var f, g := (k: Key) => CountOf(s0, k), (k: Key) => CountOf(s, k);
    SumPad(s0.keyCounter.Keys, s.keyCounter.Keys, f);
    SumBump(s.keyCounter.Keys, f, g, key);
  }

  /** After any updates the counters are occurrence counts, and they sum to total_count. */
  lemma {:induction false} CountersMeaning(crc: Key -> U32, keys: seq<Key>)
    ensures var s := StatsOf(crc, keys);
            && s.totalCount == |keys|
            && (forall key :: CountOf(s, key) == Occurrences(keys, key))
            && (forall key :: key in s.keyCounter <==> key in keys)
            && Sum(s.keyCounter.Keys, (k: Key) => CountOf(s, k)) == s.totalCount
    decreases |keys|
  {
    if keys != [] {
      var init, last := keys[..|keys| - 1], keys[|keys| - 1];
      CountersMeaning(crc, init);
      CounterStep(StatsOf(crc, init), last, StatsOf(crc, keys));
      InSnoc(keys);
    }
  }

  lemma StatsOfSnoc(crc: Key -> U32, keys: seq<Key>, key: Key)
    ensures StatsOf(crc, keys + [key]) == Updated(crc, StatsOf(crc, keys), key)
  {
    assert (keys + [key])[..|keys|] == keys;
  }

  lemma {:induction false} HashKeys(crc: Key -> U32, keys: seq<Key>)
    ensures StatsOf(crc, keys).maskToCrc.Keys == NoHashes(32).Keys
    decreases |keys|
  {
    if keys != [] {
      HashKeys(crc, keys[..|keys| - 1]);
    }
  }

  /** The hash set of k bits after the given updates. */
  ghost function HashSet(crc: Key -> U32, keys: seq<Key>, k: nat): set<nat>
    requires 1 <= k <= 32
  {
    HashKeys(crc, keys);
    StatsOf(crc, keys).maskToCrc[Mask(k)]
  }

  ghost function LowHashes(crc: Key -> U32, keys: seq<Key>, k: nat): set<nat> {
    set key | key in keys :: Low(crc(key), k)
  }

  lemma LowHashesSnoc(crc: Key -> U32, init: seq<Key>, last: Key, k: nat)
    ensures LowHashes(crc, init + [last], k) == LowHashes(crc, init, k) + {Low(crc(last), k)}
  {
    forall key | key in init + [last]
      ensures key in init || key == last
    {
    }
    assert forall key :: key in init ==> key in init + [last];
    assert last in init + [last];
  }

  /** The set of k bits holds the k low bits of the hashes of all keys seen. */
  lemma {:induction false} HashSetIsImage(crc: Key -> U32, keys: seq<Key>, k: nat)
    requires 1 <= k <= 32
    ensures HashSet(crc, keys, k) == LowHashes(crc, keys, k)
    decreases |keys|
  {
    HashKeys(crc, keys);
    if keys == [] {
      assert NoHashes(32)[Mask(k)] == {};
    } else {
      var init, last := keys[..|keys| - 1], keys[|keys| - 1];
      HashKeys(crc, init);
      HashSetIsImage(crc, init, k);
      AndMask(crc(last), k);
      assert keys == init + [last];
      LowHashesSnoc(crc, init, last, k);
    }
  }

  // ---------- set sizes ----------

  /** A set all of whose members are values of f on s is no larger than s. */
  lemma {:induction false} ImageSize<A(!new), B(!new)>(s: set<A>, f: A -> B, image: set<B>)
    requires forall y :: y in image ==> exists x :: x in s && f(x) == y
    ensures |image| <= |s|
    decreases |s|
  {
    if s == {} {
      assert image == {};
    } else {
      var a :| a in s;
      ImageSize(s - {a}, f, image - {f(a)});
      SubsetSize(image, image - {f(a)} + {f(a)});
    }
  }

  lemma {:induction false} BoundedSize(s: set<nat>, n: nat)
    requires forall x :: x in s ==> x < n
    ensures |s| <= n
    decreases n
  {
    if n == 0 {
      assert s == {};
    } else {
      BoundedSize(s - {n - 1}, n - 1);
      SubsetSize(s, s - {n - 1} + {n - 1});
    }
  }

  /** s is the image of t under masking with k bits. */
  ghost predicate MaskedTo(t: set<nat>, s: set<nat>, k: nat) {
    && (forall v: nat :: v in t ==> BitAnd(v, Mask(k)) in s)
    && (forall u: nat :: u in s ==> exists v: nat :: v in t && BitAnd(v, Mask(k)) == u)
  }

  lemma LowHashesNest(crc: Key -> U32, keys: seq<Key>, k: nat)
    ensures MaskedTo(LowHashes(crc, keys, k + 1), LowHashes(crc, keys, k), k)
  {
    forall key: Key
      ensures BitAnd(Low(crc(key), k + 1), Mask(k)) == Low(crc(key), k)
    {
      DropTopBit(crc(key), k);
      AndMask(Low(crc(key), k + 1), k);
    }
    forall u: nat | u in LowHashes(crc, keys, k)
      ensures exists v: nat :: v in LowHashes(crc, keys, k + 1) && BitAnd(v, Mask(k)) == u
    {
      var key :| key in keys && u == Low(crc(key), k);
      assert Low(crc(key), k + 1) in LowHashes(crc, keys, k + 1);
    }
  }

  lemma LowHashesHalve(crc: Key -> U32, keys: seq<Key>, k: nat)
    ensures |LowHashes(crc, keys, k)| <= |LowHashes(crc, keys, k + 1)| <= 2 * |LowHashes(crc, keys, k)|
  {
    var s, t := LowHashes(crc, keys, k), LowHashes(crc, keys, k + 1);
    LowHashesNest(crc, keys, k);
    ImageSize(t, (v: nat) => BitAnd(v, Mask(k)), s);
    var high := t - s;
    forall v | v in high
      ensures exists u :: u in s && ((u: nat) => u + Pow2(k))(u) == v
    {
      var key :| key in keys && v == Low(crc(key), k + 1);
      DropTopBit(crc(key), k);
      var low := Low(crc(key), k);
      assert low in s && ((u: nat) => u + Pow2(k))(low) == v;
    }
    ImageSize(s, (u: nat) => u + Pow2(k), high);
    SubsetSize(t, s + high);
  }

  /** Each hash set is the next wider one with the top bit dropped; so it is no larger, and
      no smaller than half of it. */
  lemma HashSetsRefine(crc: Key -> U32, keys: seq<Key>, k: nat)
    requires 1 <= k < 32
    ensures MaskedTo(HashSet(crc, keys, k + 1), HashSet(crc, keys, k), k)
    ensures |HashSet(crc, keys, k)| <= |HashSet(crc, keys, k + 1)| <= 2 * |HashSet(crc, keys, k)|
  {
    HashSetIsImage(crc, keys, k);
    HashSetIsImage(crc, keys, k + 1);
    LowHashesNest(crc, keys, k);
    LowHashesHalve(crc, keys, k);
  }

  /** A set of k-bit hashes has at most 2^k members, and at most one per flow. */
  lemma HashSetBounds(crc: Key -> U32, keys: seq<Key>, k: nat)
    requires 1 <= k <= 32
    ensures |HashSet(crc, keys, k)| <= Pow2(k)
    ensures |HashSet(crc, keys, k)| <= |StatsOf(crc, keys).keyCounter|
  {
    HashSetIsImage(crc, keys, k);
    var s := HashSet(crc, keys, k);
    forall v | v in s
      ensures v < Pow2(k)
    {
      var key :| key in keys && v == Low(crc(key), k);
      LowBelow(crc(key), k);
    }
    BoundedSize(s, Pow2(k));
    CountersMeaning(crc, keys);
    ImageSize(StatsOf(crc, keys).keyCounter.Keys, (key: Key) => Low(crc(key), k), s);
  }
}
