/**
 Borrowing the headers of a packet chunk by chunk (dpdk-nfs/nf-util.h, over
 dpdk-nfs/lib/util/packet-io.c): the borrowed-chunk stack, the header getters, and inserting
 and shrinking chunks by moving bytes inside the packet buffer.

 Pointers are positions in the buffer.
 */
module Chunks {

  import opened Basics

  const MAX_N_CHUNKS := 100
  const ETHER_SIZE := 14
  const IPV4_SIZE := 20
  const IP_MIN_SIZE_WORDS := 5
  const WORD_SIZE := 4

  function Listed(o: Option<nat>): seq<nat> {
    if o.Some? then [o.value] else []
  }

  ghost function Reverse(s: seq<nat>): seq<nat> {
    if s == [] then [] else [s[|s| - 1]] + Reverse(s[..|s| - 1])
  }

  /** The bytes of `from + length .. to` stand `length` lower, the others where they were. */
  ghost predicate MovedDown(before: seq<Byte>, after: seq<Byte>, from: nat, to: nat, length: nat)
    requires from + length <= to <= |before|
  {
    && |after| == |before|
    && (forall i {:trigger after[i]} :: from <= i < to - length ==> after[i] == before[i + length])
    && forall i {:trigger after[i]} :: 0 <= i < from || to - length <= i < |before| ==> after[i] == before[i]
  }

  /** The bytes of `from .. to - offset` stand `offset` higher, the others where they were. */
  ghost predicate MovedUp(before: seq<Byte>, after: seq<Byte>, from: nat, to: nat, offset: nat)
    requires from + offset <= to <= |before|
  {
    && |after| == |before|
    && (forall i {:trigger after[i]} :: from + offset <= i < to ==> after[i] == before[i - offset])
    && forall i {:trigger after[i]} :: 0 <= i < from + offset || to <= i < |before| ==> after[i] == before[i]
  }

  method MoveDown(mem: array<Byte>, from: nat, to: nat, length: nat)
    requires from + length <= to <= mem.Length
    modifies mem
    ensures MovedDown(old(mem[..]), mem[..], from, to, length)
  {
    var current := from;
    while current + length < to
      invariant from <= current <= to - length
      invariant forall i :: from <= i < current ==> mem[i] == old(mem[i + length])
      invariant forall i :: 0 <= i < from || current <= i < mem.Length ==> mem[i] == old(mem[i])
    {
      mem[current] := mem[current + length];
      current := current + 1;
    }
  }

  method MoveUp(mem: array<Byte>, from: nat, to: nat, offset: nat)
    requires from + offset <= to <= mem.Length && 0 < offset
    modifies mem
    ensures MovedUp(old(mem[..]), mem[..], from, to, offset)
  {
    var current: int := to - 1;
    while current >= from + offset
      invariant from + offset - 1 <= current < to
      invariant forall i :: current < i < to ==> mem[i] == old(mem[i - offset])
      invariant forall i :: 0 <= i <= current || to <= i < mem.Length ==> mem[i] == old(mem[i])
      decreases current
    {
      mem[current] := mem[current - offset];
      current := current - 1;
    }
  }

  method ShiftChunks(chunks: array<nat>, num: nat, delta: int)
    requires num <= chunks.Length
    requires forall i :: 0 <= i < num ==> chunks[i] + delta >= 0
    modifies chunks
    ensures forall i :: 0 <= i < num ==> chunks[i] == old(chunks[i]) + delta
  {
    for i := 0 to num
      invariant forall k :: 0 <= k < i ==> chunks[k] == old(chunks[k]) + delta
      invariant forall k :: i <= k < num ==> chunks[k] == old(chunks[k])
    {
      chunks[i] := chunks[i] + delta;
    }
  }

  /** The chunks lie one after the other from `start` up to `end`. */
  ghost predicate Tiles(chunks: seq<nat>, lens: seq<nat>, start: nat, end: nat)
    decreases |chunks|
  {
    |chunks| == |lens| &&
    if chunks == [] then start == end else
      var n := |chunks| - 1;
      chunks[n] + lens[n] == end && Tiles(chunks[..n], lens[..n], start, chunks[n])
  }

  lemma TilesSnoc(chunks: seq<nat>, lens: seq<nat>, start: nat, end: nat, length: nat)
    requires Tiles(chunks, lens, start, end)
    ensures Tiles(chunks + [end], lens + [length], start, end + length)
  {
    assert (chunks + [end])[..|chunks|] == chunks && (lens + [length])[..|lens|] == lens;
  }

  lemma {:induction false} TilesFrom(chunks: seq<nat>, lens: seq<nat>, start: nat, end: nat)
    requires Tiles(chunks, lens, start, end)
    ensures start <= end && forall i :: 0 <= i < |chunks| ==> start <= chunks[i] <= end
    decreases |chunks|
  {
    if chunks != [] {
      var n := |chunks| - 1;
      TilesFrom(chunks[..n], lens[..n], start, chunks[n]);
      assert forall i :: 0 <= i < n ==> chunks[..n][i] == chunks[i];
    }
  }

  lemma {:induction false} TilesShift(chunks: seq<nat>, shifted: seq<nat>, lens: seq<nat>,
                                      start: nat, end: nat, delta: int)
    requires Tiles(chunks, lens, start, end) && |shifted| == |chunks|
    requires start + delta >= 0 && end + delta >= 0
    requires forall i :: 0 <= i < |chunks| ==> shifted[i] == chunks[i] + delta
    ensures Tiles(shifted, lens, start + delta, end + delta)
    decreases |chunks|
  {
    if chunks != [] {
      var n := |chunks| - 1;
      TilesShift(chunks[..n], shifted[..n], lens[..n], start, chunks[n], delta);
    }
  }

  lemma TilesCut(chunks: seq<nat>, lens: seq<nat>, start: nat, end: nat, length: nat)
    requires Tiles(chunks, lens, start, end) && chunks != []
    ensures var n := |chunks| - 1; Tiles(chunks, lens[..n] + [length], start, chunks[n] + length)
  {
    var n := |chunks| - 1;
    assert (lens[..n] + [length])[..n] == lens[..n];
  }

  lemma LastLength(chunks: seq<nat>, lens: seq<nat>, start: nat, end: nat)
    requires Tiles(chunks, lens, start, end) && chunks != []
    ensures var n := |chunks| - 1; chunks[n] <= end && lens == lens[..n] + [end - chunks[n]]
    ensures start <= chunks[|chunks| - 1]
  {
    TilesFrom(chunks, lens, start, end);
  }

  /** The length of the IPv4 options that the first header byte announces. */
  function OptionsLength(versionIhl: Byte): nat {
    if versionIhl % 16 < IP_MIN_SIZE_WORDS then 0 else (versionIhl % 16 - IP_MIN_SIZE_WORDS) * WORD_SIZE
  }

  lemma Assoc(a: seq<nat>, x: nat, b: seq<nat>)
    ensures a + [x] + b == a + ([x] + b)
  {
  }

  lemma ReverseStep(returned: seq<nat>, chunks: seq<nat>)
    requires chunks != []
    ensures var n := |chunks| - 1; returned + [chunks[n]] + Reverse(chunks[..n]) == returned + Reverse(chunks)
  {
    var n := |chunks| - 1;
    var r := Reverse(chunks[..n]);
    assert Reverse(chunks) == [chunks[n]] + r;
    Assoc(returned, chunks[n], r);
  }

  class Packet {
    const mem: array<Byte>       // the buffer, with headroom before the packet
    var base: nat                // where the packet starts in it
    var total: nat               // global_total_length
    var read: nat                // global_read_length
    const chunks: array<nat>     // chunks_borrowed
    var num: nat                 // chunks_borrowed_num
    ghost var lens: seq<nat>     // the length each chunk was borrowed with
    ghost var returned: seq<nat> // chunks returned, in order

    ghost predicate Valid()
      reads this, chunks
    {
      && chunks.Length == MAX_N_CHUNKS && num <= MAX_N_CHUNKS
      && base + total <= mem.Length && total < 0x1_0000_0000
      && read <= total
      && Tiles(chunks[..num], lens, base, base + read)
    }

    ghost function Data(): seq<Byte>
      reads this, mem
      requires base + total <= mem.Length
    {
      mem[..][base..base + total]
    }

    ghost function Borrowed(): seq<nat>
      reads this, chunks
      requires num <= chunks.Length
    {
      chunks[..num]
    }

    /** A received packet, before any chunk is borrowed. */
    constructor (mem: array<Byte>, base: nat, total: nat)
      requires base + total <= mem.Length && total < 0x1_0000_0000
      ensures Valid() && num == 0 && read == 0 && this.mem == mem && this.base == base && this.total == total
      ensures returned == [] && fresh(chunks)
    {
      this.mem, this.base, this.total := mem, base, total;
      read, num := 0, 0;
      chunks := new nat[MAX_N_CHUNKS](i => 0);
      lens, returned := [], [];
    }

    method BorrowNextChunk(length: nat) returns (chunk: nat)
      requires Valid() && num < MAX_N_CHUNKS && read + length <= total
      modifies `read, `num, `lens, chunks
      ensures Valid() && chunk == base + old(read) && read == old(read) + length
      ensures Borrowed() == old(Borrowed()) + [chunk] && lens == old(lens) + [length]
      ensures num == old(num) + 1
    {
      chunk := base + read;
      read := read + length;
      chunks[num] := chunk;
      num := num + 1;
      lens := lens + [length];
      assert chunks[..num] == old(chunks[..num]) + [chunk];
      TilesSnoc(old(chunks[..num]), old(lens), base, chunk, length);
    }

    function UnreadLength(): nat
      reads this
      requires read <= total
    {
      total - read
    }

    // ---------- the header walk ----------

    /** Returns the Ethernet header; its length is not checked. */
    method GetEther() returns (hdr: nat)
      requires Valid() && num < MAX_N_CHUNKS && read + ETHER_SIZE <= total
      modifies `read, `num, `lens, chunks
      ensures Valid() && hdr == base + old(read) && read == old(read) + 14 && num == old(num) + 1
      ensures Borrowed() == old(Borrowed()) + [hdr] && lens == old(lens) + [14]
    {
      hdr := BorrowNextChunk(ETHER_SIZE);
    }

    predicate HasIpv4(ether: nat)
      reads mem
      requires ether + ETHER_SIZE <= mem.Length
    {
      mem[ether + 12] == 0x08 && mem[ether + 13] == 0x00
    }

    /** An IPv4 header at `hdr` whose length fields fit in `unread` bytes. */
    predicate GoodIpv4(hdr: nat, unread: nat)
      reads mem
      requires hdr + IPV4_SIZE <= mem.Length
    {
      && mem[hdr] % 16 >= IP_MIN_SIZE_WORDS
      && 0x100 * (mem[hdr + 2] as int) + (mem[hdr + 3] as int) <= unread
    }

    method GetIpv4(ether: nat) returns (hdr: Option<nat>)
      requires Valid() && num < MAX_N_CHUNKS && ether + ETHER_SIZE <= base + read
      modifies `read, `num, `lens, chunks
      ensures Valid()
      ensures hdr.Some? <==>
                mem[ether + 12] == 0x08 && mem[ether + 13] == 0x00 && (total - old(read)) % 0x1_0000 >= 20
      ensures hdr.Some? ==> hdr.value == base + old(read) && read == old(read) + 20
      ensures hdr.None? ==> read == old(read)
      ensures Borrowed() == old(Borrowed()) + Listed(hdr)
      ensures lens == old(lens) + if hdr.Some? then [20] else []
    {
      var unreadLen := UnreadLength() % 0x1_0000;
      if !HasIpv4(ether) || unreadLen < IPV4_SIZE {
        return None;
      }
      var chunk := BorrowNextChunk(IPV4_SIZE);
      hdr := Some(chunk);
    }

    /** The IPv4 header and its options. A header with a bad length field is not returned, but
        its chunk stays borrowed; options that do not fit are not borrowed. */
    method GetIpv4WithOptions(ether: nat) returns (hdr: Option<nat>, options: Option<nat>)
      requires Valid() && num + 1 < MAX_N_CHUNKS && ether + ETHER_SIZE <= base + read
      modifies `read, `num, `lens, chunks
      ensures Valid() && num <= old(num) + 2
      ensures var unread := (total - old(read)) % 0x1_0000; var start := base + old(read);
              var isIpv4 := mem[ether + 12] == 0x08 && mem[ether + 13] == 0x00 && unread >= 20;
              && (hdr.Some? <==>
                    && isIpv4 && mem[start] % 16 >= 5
                    && 0x100 * (mem[start + 2] as int) + (mem[start + 3] as int) <= unread)
              && (hdr.Some? ==> hdr.value == start)
              && (options.Some? <==> hdr.Some? && 0 < (mem[start] as int % 16 - 5) * 4 <= unread - 20)
              && (options.Some? ==> options.value == start + 20)
              && (options.Some? ==> lens == old(lens) + [20, (mem[start] as int % 16 - 5) * 4])
              && (hdr.Some? && options.None? ==> lens == old(lens) + [20])
              && (hdr.None? ==> lens == old(lens) + if isIpv4 then [20] else [])
      ensures hdr.Some? ==> Borrowed() == old(Borrowed()) + [hdr.value] + Listed(options)
      ensures hdr.None? ==> Borrowed() == old(Borrowed()) || Borrowed() == old(Borrowed()) + [base + old(read)]
      ensures options.Some? ==> read == old(read) + 20 + (mem[base + old(read)] as int % 16 - 5) * 4
      ensures hdr.Some? && options.None? ==> read == old(read) + 20
    {
      hdr, options := None, None;
      var unreadLen := UnreadLength() % 0x1_0000;
      var ip := GetIpv4(ether);
      if ip.None? || !GoodIpv4(ip.value, unreadLen) {
        return;
      }
      hdr := ip;
      var optionsLength := OptionsLength(mem[ip.value]);
      if optionsLength != 0 && unreadLen - IPV4_SIZE >= optionsLength {
        var chunk := BorrowNextChunk(optionsLength);
        options := Some(chunk);
      }
    }

    /** The TCP, UDP or common header of `size` bytes, if the protocol field allows it. */
    method GetL4(ip: nat, protocols: set<nat>, size: nat) returns (hdr: Option<nat>)
      requires Valid() && num < MAX_N_CHUNKS && ip + IPV4_SIZE <= base + read
      modifies `read, `num, `lens, chunks
      ensures Valid()
      ensures hdr.Some? <==> mem[ip + 9] as nat in protocols && total - old(read) >= size
      ensures hdr.Some? ==> hdr.value == base + old(read) && read == old(read) + size
      ensures hdr.None? ==> read == old(read)
      ensures Borrowed() == old(Borrowed()) + Listed(hdr)
      ensures lens == old(lens) + if hdr.Some? then [size] else []
    {
      if mem[ip + 9] as nat !in protocols || UnreadLength() < size {
        return None;
      }
      var chunk := BorrowNextChunk(size);
      hdr := Some(chunk);
    }

    // ---------- returning chunks ----------

    method ReturnChunk(chunk: nat)
      requires base <= chunk && chunk - base < 0x1_0000_0000
      modifies `read, `returned
      ensures read == chunk - base && returned == old(returned) + [chunk]
    {
      read := chunk - base;
      returned := returned + [chunk];
    }

    /** Returns the last borrowed chunk, if there is one. */
    method ReturnLast()
      requires Valid()
      modifies `read, `num, `lens, `returned
      ensures Valid()
      ensures old(num) == 0 ==> num == 0 && returned == old(returned) && read == old(read)
      ensures old(num) > 0 ==>
                && num == old(num) - 1 && Borrowed() == old(Borrowed())[..num]
                && returned == old(returned) + [old(Borrowed())[num]] && read == chunks[num] - base
    {
      if num != 0 {
        TilesFrom(chunks[..num], lens, base, base + read);
        assert chunks[..num][..num - 1] == chunks[..num - 1];
        ReturnChunk(chunks[num - 1]);
        num := num - 1;
        lens := lens[..num];
      }
    }

    /** Returns every borrowed chunk, last first, and leaves the packet as it was received. */
    method ReturnAllChunks()
      requires Valid()
      modifies `read, `num, `lens, `returned
      ensures Valid() && num == 0 && read == 0
      ensures returned == old(returned) + Reverse(old(Borrowed()))
    {
      ghost var all, returned0 := Borrowed(), returned;
      while num != 0
        invariant Valid() && num <= |all| && Borrowed() == all[..num]
        invariant returned + Reverse(all[..num]) == returned0 + Reverse(all)
        decreases num
      {
        ReverseStep(returned, all[..num]);
        assert all[..num][..num - 1] == all[..num - 1];
        ReturnLast();
      }
    }

    // ---------- inserting and shrinking ----------

    /** Makes room for a chunk after the last borrowed one: the packet grows into its headroom,
        the bytes before the new chunk move forward and the borrowed chunks with them. */
    method InsertNewChunk(length: nat) returns (chunk: nat)
      requires Valid() && 0 < num < MAX_N_CHUNKS && length <= base && total + length < 0x1_0000_0000
      modifies `base, `total, `read, `num, `lens, chunks, mem
      ensures Valid() && base == old(base) - length && total == old(total) + length && num == old(num) + 1
      ensures chunk == base + old(read) && read == old(read) + length
      ensures forall i :: 0 <= i < old(num) ==> chunks[i] == old(chunks[i]) - length
      ensures chunks[num - 1] == chunk && lens == old(lens) + [length]
      ensures MovedDown(old(mem[..]), mem[..], base, old(base + read), length)
    {
      MoveDown(mem, base - length, base + read, length);
      ShiftBorrowed(0 - (length as int));
      total := total + length;
      chunk := BorrowNextChunk(length);
    }

    /** Moves the packet and its borrowed chunks by `delta`. */
    method ShiftBorrowed(delta: int)
      requires chunks.Length == MAX_N_CHUNKS && num <= MAX_N_CHUNKS
      requires base + delta >= 0 && Tiles(chunks[..num], lens, base, base + read)
      modifies `base, chunks
      ensures base == old(base) + delta && Tiles(chunks[..num], lens, base, base + read)
      ensures forall i :: 0 <= i < num ==> chunks[i] == old(chunks[i]) + delta
    {
      TilesFrom(chunks[..num], lens, base, base + read);
      assert forall i :: 0 <= i < num ==> chunks[..num][i] == chunks[i];
      ShiftChunks(chunks, num, delta);
      TilesShift(old(chunks[..num]), chunks[..num], lens, base, base + read, delta);
      base := base + delta;
    }

    /** Moves the last chunk's beginning, and all before it, up by `offset` bytes. */
    method CutLast(offset: nat)
      requires Valid() && num > 0 && 0 < offset <= base + read - chunks[num - 1]
      modifies `base, `total, `read, `lens, chunks, mem
      ensures Valid() && base == old(base) + offset && read == old(read) - offset && total == old(total) - offset
      ensures forall i :: 0 <= i < num ==> chunks[i] == old(chunks[i]) + offset
      ensures lens == old(lens)[..num - 1] + [old(base + read - chunks[num - 1]) - offset]
      ensures MovedUp(old(mem[..]), mem[..], old(base), old(base + read), offset)
    {
      TilesFrom(chunks[..num], lens, base, base + read);
      assert chunks[num - 1] == chunks[..num][num - 1];
      var length := base + read - chunks[num - 1] - offset;
      MoveUp(mem, base, base + read, offset);
      ShiftBorrowed(offset);
      TilesCut(chunks[..num], lens, base, base + read, length);
      read := read - offset;
      total := total - offset;
      lens := lens[..num - 1] + [length];
    }

    /** Cuts the last borrowed chunk to `length`: the bytes before the cut move towards the end,
        and the packet and its chunks start later. */
    method ShrinkChunk(length: nat) returns (chunk: nat)
      requires Valid() && num > 0 && length <= base + read - chunks[num - 1]
      modifies `base, `total, `read, `lens, chunks, mem
      ensures Valid() && base >= old(base)
      ensures chunk == chunks[num - 1] && base + read == chunk + length
      ensures base + total == old(base + total) && old(read) - read == base - old(base)
      ensures forall i :: 0 <= i < num ==> chunks[i] == old(chunks[i]) + (base - old(base))
      ensures lens == old(lens)[..num - 1] + [length]
      ensures MovedUp(old(mem[..]), mem[..], old(base), old(base + read), base - old(base))
    {
      var offset := base + read - chunks[num - 1] - length;
      if offset == 0 {
        LastLength(chunks[..num], lens, base, base + read);
      } else {
        CutLast(offset);
      }
      chunk := chunks[num - 1];
    }
  }

  // ---------- what moving bytes does to the packet ----------

  lemma InsertedData(before: seq<Byte>, after: seq<Byte>, base: nat, read: nat, total: nat, length: nat)
    requires length <= base && read <= total && base + total <= |before|
    requires MovedDown(before, after, base - length, base + read, length)
    ensures var was, now := before[base..base + total], after[base - length..base + total];
            now[..read] == was[..read] && now[read + length..] == was[read..]
  {
    var was, now := before[base..base + total], after[base - length..base + total];
    assert forall i :: 0 <= i < read ==> now[i] == after[base - length + i] == was[i];
    assert forall i :: read <= i < total ==> now[length + i] == after[base + i] == was[i];
  }

  lemma CutData(before: seq<Byte>, after: seq<Byte>, base: nat, read: nat, total: nat, offset: nat)
    requires offset <= read <= total && base + total <= |before|
    requires MovedUp(before, after, base, base + read, offset)
    ensures var was, now := before[base..base + total], after[base + offset..base + total];
            now == was[..read - offset] + was[read..]
  {
    var was, now := before[base..base + total], after[base + offset..base + total];
    assert forall i :: 0 <= i < read - offset ==> now[i] == after[base + offset + i] == was[i];
  }

  // ---------- tilings ----------

  /** In a tiling, chunks are in order, disjoint and within the bytes read. */
  lemma {:induction false} TilesDisjoint(chunks: seq<nat>, lens: seq<nat>, start: nat, end: nat, i: nat, j: nat)
    requires Tiles(chunks, lens, start, end) && i < j < |chunks|
    ensures start <= chunks[i] && chunks[i] + lens[i] <= chunks[j] && chunks[j] + lens[j] <= end
    decreases |chunks|
  {
    var n := |chunks| - 1;
    TilesFrom(chunks, lens, start, end);
    if j < n {
      TilesDisjoint(chunks[..n], lens[..n], start, chunks[n], i, j);
    } else if i + 1 < j {
      TilesDisjoint(chunks[..n], lens[..n], start, chunks[n], i, n - 1);
    }
  }

  // ---------- operations composed ----------

  lemma DataRestored(before: seq<Byte>, grown: seq<Byte>, after: seq<Byte>,
                     base: nat, read: nat, total: nat, length: nat)
    requires length <= base && read <= total && base + total <= |before|
    requires MovedDown(before, grown, base - length, base + read, length)
    requires MovedUp(grown, after, base - length, base + read, length)
    ensures |after| == |before| && after[base..base + total] == before[base..base + total]
  {
    InsertedData(before, grown, base, read, total, length);
    CutData(grown, after, base - length, read + length, total + length, length);
    var data := before[base..base + total];
    assert data[..read] + data[read..] == data;
  }

  method GrowAndCut(p: Packet, length: nat) returns (ghost grown: seq<Byte>)
    requires p.Valid() && 0 < p.num < MAX_N_CHUNKS && length <= p.base && p.total + length < 0x1_0000_0000
    modifies p`base, p`total, p`read, p`num, p`lens, p.chunks, p.mem
    ensures p.Valid() && p.base == old(p.base) && p.total == old(p.total) && p.read == old(p.read)
    ensures p.num == old(p.num) + 1 && p.Borrowed()[..old(p.num)] == old(p.Borrowed())
    ensures p.lens == old(p.lens) + [0]
    ensures MovedDown(old(p.mem[..]), grown, old(p.base) - length, old(p.base + p.read), length)
    ensures MovedUp(grown, p.mem[..], old(p.base) - length, old(p.base + p.read), length)
  {
    var _ := p.InsertNewChunk(length);
    grown := p.mem[..];
    var _ := p.ShrinkChunk(0);
  }

  /** Inserting a chunk and cutting it to nothing restores the packet's bytes and position. */
  method InsertThenShrink(p: Packet, length: nat)
    requires p.Valid() && 0 < p.num < MAX_N_CHUNKS && length <= p.base && p.total + length < 0x1_0000_0000
    modifies p`base, p`total, p`read, p`num, p`lens, p.chunks, p.mem
    ensures p.Valid() && p.base == old(p.base) && p.total == old(p.total) && p.read == old(p.read)
    ensures p.Data() == old(p.Data())
    ensures p.num == old(p.num) + 1 && p.Borrowed()[..old(p.num)] == old(p.Borrowed())
    ensures p.lens == old(p.lens) + [0]
  {
    ghost var before := p.mem[..];
    ghost var grown := GrowAndCut(p, length);
    DataRestored(before, grown, p.mem[..], p.base, p.read, p.total, length);
  }

  /** Where the headers of a walk stand: each one starts where the one before it ends. */
  ghost predicate Walked(mem: seq<Byte>, base: nat, end: nat, size: nat,
                         ether: nat, ip: Option<nat>, options: Option<nat>, l4: Option<nat>)
  {
    && ether == base
    && (options.Some? || l4.Some? ==> ip.Some?)
    && (ip.Some? ==> ip.value == ether + 14 && ip.value + 20 <= end <= |mem|)
    && (options.Some? ==> options.value == ip.value + 20)
    && (l4.Some? ==> && l4.value == ip.value + 20 + (if options.Some? then (mem[ip.value] as int % 16 - 5) * 4 else 0)
                     && l4.value + size <= end)
  }

  /** Walks a received packet: Ethernet, IPv4 with options, transport. */
  method Walk(p: Packet, protocols: set<nat>, size: nat)
      returns (ether: nat, ip: Option<nat>, options: Option<nat>, l4: Option<nat>)
    requires p.Valid() && p.num == 0 && p.total >= ETHER_SIZE
    modifies p`read, p`num, p`lens, p.chunks
    ensures p.Valid() && Walked(p.mem[..], p.base, p.base + p.total, size, ether, ip, options, l4)
    ensures ip.Some? ==> p.Borrowed() == [ether] + [ip.value] + Listed(options) + Listed(l4)
    ensures ip.None? ==> p.Borrowed() == [ether] || p.Borrowed() == [ether] + [ether + 14]
  {
    ether := p.GetEther();
    ip, options := p.GetIpv4WithOptions(ether);
    l4 := None;
    if ip.Some? {
      l4 := p.GetL4(ip.value, protocols, size);
    }
  }

  lemma {:induction false} ReverseAt(s: seq<nat>)
    ensures |Reverse(s)| == |s| && forall i :: 0 <= i < |s| ==> Reverse(s)[i] == s[|s| - 1 - i]
    decreases |s|
  {
    if s != [] { ReverseAt(s[..|s| - 1]); }
  }

  lemma {:induction false} ReverseAppend(s: seq<nat>, t: seq<nat>)
    ensures Reverse(s + t) == Reverse(t) + Reverse(s)
    decreases |t|
  {
    if t == [] {
      assert s + t == s;
    } else {
      var n := |t| - 1;
      assert (s + t)[..|s| + n] == s + t[..n];
      ReverseAppend(s, t[..n]);
      assert Reverse(s + t) == [t[n]] + Reverse(s + t[..n]);
      assert [t[n]] + (Reverse(t[..n]) + Reverse(s)) == ([t[n]] + Reverse(t[..n])) + Reverse(s);
    }
  }

  lemma ReverseWalk(ether: nat, ip: nat, options: Option<nat>, l4: Option<nat>)
    ensures Reverse([ether] + [ip] + Listed(options) + Listed(l4)) == Listed(l4) + Listed(options) + [ip, ether]
  {
    ReverseAppend([ether] + [ip] + Listed(options), Listed(l4));
    ReverseAppend([ether] + [ip], Listed(options));
    ReverseAppend([ether], [ip]);
    assert Reverse([ip]) == [ip] && Reverse([ether]) == [ether];
    assert Reverse(Listed(options)) == Listed(options) && Reverse(Listed(l4)) == Listed(l4);
  }

  /** The chunks of a walk come back last first, and the packet is as it was received. */
  method WalkAndReturn(p: Packet, protocols: set<nat>, size: nat)
      returns (ether: nat, ip: Option<nat>, options: Option<nat>, l4: Option<nat>)
    requires p.Valid() && p.num == 0 && p.total >= ETHER_SIZE && p.returned == []
    modifies p`read, p`num, p`lens, p`returned, p.chunks
    ensures p.Valid() && p.num == 0 && p.read == 0
    ensures Walked(p.mem[..], p.base, p.base + p.total, size, ether, ip, options, l4)
    ensures ip.Some? ==> p.returned == Listed(l4) + Listed(options) + [ip.value, ether]
    ensures ip.None? ==> p.returned == [ether] || p.returned == [ether + 14, ether]
  {
    ether, ip, options, l4 := Walk(p, protocols, size);
    if ip.Some? {
      ReverseWalk(ether, ip.value, options, l4);
    } else {
      ReverseAppend([ether], [ether + ETHER_SIZE]);
      assert Reverse([ether + ETHER_SIZE]) == [ether + ETHER_SIZE] && Reverse([ether]) == [ether];
    }
    p.ReturnAllChunks();
  }
}
