/**
 What the reader hands on for a frame of a raw IP capture (synthesized/echo-profiler.cpp, read),
 with the addresses parsed by nf_parse_etheraddr.
 */
module RawIp {
  import opened Basics
  import opened CText
  import opened Addresses
  import PcapReading

  /** Two hexadecimal digits, of either case, not starting with a zero. */
  lemma TwoDigits(s: string, i: nat)
    requires i + 2 <= |s| && IsHex(s[i]) && IsHex(s[i + 1]) && s[i] != '0'
    ensures ScanHex(s, i) == Match(0x10 * DigitOf(s[i]) + DigitOf(s[i + 1]), i + 2)
  {
    assert SkipSpace(s, i) == i;
  }

  /** From i on, s has two digits for each of the given bytes, with colons between them. */
  ghost predicate Spells(s: string, i: nat, bytes: seq<Byte>)
    decreases |bytes|
  {
    && bytes != [] && i + 2 <= |s| && IsHex(s[i]) && IsHex(s[i + 1]) && s[i] != '0'
    && bytes[0] == 0x10 * DigitOf(s[i]) + DigitOf(s[i + 1])
    && (|bytes| > 1 ==> i + 2 < |s| && s[i + 2] == ':' && Spells(s, i + 3, bytes[1..]))
  }

  lemma {:induction false} SpellsReads(s: string, i: nat, bytes: seq<Byte>)
    requires Spells(s, i, bytes)
    ensures ScanMac(s, i, |bytes|) == Some(bytes)
    decreases |bytes|
  {
    TwoDigits(s, i);
    if |bytes| > 1 {
      SpellsReads(s, i + 3, bytes[1..]);
      assert [bytes[0]] + bytes[1..] == bytes;
    } else {
      assert bytes == [bytes[0]];
    }
  }

  lemma ParsesTo(s: string, last: Byte)
    requires s == "90:e2:ba:8e:4f:6c" || s == "90:e2:ba:8e:4f:6d"
    requires last == 0x60 + DigitOf(s[16])
    ensures ParseMac(s) == Some([0x90, 0xe2, 0xba, 0x8e, 0x4f, last])
  {
    var bytes: seq<Byte> := [0x90, 0xe2, 0xba, 0x8e, 0x4f, last];
    assert Spells(s, 15, bytes[5..]);
    assert bytes[4..][1..] == bytes[5..] && Spells(s, 12, bytes[4..]);
    assert bytes[3..][1..] == bytes[4..] && Spells(s, 9, bytes[3..]);
    assert bytes[2..][1..] == bytes[3..] && Spells(s, 6, bytes[2..]);
    assert bytes[1..][1..] == bytes[2..] && Spells(s, 3, bytes[1..]);
    SpellsReads(s, 0, bytes);
  }

  lemma HeaderBytes(dst: seq<Byte>, src: seq<Byte>)
    requires dst == [0x90, 0xe2, 0xba, 0x8e, 0x4f, 0x6d] && src == [0x90, 0xe2, 0xba, 0x8e, 0x4f, 0x6c]
    ensures PcapReading.ETHER_HEADER == dst + src + [0x08, 0x00]
  {
    var h := dst + src + [0x08, 0x00];
    assert |h| == 14 && |PcapReading.ETHER_HEADER| == 14;
    assert forall i :: 0 <= i < 6 ==> h[i] == dst[i];
    assert forall i :: 0 <= i < 6 ==> h[6 + i] == src[i];
  }

  lemma RawLength(f: PcapReading.Packet)
    ensures var len := PcapReading.Ingest(true, f).len;
            len == f.len + 14 || (len == f.len + 14 - 0x1_0000_0000 && f.len + 14 >= 0x1_0000_0000)
  {
  }

  /** A raw IP frame gets 14 bytes in front, the two fixed addresses and the type of IPv4, and
      its 32-bit length grows by 14; other frames are handed on as they are. */
  lemma IngestMeaning(f: PcapReading.Packet)
    ensures PcapReading.Ingest(false, f) == f
    ensures var dst, src := ParseMac("90:e2:ba:8e:4f:6d"), ParseMac("90:e2:ba:8e:4f:6c");
            && dst.Some? && src.Some? && |dst.value| == |src.value| == 6
            && PcapReading.Ingest(true, f).data == dst.value + src.value + [0x08, 0x00] + f.data
    ensures PcapReading.Ingest(true, f).ts == f.ts
    ensures var len := PcapReading.Ingest(true, f).len;
            len == f.len + 14 || (len == f.len + 14 - 0x1_0000_0000 && f.len + 14 >= 0x1_0000_0000)
  {
    RawLength(f);
    ParsesTo("90:e2:ba:8e:4f:6d", 0x6d);
    ParsesTo("90:e2:ba:8e:4f:6c", 0x6c);
    HeaderBytes(ParseMac("90:e2:ba:8e:4f:6d").value, ParseMac("90:e2:ba:8e:4f:6c").value);
  }
}
