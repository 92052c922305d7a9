/**
 Printing and parsing addresses: nf_rte_ipv4_to_str and nf_mac_to_str (dpdk-nfs/nf-util.c),
 nf_parse_ipv4addr and nf_parse_etheraddr (dpdk-nfs/nf-parse.c).
 */
module Addresses {
  import opened Basics
  import opened CText

  // ---------- sscanf conversions ----------

  /** One conversion: the value stored and where scanning goes on. */
  datatype Scan = NoMatch | Match(value: Byte, end: nat)

  /** %hhu: the value as an unsigned long, cut to eight bits. */
  function ScanUnsigned(s: string, i: nat): Scan {
    var d := NumberStart(s, i);
    var e := DigitsEnd(s, d, 10);
    if e == d then NoMatch
    else
      var v := Value(s, d, e, 10);
      var u := if v > UINTMAX_MAX then UINTMAX_MAX else v;
      Match((if IsNegative(s, i) then (-u) % (UINTMAX_MAX + 1) else u) % 0x100, e)
  }

  /** A literal character of the format. */
  predicate Literal(s: string, i: nat, c: char) {
    CharAt(s, i) == c
  }

  predicate IsHex(c: char) {
    IsDigitIn(c, 16)
  }

  /** %02hhX: at most two characters, of which a sign is one. A bare 0x prefix fills the width
      and leaves no digit, so it does not match. */
  function ScanHex(s: string, i: nat): Scan {
    var j := SkipSpace(s, i);
    var c, c' := CharAt(s, j), CharAt(s, j + 1);
    if c == '+' || c == '-' then
      if IsHex(c') then Match(if c == '-' then (0x100 - DigitOf(c')) % 0x100 else DigitOf(c'), j + 2) else NoMatch
    else if !IsHex(c) || (c == '0' && (c' == 'x' || c' == 'X')) then NoMatch
    else if IsHex(c') then Match(0x10 * DigitOf(c) + DigitOf(c'), j + 2)
    else Match(DigitOf(c), j + 1)
  }

  // ---------- IPv4 ----------

  /** A sequence of %hhu conversions separated by dots. */
  function ScanDotted(s: string, i: nat, count: nat): Option<seq<Byte>>
    requires count > 0
    ensures ScanDotted(s, i, count).Some? ==> |ScanDotted(s, i, count).value| == count
    decreases count
  {
    match ScanUnsigned(s, i)
    case NoMatch => None
    case Match(b, e) =>
      if count == 1 then Some([b])
      else if !Literal(s, e, '.') then None
      else
        match ScanDotted(s, e + 1, count - 1)
        case None => None
        case Some(rest) => Some([b] + rest)
  }

  /** The four bytes as an address, the first being the lowest byte of the word. */
  function Word(bytes: seq<Byte>): U32
    requires |bytes| == 4
  {
    var a: int, b: int, c: int, d: int := bytes[0], bytes[1], bytes[2], bytes[3];
    a + 0x100 * b + 0x1_0000 * c + 0x100_0000 * d
  }

  function Bytes(addr: U32): (bytes: seq<Byte>)
    ensures |bytes| == 4
  {
    [addr % 0x100, addr / 0x100 % 0x100, addr / 0x1_0000 % 0x100, addr / 0x100_0000]
  }

  lemma WordOfBytes(addr: U32)
    ensures Word(Bytes(addr)) == addr
  {
    var x, y := addr / 0x100, addr / 0x1_0000;
    assert y == x / 0x100 && addr / 0x100_0000 == y / 0x100;
    assert addr == 0x100 * x + addr % 0x100 && x == 0x100 * y + x % 0x100 && y == 0x100 * (y / 0x100) + y % 0x100;
  }

  function ParseIpv4(s: string): Option<U32> {
    match ScanDotted(s, 0, 4)
    case None => None
    case Some(bytes) => Some(Word(bytes))
  }

  function DottedText(bytes: seq<Byte>): string
    requires bytes != []
  {
    if |bytes| == 1 then Decimal(bytes[0]) else Decimal(bytes[0]) + ("." + DottedText(bytes[1..]))
  }

  function PrintIpv4(addr: U32): string {
    Snprintf(16, DottedText(Bytes(addr)))
  }

  lemma NumeralLength(n: nat)
    ensures |Numeral(n, 10)| == if n < 10 then 1 else |Numeral(n / 10, 10)| + 1
  {
  }

  lemma ByteLength(b: Byte)
    ensures 1 <= |Decimal(b)| <= 3
  {
    NumeralLength(b);
    if b >= 10 {
      NumeralLength(b / 10);
      if b >= 100 { NumeralLength(b / 10 / 10); }
    }
  }

  /** The conversion reads back a byte printed at i and followed by a non-digit. */
  lemma ScanByte(s: string, i: nat, b: Byte)
    requires At(s, i, Decimal(b)) && !IsDigitIn(CharAt(s, i + |Decimal(b)|), 10)
    ensures ScanUnsigned(s, i) == Match(b, i + |Decimal(b)|)
  {
    ScanDecimal(s, i, b);
  }

  /** A number that does not fit a byte is cut to its low eight bits. */
  lemma ScanWraps(s: string, i: nat, n: nat)
    requires At(s, i, Decimal(n)) && !IsDigitIn(CharAt(s, i + |Decimal(n)|), 10) && n < 0x1_0000_0000_0000_0000
    ensures ScanUnsigned(s, i) == Match(n % 0x100, i + |Decimal(n)|)
  {
    ScanDecimal(s, i, n);
  }

  /** From i on, s consists of the numerals of the given bytes, with dots between them. */
  ghost predicate IsDotted(s: string, i: nat, bytes: seq<Byte>)
    decreases |bytes|
  {
    bytes != [] &&
    var e := i + |Decimal(bytes[0])|;
    At(s, i, Decimal(bytes[0])) &&
    if |bytes| == 1 then e == |s| else Literal(s, e, '.') && IsDotted(s, e + 1, bytes[1..])
  }

  lemma {:induction false} TextIsDotted(s: string, i: nat, bytes: seq<Byte>)
    requires bytes != [] && At(s, i, DottedText(bytes)) && i + |DottedText(bytes)| == |s|
    ensures IsDotted(s, i, bytes)
    decreases |bytes|
  {
    if |bytes| > 1 {
      var t, rest := Decimal(bytes[0]), DottedText(bytes[1..]);
      AtPrefix(s, i, t, "." + rest);
      AtPrefix(s, i + |t|, ".", rest);
      AtChar(s, i + |t|, '.');
      TextIsDotted(s, i + |t| + 1, bytes[1..]);
    }
  }

  lemma DottedStep(s: string, i: nat, b: Byte, e: nat, rest: seq<Byte>)
    requires ScanUnsigned(s, i) == Match(b, e) && Literal(s, e, '.')
    requires rest != [] && ScanDotted(s, e + 1, |rest|) == Some(rest)
    ensures ScanDotted(s, i, |rest| + 1) == Some([b] + rest)
  {
  }

  lemma {:induction false} DottedReads(s: string, i: nat, bytes: seq<Byte>)
    requires IsDotted(s, i, bytes)
    ensures ScanDotted(s, i, |bytes|) == Some(bytes)
    decreases |bytes|
  {
    ScanByte(s, i, bytes[0]);
    if |bytes| == 1 {
      assert bytes == [bytes[0]];
    } else {
      assert bytes == [bytes[0]] + bytes[1..];
      var e := i + |Decimal(bytes[0])|;
      DottedReads(s, e + 1, bytes[1..]);
      DottedStep(s, i, bytes[0], e, bytes[1..]);
    }
  }

  lemma {:induction false} DottedLength(bytes: seq<Byte>)
    requires bytes != []
    ensures |DottedText(bytes)| <= 4 * |bytes| - 1
    decreases |bytes|
  {
    ByteLength(bytes[0]);
    if |bytes| > 1 { DottedLength(bytes[1..]); }
  }

  /** Printing an address never truncates, and parsing the text gives the address back. */
  lemma Ipv4RoundTrip(addr: U32)
    ensures PrintIpv4(addr) == DottedText(Bytes(addr)) && |PrintIpv4(addr)| <= 15
    ensures ParseIpv4(PrintIpv4(addr)) == Some(addr)
  {
    DottedLength(Bytes(addr));
    TextIsDotted(DottedText(Bytes(addr)), 0, Bytes(addr));
    DottedReads(DottedText(Bytes(addr)), 0, Bytes(addr));
    WordOfBytes(addr);
  }

  lemma BytesOf(a: Byte, b: Byte, c: Byte, d: Byte)
    ensures Bytes(Word([a, b, c, d])) == [a, b, c, d]
  {
    var addr: int := Word([a, b, c, d]);
    var z: int, y: int := (b as int) + 0x100 * ((c as int) + 0x100 * (d as int)), (c as int) + 0x100 * (d as int);
    assert addr == (a as int) + 0x100 * z && z == (b as int) + 0x100 * y;
    assert addr / 0x100 == z && z / 0x100 == y && y / 0x100 == d;
    assert addr / 0x1_0000 == y && addr / 0x100_0000 == d;
  }

  ghost function FourOctets(a: Byte, b: Byte, c: Byte, d: Byte): string {
    Decimal(a) + ("." + (Decimal(b) + ("." + (Decimal(c) + ("." + Decimal(d))))))
  }

  lemma OctetsText(a: Byte, b: Byte, c: Byte, d: Byte)
    ensures DottedText([a, b, c, d]) == FourOctets(a, b, c, d)
  {
    assert [c, d][1..] == [d] && [b, c, d][1..] == [c, d] && [a, b, c, d][1..] == [b, c, d];
    assert DottedText([d]) == Decimal(d);
    assert DottedText([c, d]) == Decimal(c) + ("." + DottedText([d]));
    assert DottedText([b, c, d]) == Decimal(b) + ("." + DottedText([c, d]));
  }

  /** The lowest byte of the word is printed and parsed first. */
  lemma Ipv4Octets(a: Byte, b: Byte, c: Byte, d: Byte, addr: U32)
    requires addr == (a as int) + 0x100 * (b as int) + 0x1_0000 * (c as int) + 0x100_0000 * (d as int)
    ensures PrintIpv4(addr) == FourOctets(a, b, c, d) && ParseIpv4(FourOctets(a, b, c, d)) == Some(addr)
  {
    assert addr == Word([a, b, c, d]);
    BytesOf(a, b, c, d);
    Ipv4RoundTrip(addr);
    OctetsText(a, b, c, d);
  }

  // ---------- MAC ----------

  /** A sequence of %02hhX conversions separated by colons. */
  function ScanMac(s: string, i: nat, count: nat): Option<seq<Byte>>
    requires count > 0
    decreases count
  {
    match ScanHex(s, i)
    case NoMatch => None
    case Match(b, e) =>
      if count == 1 then Some([b])
      else if !Literal(s, e, ':') then None
      else
        match ScanMac(s, e + 1, count - 1)
        case None => None
        case Some(rest) => Some([b] + rest)
  }

  function ParseMac(s: string): Option<seq<Byte>> {
    ScanMac(s, 0, 6)
  }

  function HexDigit(n: nat): char
    requires n < 16
  {
    if n < 10 then Digit(n) else 'A' + (n - 10) as char
  }

  function HexByte(b: Byte): string {
    [HexDigit(b / 16), HexDigit(b % 16)]
  }

  function MacText(mac: seq<Byte>): string
    requires mac != []
  {
    if |mac| == 1 then HexByte(mac[0]) else HexByte(mac[0]) + (":" + MacText(mac[1..]))
  }

  function PrintMac(mac: seq<Byte>): string
    requires |mac| == 6
  {
    Snprintf(18, MacText(mac))
  }

  lemma {:induction false} MacLength(mac: seq<Byte>)
    requires mac != []
    ensures |MacText(mac)| == 3 * |mac| - 1
    decreases |mac|
  {
    if |mac| > 1 { MacLength(mac[1..]); }
  }

  lemma HexDigitReads(n: nat)
    requires n < 16
    ensures IsHex(HexDigit(n)) && DigitOf(HexDigit(n)) == n
    ensures HexDigit(n) != 'x' && HexDigit(n) != 'X' && !IsSpace(HexDigit(n))
    ensures HexDigit(n) != '+' && HexDigit(n) != '-'
  {
    if n < 10 {
      assert '0' <= HexDigit(n) <= '9';
    } else {
      assert 'A' <= HexDigit(n) <= 'F';
    }
  }

  lemma ScanHexByte(s: string, i: nat, b: Byte)
    requires At(s, i, HexByte(b))
    ensures ScanHex(s, i) == Match(b, i + 2)
  {
    HexDigitReads(b / 16);
    HexDigitReads(b % 16);
    assert s[i + 0] == HexByte(b)[0] && s[i + 1] == HexByte(b)[1];
    assert SkipSpace(s, i) == i;
  }

  /** A byte and the colon after it: what is read, and where the rest stands. */
  lemma ScanHexColon(s: string, i: nat, b: Byte, rest: string)
    requires At(s, i, HexByte(b) + (":" + rest))
    ensures ScanHex(s, i) == Match(b, i + 2) && Literal(s, i + 2, ':') && At(s, i + 3, rest)
  {
    AtPrefix(s, i, HexByte(b), ":" + rest);
    AtPrefix(s, i + 2, ":", rest);
    AtChar(s, i + 2, ':');
    ScanHexByte(s, i, b);
  }

  lemma {:induction false} MacReads(s: string, i: nat, mac: seq<Byte>)
    requires mac != [] && At(s, i, MacText(mac))
    ensures ScanMac(s, i, |mac|) == Some(mac)
    decreases |mac|
  {
    if |mac| == 1 {
      ScanHexByte(s, i, mac[0]);
      assert mac == [mac[0]];
    } else {
      ScanHexColon(s, i, mac[0], MacText(mac[1..]));
      MacReads(s, i + 3, mac[1..]);
      assert mac == [mac[0]] + mac[1..];
    }
  }

  /** Printing an address never truncates, and parsing the text gives the address back. */
  lemma MacRoundTrip(mac: seq<Byte>)
    requires |mac| == 6
    ensures PrintMac(mac) == MacText(mac) && |PrintMac(mac)| == 17
    ensures ParseMac(PrintMac(mac)) == Some(mac)
  {
    MacLength(mac);
    var s := MacText(mac);
    MacReads(s, 0, mac);
  }

  lemma {:induction false} MacTextAt(mac: seq<Byte>, i: nat)
    requires i < |mac|
    ensures var t := MacText(mac);
            && |t| == 3 * |mac| - 1 && t[3 * i] == HexDigit(mac[i] / 16) && t[3 * i + 1] == HexDigit(mac[i] % 16)
            && (i < |mac| - 1 ==> t[3 * i + 2] == ':')
    decreases |mac|
  {
    MacLength(mac);
    if |mac| > 1 && i > 0 { MacTextAt(mac[1..], i - 1); }
  }

  /** The first byte is printed first, each as two capital hexadecimal digits. */
  lemma MacDigits(mac: seq<Byte>, i: nat)
    requires |mac| == 6 && i < 6
    ensures var t := PrintMac(mac);
            && |t| == 17 && t[3 * i] == HexDigit(mac[i] / 16) && t[3 * i + 1] == HexDigit(mac[i] % 16)
            && (i < 5 ==> t[3 * i + 2] == ':')
  {
    MacRoundTrip(mac);
    MacTextAt(mac, i);
  }
}
