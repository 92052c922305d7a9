/** nf_util_parse_int and nf_util_parse_int_list (dpdk-nfs/nf-util.c). */
module IntList {
  import opened CText

  /** Exit is rte_exit; OutOfBounds is a read past the string's terminator. */
  datatype Result = List(values: seq<nat>) | Exit | OutOfBounds

  /** nf_util_parse_int on s + i: a number that must be followed by `next`. */
  function ParseInt(s: string, i: nat, base: nat, next: char): Result {
    var (v, end) := Strtoimax(s, i, base);
    if end == i || CharAt(s, end) != next then Exit else List([Stored(v)])
  }

  /** The first separator after i, or past the terminator if there is none. */
  function NextSeparator(s: string, i: nat, separator: char): (j: nat)
    ensures j >= i && (j <= |s| ==> CharAt(s, j) == separator)
    decreases |s| + 1 - i
  {
    if i > |s| || CharAt(s, i) == separator then i else NextSeparator(s, i + 1, separator)
  }

  /** No separator is passed over. */
  lemma {:induction false} NextSeparatorIsFirst(s: string, i: nat, separator: char, k: nat)
    requires i <= k < NextSeparator(s, i, separator)
    ensures k <= |s| && CharAt(s, k) != separator
    decreases |s| + 1 - i
  {
    assert i <= |s| && CharAt(s, i) != separator;
    if i < k { NextSeparatorIsFirst(s, i + 1, separator, k); }
  }

  /** The rest of the list, from position i, after the values in acc. */
  ghost function ListFrom(s: string, i: nat, base: nat, separator: char, acc: seq<nat>): Result
    decreases |s| + 1 - i
  {
    if i > |s| then OutOfBounds
    else
      var (v, end) := Strtoimax(s, i, base);
      if end == i then Exit
      else if CharAt(s, end) != separator then
        (match ParseInt(s, i, base, '\0')
         case List(last) => List(acc + last)
         case other => other)
      else
        var j := NextSeparator(s, i + 1, separator);
        if j > |s| then OutOfBounds else ListFrom(s, j + 1, base, separator, acc + [Stored(v)])
  }

  /** The do-while loop that steps to the next separator; past the terminator if there is none. */
  method SkipToSeparator(s: string, start: nat, separator: char) returns (str: nat)
    requires start <= |s|
    ensures str == NextSeparator(s, start + 1, separator)
  {
    str := start + 1;
    while str <= |s| && CharAt(s, str) != separator
      invariant start < str
      invariant NextSeparator(s, str, separator) == NextSeparator(s, start + 1, separator)
      decreases |s| + 1 - str
    {
      str := str + 1;
    }
  }

  method ParseIntList(s: string, base: nat, separator: char) returns (r: Result)
    ensures r == ListFrom(s, 0, base, separator, [])
  {
    var list: seq<nat> := [];
    var str := 0;
    while str <= |s|
      invariant ListFrom(s, 0, base, separator, []) == ListFrom(s, str, base, separator, list)
      decreases |s| + 1 - str
    {
      var (v, temp) := Strtoimax(s, str, base);
      if temp == str {
        return Exit;
      }
      if CharAt(s, temp) != separator {
        var last := ParseInt(s, str, base, '\0');
        if last.List? {
          last := List(list + last.values);
        }
        return last;
      }
      list := list + [Stored(v)];
      str := SkipToSeparator(s, str, separator);
      if str > |s| {
        return OutOfBounds;
      }
      str := str + 1;
    }
    r := OutOfBounds;
  }

  // ---------- rendering and reading back ----------

  /** The values written in a base, with the separator between them. */
  function Render(values: seq<nat>, base: nat, separator: char): (r: string)
    requires values != [] && 2 <= base <= 36
    ensures r != []
  {
    if |values| == 1 then Numeral(values[0], base)
    else Numeral(values[0], base) + [separator] + Render(values[1..], base, separator)
  }

  /** Values as strtoimax gives them back: the largest one stands for all that do not fit. */
  ghost function Clamped(values: seq<nat>): (r: seq<nat>)
    ensures |r| == |values|
  {
    seq(|values|, i requires 0 <= i < |values| => Clamp(values[i]))
  }

  /** The separator ends the numeral of n: it is no digit where n is read, and does not turn a
      lone 0 into a hexadecimal prefix. */
  predicate Separates(separator: char, base: nat, n: nat) {
    && !IsDigitIn(separator, ReadingBase(base, n))
    && !(n == 0 && (base == 0 || base == 16) && (separator == 'x' || separator == 'X'))
  }

  /** From i on, s consists of the numerals of the given values, with separators between them. */
  ghost predicate EndsIn(s: string, i: nat, values: seq<nat>, base: nat, separator: char)
    requires ValidBase(base)
    decreases |values|
  {
    values != [] &&
    var t := Numeral(values[0], TextBase(base));
    var e := i + |t|;
    At(s, i, t) &&
    if |values| == 1 then e == |s|
    else e < |s| && CharAt(s, e) == separator && EndsIn(s, e + 1, values[1..], base, separator)
  }

  lemma {:induction false} RenderEndsIn(s: string, i: nat, values: seq<nat>, base: nat, separator: char)
    requires ValidBase(base) && values != [] && At(s, i, Render(values, TextBase(base), separator))
    requires i + |Render(values, TextBase(base), separator)| == |s|
    ensures EndsIn(s, i, values, base, separator)
    decreases |values|
  {
    if |values| > 1 {
      var t, rest := Numeral(values[0], TextBase(base)), Render(values[1..], TextBase(base), separator);
      AtPrefix(s, i, t + [separator], rest);
      AtPrefix(s, i, t, [separator]);
      AtChar(s, i + |t|, separator);
      RenderEndsIn(s, i + |t| + 1, values[1..], base, separator);
    }
  }

  lemma {:induction false} SeparatorAfterDigits(s: string, i: nat, e: nat, separator: char)
    requires i <= e <= |s| && CharAt(s, e) == separator
    requires forall k :: i <= k < e ==> CharAt(s, k) != separator
    ensures NextSeparator(s, i, separator) == e
    decreases e - i
  {
    if i < e { SeparatorAfterDigits(s, i + 1, e, separator); }
  }

  /** One iteration of the loop that finds a separator. */
  lemma Iterate(s: string, i: nat, base: nat, separator: char, acc: seq<nat>, v: nat, e: nat, j: nat)
    requires i < e <= |s| && Strtoimax(s, i, base) == (v, e) && v <= UINTMAX_MAX
    requires CharAt(s, e) == separator && NextSeparator(s, i + 1, separator) == j <= |s|
    ensures ListFrom(s, i, base, separator, acc) == ListFrom(s, j + 1, base, separator, acc + [v])
  {
    StoredNatural(v);
  }

  /** The step of the round trip: one value and its separator. */
  lemma ReadOne(s: string, i: nat, values: seq<nat>, base: nat, separator: char, acc: seq<nat>)
    requires ValidBase(base) && EndsIn(s, i, values, base, separator) && |values| > 1
    requires Separates(separator, base, values[0])
    ensures var e := i + |Numeral(values[0], TextBase(base))|;
            ListFrom(s, i, base, separator, acc) == ListFrom(s, e + 1, base, separator, acc + [Clamp(values[0])])
  {
    var n := values[0];
    var e := i + |Numeral(n, TextBase(base))|;
    ReadingDigits(s, i, n, base);
    ScanNumeral(s, i, n, base);
    SeparatorAfterDigits(s, i + 1, e, separator);
    Iterate(s, i, base, separator, acc, Clamp(n), e, e);
  }

  lemma ReadLast(s: string, i: nat, n: nat, base: nat, separator: char, acc: seq<nat>)
    requires ValidBase(base) && separator != '\0'
    requires At(s, i, Numeral(n, TextBase(base))) && i + |Numeral(n, TextBase(base))| == |s|
    ensures ListFrom(s, i, base, separator, acc) == List(acc + [Clamp(n)])
  {
    ReadingDigits(s, i, n, base);
    ScanNumeral(s, i, n, base);
    StoredNatural(Clamp(n));
  }

  lemma ClampedCons(acc: seq<nat>, values: seq<nat>)
    requires values != []
    ensures acc + [Clamp(values[0])] + Clamped(values[1..]) == acc + Clamped(values)
  {
    assert Clamped(values) == [Clamp(values[0])] + Clamped(values[1..]);
  }

  ghost predicate AllSeparate(values: seq<nat>, base: nat, separator: char) {
    forall k :: 0 <= k < |values| - 1 ==> Separates(separator, base, values[k])
  }

  lemma SeparatedFirst(s: string, i: nat, values: seq<nat>, base: nat, separator: char, acc: seq<nat>)
    returns (e: nat)
    requires ValidBase(base) && EndsIn(s, i, values, base, separator) && |values| > 1
    requires Separates(separator, base, values[0])
    ensures EndsIn(s, e + 1, values[1..], base, separator)
    ensures ListFrom(s, i, base, separator, acc) == ListFrom(s, e + 1, base, separator, acc + [Clamp(values[0])])
  {
    e := i + |Numeral(values[0], TextBase(base))|;
    ReadOne(s, i, values, base, separator, acc);
  }

  lemma TailSeparates(values: seq<nat>, base: nat, separator: char)
    requires |values| > 1 && AllSeparate(values, base, separator)
    ensures Separates(separator, base, values[0]) && AllSeparate(values[1..], base, separator)
  {
  }

  lemma {:induction false} ReadBack(s: string, i: nat, values: seq<nat>, base: nat, separator: char, acc: seq<nat>)
    requires ValidBase(base) && separator != '\0' && AllSeparate(values, base, separator)
    requires EndsIn(s, i, values, base, separator)
    ensures ListFrom(s, i, base, separator, acc) == List(acc + Clamped(values))
    decreases |values|
  {
    ClampedCons(acc, values);
    if |values| == 1 {
      ReadLast(s, i, values[0], base, separator, acc);
      assert Clamped(values[1..]) == [];
    } else {
      TailSeparates(values, base, separator);
      var e := SeparatedFirst(s, i, values, base, separator, acc);
      ReadBack(s, e + 1, values[1..], base, separator, acc + [Clamp(values[0])]);
    }
  }

  lemma ClampedIs(values: seq<nat>)
    ensures Clamped(values) == values <==> forall i :: 0 <= i < |values| ==> values[i] <= INTMAX_MAX
  {
    if forall i :: 0 <= i < |values| ==> values[i] <= INTMAX_MAX {
      assert Clamped(values) == values;
    } else {
      var i :| 0 <= i < |values| && values[i] > INTMAX_MAX;
      assert Clamped(values)[i] != values[i];
    }
  }

  // ---------- separators that fail ----------

  /** Reading on keeps what has been read. */
  lemma {:induction false} ListExtends(s: string, i: nat, base: nat, separator: char, acc: seq<nat>)
    ensures var r := ListFrom(s, i, base, separator, acc); r.List? ==> acc < r.values
    decreases |s| + 1 - i
  {
    if i <= |s| {
      var (v, end) := Strtoimax(s, i, base);
      var j := NextSeparator(s, i + 1, separator);
      if end != i && CharAt(s, end) == separator && j <= |s| {
        ListExtends(s, j + 1, base, separator, acc + [Stored(v)]);
      }
    }
  }

  /** Without a separator behind it, the number read is the last. */
  lemma ReadsLast(s: string, i: nat, base: nat, separator: char, acc: seq<nat>)
    requires CharAt(s, Strtoimax(s, i, base).1) != separator
    ensures var r := ListFrom(s, i, base, separator, acc); r.List? ==> |r.values| == |acc| + 1
  {
  }

  lemma {:induction false} EndIsNoDigit(s: string, i: nat, base: nat)
    ensures !IsDigitIn(CharAt(s, DigitsEnd(s, i, base)), base)
    ensures i < |s| && IsDigitIn(s[i], base) ==> DigitsEnd(s, i, base) > i
    decreases |s| - i
  {
    if i < |s| && IsDigitIn(s[i], base) { EndIsNoDigit(s, i + 1, base); }
  }

  /** A separator that is a digit: the number swallows it and ends elsewhere. */
  lemma DigitSwallowed(s: string, i: nat, values: seq<nat>, base: nat, separator: char, acc: seq<nat>)
    requires ValidBase(base) && EndsIn(s, i, values, base, separator) && |values| > 1
    requires IsDigitIn(separator, ReadingBase(base, values[0]))
    ensures var r := ListFrom(s, i, base, separator, acc); r.List? ==> |r.values| == |acc| + 1
  {
    var b := ReadingBase(base, values[0]);
    ReadingDigits(s, i, values[0], base);
    assert IsDigitIn(CharAt(s, i), b);
    NoSign(s, i);
    EndIsNoDigit(s, i, b);
    assert IsDigitIn(CharAt(s, i), 36);
    assert !HasHexPrefix(s, i, base);
    assert Strtoimax(s, i, base).1 == DigitsEnd(s, i, b);
    ReadsLast(s, i, base, separator, acc);
  }

  /** The numeral of a positive number has a positive value in any base that reads it. */
  lemma {:induction false} PositiveValue(s: string, i: nat, e: nat, base: nat)
    requires base > 0 && i < e && 0 < DigitOf(CharAt(s, i))
    ensures Value(s, i, e, base) > 0
    decreases e
  {
    if i < e - 1 {
      PositiveValue(s, i, e - 1, base);
      assert base * Value(s, i, e - 1, base) > 0;
    } else {
      assert Value(s, i, i, base) == 0;
      assert base * 0 == 0;
    }
  }

  /** 0, an x and a numeral: read as one hexadecimal number, which ends with the numeral and is
      zero exactly if the numeral's is. */
  lemma PrefixRead(s: string, i: nat, values: seq<nat>, base: nat, separator: char) returns (v: nat, e: nat)
    requires (base == 0 || base == 16) && EndsIn(s, i, values, base, separator) && |values| > 1
    requires values[0] == 0 && (separator == 'x' || separator == 'X')
    ensures i + 2 < e <= |s| && Strtoimax(s, i, base) == (v, e) && v <= UINTMAX_MAX
    ensures CharAt(s, e) == separator ==> |values| > 2
    ensures v == 0 ==> values[1] == 0
    ensures NextSeparator(s, i + 1, separator) == i + 1 && EndsIn(s, i + 2, values[1..], base, separator)
  {
    var rest, b := values[1..], TextBase(base);
    NumeralDigits(0, b);
    AtDigits(s, i, 0, b);
    AtDigits(s, i + 2, rest[0], b);
    assert CharAt(s, i) == '0' && CharAt(s, i + 1) == separator && IsDigitIn(CharAt(s, i + 2), b);
    assert HasHexPrefix(s, i, base);
    NoSign(s, i);
    EndIsNoDigit(s, i + 2, 16);
    e := DigitsEnd(s, i + 2, 16);
    v := Clamp(Value(s, i + 2, e, 16));
    assert Strtoimax(s, i, base) == (v, e);
    if values[1] > 0 { PositiveValue(s, i + 2, e, 16); }
    if |rest| == 1 { DigitsEndIs(s, i + 2, |s|, 16); }
  }

  /** After a 0 read as a prefix, the numeral behind it is read again, unless it was the end. */
  lemma PrefixedFirst(s: string, i: nat, values: seq<nat>, base: nat, separator: char, acc: seq<nat>)
    returns (v: nat, more: bool)
    requires (base == 0 || base == 16) && EndsIn(s, i, values, base, separator) && |values| > 1
    requires values[0] == 0 && (separator == 'x' || separator == 'X')
    ensures !more ==> ListFrom(s, i, base, separator, acc) != List(acc + values)
    ensures more ==> ListFrom(s, i, base, separator, acc) == ListFrom(s, i + 2, base, separator, acc + [v])
    ensures more ==> EndsIn(s, i + 2, values[1..], base, separator)
    ensures more && v == 0 ==> !AllSeparate(values[1..], base, separator)
  {
    var e;
    v, e := PrefixRead(s, i, values, base, separator);
    more := CharAt(s, e) == separator;
    if more {
      Iterate(s, i, base, separator, acc, v, e, i + 1);
      if v == 0 { assert !Separates(separator, base, values[1..][0]); }
    } else {
      ReadsLast(s, i, base, separator, acc);
    }
  }

  lemma MisreadLater(values: seq<nat>, base: nat, separator: char)
    requires values != [] && Separates(separator, base, values[0]) && !AllSeparate(values, base, separator)
    ensures |values| > 2 && !AllSeparate(values[1..], base, separator)
  {
    var k :| 0 <= k < |values| - 1 && !Separates(separator, base, values[k]);
    assert values[1..][k - 1] == values[k];
  }

  /** A first value that differs, or a rest that does, makes the list differ. */
  lemma Differs(s: string, j: nat, values: seq<nat>, base: nat, separator: char, acc: seq<nat>, v: nat)
    requires values != []
    requires v == values[0] ==> ListFrom(s, j, base, separator, acc + [v]) != List(acc + [v] + values[1..])
    ensures ListFrom(s, j, base, separator, acc + [v]) != List(acc + values)
  {
    ListExtends(s, j, base, separator, acc + [v]);
    assert acc + [values[0]] + values[1..] == acc + values;
    var r := ListFrom(s, j, base, separator, acc + [v]);
    if r.List? { assert r.values[|acc|] == v && (acc + values)[|acc|] == values[0]; }
  }

  /** If some separator does not separate, the list that is read, if any, is another one. */
  lemma {:induction false} Misread(s: string, i: nat, values: seq<nat>, base: nat, separator: char, acc: seq<nat>)
    requires ValidBase(base) && EndsIn(s, i, values, base, separator) && !AllSeparate(values, base, separator)
    ensures ListFrom(s, i, base, separator, acc) != List(acc + values)
    decreases |values|
  {
    var n := values[0];
    if Separates(separator, base, n) {
      MisreadLater(values, base, separator);
      var e := SeparatedFirst(s, i, values, base, separator, acc);
      Misread(s, e + 1, values[1..], base, separator, acc + [Clamp(n)]);
      Differs(s, e + 1, values, base, separator, acc, Clamp(n));
    } else if IsDigitIn(separator, ReadingBase(base, n)) {
      DigitSwallowed(s, i, values, base, separator, acc);
    } else {
      var v, more := PrefixedFirst(s, i, values, base, separator, acc);
      if more {
        if v == 0 {
          Misread(s, i + 2, values[1..], base, separator, acc + [v]);
        }
        Differs(s, i + 2, values, base, separator, acc, v);
      }
    }
  }

  /** With the terminator as separator the scan runs past the end of the string. */
  lemma {:induction false} TerminatorRunsAway(s: string, i: nat, base: nat, acc: seq<nat>)
    ensures !ListFrom(s, i, base, '\0', acc).List?
    decreases |s| + 1 - i
  {
    if i <= |s| {
      var (v, end) := Strtoimax(s, i, base);
      var j := NextSeparator(s, i + 1, '\0');
      if end != i && CharAt(s, end) == '\0' && j <= |s| {
        TerminatorRunsAway(s, j + 1, base, acc + [Stored(v)]);
      }
    }
  }

  /** A number and the text behind it: parsed exactly if the text starts with the character that
      has to follow, else the program exits. */
  lemma ParseIntExact(s: string, n: nat, base: nat, next: char)
    requires ValidBase(base) && At(s, 0, Numeral(n, TextBase(base)))
    requires Separates(CharAt(s, |Numeral(n, TextBase(base))|), base, n)
    ensures ParseInt(s, 0, base, next) ==
            if CharAt(s, |Numeral(n, TextBase(base))|) == next then List([Clamp(n)]) else Exit
  {
    ReadingDigits(s, 0, n, base);
    ScanNumeral(s, 0, n, base);
    StoredNatural(Clamp(n));
  }

  /** Without a space, sign or digit at its start no text is a number. */
  lemma NoNumberExits(s: string, base: nat, separator: char)
    requires ValidBase(base)
    requires !IsSpace(CharAt(s, 0)) && CharAt(s, 0) != '+' && CharAt(s, 0) != '-' && !IsDigitIn(CharAt(s, 0), 36)
    ensures ParseInt(s, 0, base, separator) == Exit && ListFrom(s, 0, base, separator, []) == Exit
  {
  }

  /** White space in front of a number is skipped. */
  lemma LeadingSpace(c: char, n: nat)
    requires c == ' ' || 9 <= c as int <= 13
    ensures ParseInt([c] + Decimal(n), 0, 10, '\0') == List([Clamp(n)])
  {
    var s := [c] + Decimal(n);
    assert At(s, 1, Decimal(n));
    AtDigits(s, 1, n, 10);
    NumeralValue(s, 1, n, 10);
    DigitsEndIs(s, 1, |s|, 10);
    assert SkipSpace(s, 1) == 1 && SkipSpace(s, 0) == 1;
    StoredNatural(Clamp(n));
  }

  lemma StoredNegative(n: nat)
    requires 0 < n <= 0x8000_0000_0000_0000
    ensures Stored(0 - (n as int)) == 0x1_0000_0000_0000_0000 - n
  {
  }

  /** A negative number comes back as its 64-bit two's complement. */
  lemma NegativeWraps(n: nat)
    requires 0 < n <= 0x8000_0000_0000_0000
    ensures ParseInt("-" + Decimal(n), 0, 10, '\0') == List([0x1_0000_0000_0000_0000 - n])
  {
    var s := "-" + Decimal(n);
    assert At(s, 1, Decimal(n));
    AtDigits(s, 1, n, 10);
    NumeralValue(s, 1, n, 10);
    DigitsEndIs(s, 1, |s|, 10);
    assert SkipSpace(s, 0) == 0 && NumberStart(s, 0) == 1;
    assert Strtoimax(s, 0, 10) == (0 - (n as int), |s|);
    StoredNegative(n);
  }

  /** Rendering a list and parsing it gives the list back exactly when the separator is not the
      terminator and separates every value from the next, and every value fits an intmax_t.
      Signs and white space work as separators too. */
  lemma RoundTripExact(values: seq<nat>, base: nat, separator: char)
    requires values != [] && ValidBase(base)
    ensures ListFrom(Render(values, TextBase(base), separator), 0, base, separator, []) == List(values) <==>
            && separator != '\0'
            && AllSeparate(values, base, separator)
            && forall i :: 0 <= i < |values| ==> values[i] <= 0x7fff_ffff_ffff_ffff
  {
    var s := Render(values, TextBase(base), separator);
    RenderEndsIn(s, 0, values, base, separator);
    if separator == '\0' {
      TerminatorRunsAway(s, 0, base, []);
    } else if AllSeparate(values, base, separator) {
      ReadBack(s, 0, values, base, separator, []);
      assert [] + Clamped(values) == Clamped(values);
      ClampedIs(values);
    } else {
      Misread(s, 0, values, base, separator, []);
      assert [] + values == values;
    }
  }
}
