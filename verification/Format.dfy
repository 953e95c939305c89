/** Integers printed by lib/stdio.c. */
module Format {
  /*
   Integer conversions of printf() and the bounded buffer of snprintf(), from stdio.c. Characters
   handed to the output callback are modelled as the sequence of characters handed over.
   */

  import opened Common

  /** struct integer_base. */
  datatype Base = Base(base: nat, digits: string, x: Option<char>, group: nat)

  const BASE_D := Base(10, "0123456789", None, 3)
  const BASE_O := Base(8, "01234567", None, 3)
  const BASE_LOWER_X := Base(16, "0123456789abcdef", Some('x'), 4)
  const BASE_UPPER_X := Base(16, "0123456789ABCDEF", Some('X'), 4)

  /** The four bases of the code. */
  predicate Known(b: Base) {
    b == BASE_D || b == BASE_O || b == BASE_LOWER_X || b == BASE_UPPER_X
  }

  /** The flags, width and precision of a struct printf_conversion. */
  datatype Conversion = Conversion(minus: bool, plus: bool, space: bool, pound: bool, zero: bool,
                                   group: bool, width: int, precision: int)

  function Rev(s: string): string {
    seq(|s|, i requires 0 <= i < |s| => s[|s| - 1 - i])
  }

  function Dup(ch: char, n: int): string {
    if n <= 0 then "" else seq(n, _ => ch)
  }

  /** The digits of v, with a comma behind digit k (counted from the right) when k is a multiple of the
      group size; the first digit written counts as digit k. */
  function Digits(v: nat, b: Base, group: bool, k: nat): string
    requires Known(b)
  {
    if v == 0 then ""
    else Digits(v / b.base, b, group, k + 1) + [b.digits[v % b.base]] + Comma(b, group, k)
  }

  function Comma(b: Base, group: bool, k: nat): string
    requires Known(b)
  {
    if group && k > 0 && k % b.group == 0 then "," else ""
  }

  function Sign(c: Conversion, isSigned: bool, negative: bool): string {
    if !isSigned then ""
    else if negative then "-"
    else if c.plus then "+"
    else if c.space then " "
    else ""
  }

  function Prefix(c: Conversion, v: nat, b: Base): string {
    if c.pound && v > 0 && b.x.Some? then ['0', b.x.value] else ""
  }

  /** The digits with the zeros that the precision and the # flag ask for. */
  function Body(c: Conversion, v: nat, b: Base): string
    requires Known(b)
  {
    var padded := Padded(c, v, b);
    if c.pound && b.base == 8 && (padded == "" || padded[0] != '0') then "0" + padded else padded
  }

  function Padded(c: Conversion, v: nat, b: Base): string
    requires Known(b)
  {
    var digits := Digits(v, b, c.group, 0);
    Dup('0', Min(if c.precision < 0 then 1 else c.precision, 63) - |digits|) + digits
  }

  function Natural(c: Conversion, v: nat, isSigned: bool, negative: bool, b: Base): nat
    requires Known(b)
  {
    |Sign(c, isSigned, negative)| + |Prefix(c, v, b)| + |Body(c, v, b)|
  }

  /** The parts of a conversion, with pad characters to fill the field. */
  function Layout(c: Conversion, pad: nat, sign: string, prefix: string, body: string): string {
    Dup(' ', if c.minus || c.zero then 0 else pad) + sign + prefix + Dup('0', if c.zero then pad else 0)
    + body + Dup(' ', if c.minus then pad else 0)
  }

  /** What a conversion prints. */
  function Render(c: Conversion, v: nat, isSigned: bool, negative: bool, b: Base): string
    requires Known(b)
  {
    Layout(c, Max(c.width - Natural(c, v, isSigned, negative, b), 0), Sign(c, isSigned, negative),
           Prefix(c, v, b), Body(c, v, b))
  }

  // ----- format_integer() -----

  lemma RevSnoc(s: string, x: char)
    ensures Rev(s + [x]) == [x] + Rev(s)
  {
  }

  lemma RevCons(x: char, s: string)
    ensures Rev([x] + s) == Rev(s) + [x]
  {
  }

  function Pow8(n: nat): nat {
    if n == 0 then 1 else 8 * Pow8(n - 1)
  }

  /** Every digit takes at most one comma with it. */
  lemma {:induction false} DigitsShort(v: nat, b: Base, group: bool, k: nat, n: nat)
    requires Known(b) && v < Pow8(n)
    ensures |Digits(v, b, group, k)| <= 2 * n
  {
    if v > 0 {
      assert v / b.base <= v / 8;
      DigitsShort(v / b.base, b, group, k + 1, n - 1);
    }
  }

  lemma Digits64(v: nat, b: Base, group: bool)
    requires Known(b) && v < 0x1_0000_0000_0000_0000
    ensures |Digits(v, b, group, 0)| <= 44
  {
    assert Pow8(22) == 8 * 8 * 8 * 8 * 8 * 8 * Pow8(16) == 262144 * 262144 * Pow8(10) == 262144 * 262144 * 262144 * Pow8(4)
    by {
      assert Pow8(21) == 8 * Pow8(20) && Pow8(19) == 8 * Pow8(18) && Pow8(17) == 8 * Pow8(16);
      assert Pow8(15) == 8 * Pow8(14) && Pow8(13) == 8 * Pow8(12) && Pow8(11) == 8 * Pow8(10);
      assert Pow8(9) == 8 * Pow8(8) && Pow8(7) == 8 * Pow8(6) && Pow8(5) == 8 * Pow8(4);
    }
    assert Pow8(4) == 4096;
    DigitsShort(v, b, group, 0, 22);
  }

  /** The first loop of format_integer(): digits into the buffer, last digit first. */
  method Accumulate(buf: array<char>, v: nat, c: Conversion, b: Base) returns (cp: nat)
    requires Known(b) && v < 0x1_0000_0000_0000_0000 && buf.Length == 64
    modifies buf
    ensures cp <= 44 && Rev(buf[..cp]) == Digits(v, b, c.group, 0)
  {
    cp := 0;
    var value, digitCnt := v, 0;
    Digits64(v, b, c.group);
    ghost var all := Digits(v, b, c.group, 0);
    while value > 0
      invariant 0 <= cp <= 64 && 0 <= value
      invariant all == Digits(value, b, c.group, digitCnt) + Rev(buf[..cp])
    {
      ghost var before := buf[..cp];
      assert |Digits(value, b, c.group, digitCnt)| >= 1 + |Comma(b, c.group, digitCnt)|;
      if c.group && digitCnt > 0 && digitCnt % b.group == 0 {
        buf[cp] := ',';
        cp := cp + 1;
        assert buf[..cp] == before + [','];
        RevSnoc(before, ',');
      }
      ghost var middle := buf[..cp];
      assert Rev(middle) == Comma(b, c.group, digitCnt) + Rev(before);
      buf[cp] := b.digits[value % b.base];
      cp := cp + 1;
      assert buf[..cp] == middle + [b.digits[value % b.base]];
      RevSnoc(middle, b.digits[value % b.base]);
      AccumulateStep(value, b, c.group, digitCnt, Rev(before));
      value := value / b.base;
      digitCnt := digitCnt + 1;
    }
  }

  lemma AccumulateStep(v: nat, b: Base, group: bool, k: nat, t: string)
    requires Known(b) && v > 0
    ensures Digits(v, b, group, k) + t
         == Digits(v / b.base, b, group, k + 1) + ([b.digits[v % b.base]] + (Comma(b, group, k) + t))
  {
  }

  /** The zeros of the precision. */
  method PadPrecision(buf: array<char>, n: nat, precision: int, ghost digits: string) returns (cp: nat)
    requires buf.Length == 64 && n <= 44 && Rev(buf[..n]) == digits && |digits| == n
    modifies buf
    ensures n <= cp <= 63 && Rev(buf[..cp]) == Dup('0', Min(precision, 63) - |digits|) + digits
  {
    cp := n;
    assert Dup('0', 0) + digits == digits;
    assert precision <= n ==> Dup('0', Min(precision, 63) - n) == Dup('0', 0);
    hide Rev, Dup;
    while cp < precision && cp < 63
      invariant n <= cp <= 63 && (cp > n ==> cp <= precision)
      invariant Rev(buf[..cp]) == Dup('0', cp - n) + digits
    {
      ghost var before := buf[..cp];
      buf[cp] := '0';
      cp := cp + 1;
      Extended(buf[..], before, '0');
      OneMoreZero(before, cp - 1 - n, digits);
    }
  }

  lemma Extended(all: string, before: string, ch: char)
    requires |before| < |all| && all[..|before|] == before && all[|before|] == ch
    ensures all[..|before| + 1] == before + [ch]
  {
  }

  lemma OneMoreZero(before: string, zeros: nat, digits: string)
    requires Rev(before) == Dup('0', zeros) + digits
    ensures Rev(before + ['0']) == Dup('0', zeros + 1) + digits
  {
    hide Rev, Dup;
    RevSnoc(before, '0');
    MoreZeros(zeros, digits);
  }

  lemma MoreZeros(n: nat, digits: string)
    ensures Dup('0', n + 1) + digits == ['0'] + (Dup('0', n) + digits)
  {
    assert Dup('0', n + 1) == ['0'] + Dup('0', n);
  }

  lemma RevLength(s: string)
    ensures |Rev(s)| == |s| && (s != "" ==> Rev(s)[0] == s[|s| - 1])
  {
  }

  /** The zeros of the precision and of the # flag: the buffer of 64 characters suffices. */
  method PadDigits(buf: array<char>, n: nat, c: Conversion, b: Base, ghost v: nat) returns (cp: nat)
    requires Known(b) && buf.Length == 64 && n <= 44 && Rev(buf[..n]) == Digits(v, b, c.group, 0)
    modifies buf
    ensures cp <= 64 && Rev(buf[..cp]) == Body(c, v, b) && |Body(c, v, b)| == cp
  {
    RevLength(buf[..n]);
    PaddedIs(c, v, b);
    hide Digits, Known, Rev, Dup, Body, Padded;
    cp := PadPrecision(buf, n, if c.precision < 0 then 1 else c.precision, Digits(v, b, c.group, 0));
    ghost var padded := buf[..cp];
    RevLength(padded);
    var wanted := c.pound && b.base == 8 && (cp == 0 || buf[cp - 1] != '0');
    assert wanted == (c.pound && b.base == 8 && (padded == "" || padded[|padded| - 1] != '0'));
    BodyIs(c, v, b, padded);
    cp := OctalZero(buf, cp, wanted, padded);
    RevLength(buf[..cp]);
  }

  lemma PaddedIs(c: Conversion, v: nat, b: Base)
    requires Known(b)
    ensures var digits := Digits(v, b, c.group, 0);
      Padded(c, v, b) == Dup('0', Min(if c.precision < 0 then 1 else c.precision, 63) - |digits|) + digits
  {
  }

  lemma BodyIs(c: Conversion, v: nat, b: Base, s: string)
    requires Known(b) && Rev(s) == Padded(c, v, b) && |Rev(s)| == |s| && (s != "" ==> Rev(s)[0] == s[|s| - 1])
    ensures Body(c, v, b) == (if c.pound && b.base == 8 && (s == "" || s[|s| - 1] != '0') then "0" else "") + Rev(s)
  {
    hide Rev, Padded, Known;
  }

  method OctalZero(buf: array<char>, n: nat, wanted: bool, ghost before: string) returns (cp: nat)
    requires n < buf.Length && buf[..n] == before
    modifies buf
    ensures n <= cp <= n + 1 && Rev(buf[..cp]) == (if wanted then "0" else "") + Rev(before)
  {
    hide Rev;
    cp := n;
    if wanted {
      buf[cp] := '0';
      cp := cp + 1;
      assert buf[..cp - 1] == before;
      assert buf[..cp] == before + ['0'];
      RevSnoc(before, '0');
    }
  }

  /** output_dup(). */
  method OutputDup(ch: char, n: nat, output: string) returns (r: string)
    ensures r == output + Dup(ch, n)
  {
    r := output;
    for i := 0 to n
      invariant r == output + Dup(ch, i)
    {
      r := r + [ch];
    }
  }

  /** The loop that hands over the buffer from its end. */
  method OutputReversed(buf: array<char>, n: nat, output: string) returns (r: string)
    requires n <= buf.Length
    ensures r == output + Rev(buf[..n])
  {
    r := output;
    var cp := n;
    while cp > 0
      invariant 0 <= cp <= n && r == output + Rev(buf[cp..n])
    {
      cp := cp - 1;
      assert buf[cp..n] == [buf[cp]] + buf[cp + 1..n];
      RevCons(buf[cp], buf[cp + 1..n]);
      r := r + [buf[cp]];
    }
  }

  /** The sign character, if any. */
  method SignOf(c: Conversion, isSigned: bool, negative: bool) returns (sign: string)
    ensures sign == Sign(c, isSigned, negative)
  {
    sign := "";
    if isSigned {
      if c.plus {
        sign := if negative then "-" else "+";
      } else if c.space {
        sign := if negative then "-" else " ";
      } else if negative {
        sign := "-";
      }
    }
  }

  /** The output part of format_integer(). */
  method OutputAll(c: Conversion, pad: nat, sign: string, x: Option<char>, buf: array<char>, cp: nat)
    returns (output: string)
    requires cp <= buf.Length
    ensures output == Layout(c, pad, sign, if x.Some? then ['0', x.value] else "", Rev(buf[..cp]))
  {
    ghost var prefix := if x.Some? then ['0', x.value] else "";
    assert Dup(' ', 0) == Dup('0', 0) == "";
    hide Rev, Dup;
    output := "";
    if !c.minus && !c.zero {
      output := OutputDup(' ', pad, output);
    }
    output := output + sign;
    ghost var signed := output;
    if x.Some? {
      output := output + ['0'] + [x.value];
    }
    assert output == signed + prefix;
    if c.zero {
      output := OutputDup('0', pad, output);
    }
    output := OutputReversed(buf, cp, output);
    if c.minus {
      output := OutputDup(' ', pad, output);
    }
  }

  lemma PrefixIs(c: Conversion, v: nat, b: Base, x: Option<char>)
    requires x == if c.pound && v != 0 then b.x else None
    ensures Prefix(c, v, b) == if x.Some? then ['0', x.value] else ""
    ensures |Prefix(c, v, b)| == if x.Some? then 2 else 0
  {
  }

  /** format_integer(): the buffer never overflows and the characters handed to the callback are the
      rendering of the value. */
  method FormatInteger(v: nat, isSigned: bool, negative: bool, b: Base, c: Conversion) returns (output: string)
    requires Known(b) && v < 0x1_0000_0000_0000_0000
    ensures output == Render(c, v, isSigned, negative, b)
  {
    hide Known, Sign, Prefix, Body, Digits, Rev, Dup, Layout;
    var buf := new char[64];
    var sign := SignOf(c, isSigned, negative);
    var x := if c.pound && v != 0 then b.x else None;
    PrefixIs(c, v, b, x);
    var n := Accumulate(buf, v, c, b);
    var cp := PadDigits(buf, n, c, b, v);
    var padCnt := c.width - cp - (if x.Some? then 2 else 0) - |sign|;
    if padCnt < 0 {
      padCnt := 0;
    }
    output := OutputAll(c, padCnt, sign, x, buf, cp);
  }

  // ----- what a conversion prints -----

  lemma DupLength(ch: char, n: int)
    ensures |Dup(ch, n)| == Max(n, 0)
  {
  }

  /** The field is filled exactly, but for a conversion with both the - and the 0 flag, which pads on
      both sides. */
  lemma RenderWidth(c: Conversion, v: nat, isSigned: bool, negative: bool, b: Base)
    requires Known(b)
    ensures |Render(c, v, isSigned, negative, b)|
         == if c.minus && c.zero && Natural(c, v, isSigned, negative, b) < c.width
            then 2 * c.width - Natural(c, v, isSigned, negative, b)
            else Max(c.width, Natural(c, v, isSigned, negative, b))
  {
    hide Known, Sign, Prefix, Body, Digits, Rev, Dup;
    var pad := Max(c.width - Natural(c, v, isSigned, negative, b), 0);
    DupLength(' ', if c.minus || c.zero then 0 else pad);
    DupLength('0', if c.zero then pad else 0);
    DupLength(' ', if c.minus then pad else 0);
  }

  /** The value of a digit. */
  function DigitValue(ch: char): int {
    if ch >= 'a' then ch as int - 'a' as int + 10
    else if ch >= 'A' then ch as int - 'A' as int + 10
    else ch as int - '0' as int
  }

  /** The number that a string of digits and commas denotes. */
  function Value(s: string, base: nat): int {
    if s == "" then 0
    else if s[|s| - 1] == ',' then Value(s[..|s| - 1], base)
    else Value(s[..|s| - 1], base) * base + DigitValue(s[|s| - 1])
  }

  lemma DigitOf(b: Base, d: nat)
    requires Known(b) && d < b.base
    ensures DigitValue(b.digits[d]) == d && b.digits[d] != ','
    ensures b.digits[d] == '0' <==> d == 0
  {
  }

  lemma ValueSnoc(s: string, ch: char, base: nat)
    ensures Value(s + [ch], base) == if ch == ',' then Value(s, base) else Value(s, base) * base + DigitValue(ch)
  {
    assert (s + [ch])[..|s|] == s;
  }

  lemma {:induction false} DigitsDenote(v: nat, b: Base, group: bool, k: nat)
    requires Known(b)
    ensures Value(Digits(v, b, group, k), b.base) == v
  {
    if v > 0 {
      DigitsDenote(v / b.base, b, group, k + 1);
      DigitOf(b, v % b.base);
      hide Known;
      var front := Digits(v / b.base, b, group, k + 1);
      var d := b.digits[v % b.base];
      ValueSnoc(front, d, b.base);
      ValueSnoc(front + [d], ',', b.base);
      assert front + [d] + "" == front + [d];
    }
  }

  /** Zeros in front change nothing. */
  lemma {:induction false} LeadingZeros(n: int, s: string, base: nat)
    ensures Value(Dup('0', n) + s, base) == Value(s, base)
    decreases |s|, Max(n, 0)
  {
    hide Value, Dup;
    if s != "" {
      var front, last := s[..|s| - 1], s[|s| - 1];
      assert s == front + [last] && Dup('0', n) + s == (Dup('0', n) + front) + [last];
      LeadingZeros(n, front, base);
      ValueSnoc(front, last, base);
      ValueSnoc(Dup('0', n) + front, last, base);
    } else {
      OnlyZeros(n, base);
      assert Dup('0', n) + s == Dup('0', n);
    }
  }

  lemma {:induction false} OnlyZeros(n: int, base: nat)
    ensures Value(Dup('0', n), base) == Value("", base) == 0
    decreases Max(n, 0)
  {
    if n > 0 {
      OnlyZeros(n - 1, base);
      ValueSnoc(Dup('0', n - 1), '0', base);
      assert Dup('0', n) == Dup('0', n - 1) + ['0'];
    }
  }

  lemma PaddedDenotes(c: Conversion, v: nat, b: Base)
    requires Known(b)
    ensures Value(Padded(c, v, b), b.base) == v
  {
    hide Known, Digits, Value, Dup;
    DigitsDenote(v, b, c.group, 0);
    var digits := Digits(v, b, c.group, 0);
    LeadingZeros(Min(if c.precision < 0 then 1 else c.precision, 63) - |digits|, digits, b.base);
  }

  /** Whatever the flags, the digits printed denote the value. */
  lemma BodyDenotes(c: Conversion, v: nat, b: Base)
    requires Known(b)
    ensures Value(Body(c, v, b), b.base) == v
  {
    PaddedDenotes(c, v, b);
    assert Dup('0', 1) == "0";
    hide Known, Padded, Value, Dup;
    LeadingZeros(1, Padded(c, v, b), b.base);
  }

  /** The digits of a text, commas left out. */
  function Ungrouped(s: string): string {
    if s == "" then ""
    else Ungrouped(s[..|s| - 1]) + if s[|s| - 1] == ',' then "" else [s[|s| - 1]]
  }

  lemma {:induction false} UngroupedAppend(s: string, t: string)
    ensures Ungrouped(s + t) == Ungrouped(s) + Ungrouped(t)
    decreases |t|
  {
    if t == "" {
      assert s + t == s;
    } else {
      var front := t[..|t| - 1];
      assert (s + t)[..|s + t| - 1] == s + front;
      UngroupedAppend(s, front);
    }
  }

  /** Whether commas stand where they should in digits with k more digits behind them: a comma is behind a digit
      if and only if the number of digits behind that is a positive multiple of the group size, and nowhere else. */
  predicate Grouped(s: string, k: nat, group: nat)
    requires group > 0
  {
    forall i :: 0 <= i < |s| ==> GroupedAt(s, i, k, group)
  }

  predicate GroupedAt(s: string, i: nat, k: nat, group: nat)
    requires group > 0 && i < |s|
  {
    var behind := k + |Ungrouped(s[i + 1..])|;
    if s[i] == ',' then i > 0 && s[i - 1] != ','
    else (i + 1 < |s| && s[i + 1] == ',') == (behind > 0 && behind % group == 0)
  }

  /** The grouping flag adds commas to the digits, exactly at those places. */
  lemma {:induction false} GroupingMeans(v: nat, b: Base, k: nat)
    requires Known(b)
    ensures Ungrouped(Digits(v, b, true, k)) == Digits(v, b, false, k)
    ensures Grouped(Digits(v, b, true, k), k, b.group)
  {
    if v > 0 {
      GroupingMeans(v / b.base, b, k + 1);
      DigitOf(b, v % b.base);
      var front, d, comma := Digits(v / b.base, b, true, k + 1), b.digits[v % b.base], Comma(b, true, k);
      DigitsUnfold(v, b, k);
      hide Known, Digits, Grouped, Comma, Ungrouped;
      OneDigit(d, comma);
      UngroupedAppend(front, [d] + comma);
      GroupedStep(front, d, comma, k, b.group);
    }
  }

  lemma DigitsUnfold(v: nat, b: Base, k: nat)
    requires Known(b) && v > 0
    ensures Digits(v, b, true, k) == Digits(v / b.base, b, true, k + 1) + ([b.digits[v % b.base]] + Comma(b, true, k))
    ensures Digits(v, b, false, k) == Digits(v / b.base, b, false, k + 1) + [b.digits[v % b.base]]
    ensures Comma(b, true, k) == if k > 0 && k % b.group == 0 then "," else ""
  {
  }

  lemma OneDigit(d: char, comma: string)
    requires d != ',' && (comma == "" || comma == ",")
    ensures Ungrouped([d] + comma) == [d] && Ungrouped(comma) == "" && Ungrouped("") == ""
  {
    UngroupedAppend([d], comma);
    assert Ungrouped([d]) == [d] by { assert [d][..0] == ""; }
  }

  lemma GroupedStep(front: string, d: char, comma: string, k: nat, group: nat)
    requires group > 0 && d != ',' && Grouped(front, k + 1, group)
    requires comma == if k > 0 && k % group == 0 then "," else ""
    ensures Grouped(front + ([d] + comma), k, group)
  {
    var s := front + ([d] + comma);
    OneDigit(d, comma);
    forall i | 0 <= i < |s| ensures GroupedAt(s, i, k, group) {
      if i < |front| {
        GroupedBefore(front, d, comma, k, group, i);
      } else if i == |front| {
        assert s[i + 1..] == comma;
      } else {
        assert s[i - 1] == d;
      }
    }
  }

  lemma GroupedBefore(front: string, d: char, comma: string, k: nat, group: nat, i: nat)
    requires group > 0 && d != ',' && i < |front| && GroupedAt(front, i, k + 1, group) && Ungrouped([d] + comma) == [d]
    ensures GroupedAt(front + ([d] + comma), i, k, group)
  {
    var s := front + ([d] + comma);
    assert s[i + 1..] == front[i + 1..] + ([d] + comma);
    UngroupedAppend(front[i + 1..], [d] + comma);
    hide Ungrouped;
  }

  // ----- parse_conversion() -----

  function At(f: string, i: nat): char {
    if i < |f| then f[i] else '\0'
  }

  predicate IsFlag(ch: char) {
    ch == '-' || ch == '+' || ch == ' ' || ch == '#' || ch == '0' || ch == '\''
  }

  predicate IsDigit(ch: char) {
    '0' <= ch <= '9'
  }

  function FlagEnd(f: string, i: nat): (r: nat)
    requires i <= |f|
    ensures i <= r <= |f|
    decreases |f| - i
  {
    if i < |f| && IsFlag(f[i]) then FlagEnd(f, i + 1) else i
  }

  function DigitEnd(f: string, i: nat): (r: nat)
    requires i <= |f|
    ensures i <= r <= |f|
    decreases |f| - i
  {
    if i < |f| && IsDigit(f[i]) then DigitEnd(f, i + 1) else i
  }

  /** A field width or a precision: digits, or the next argument. */
  datatype Number = Number(value: int, end: nat, used: nat)

  function NumberAt(f: string, i: nat, args: nat -> int, k: nat): (r: Number)
    requires i <= |f|
    ensures i <= r.end <= |f|
  {
    if At(f, i) == '*' then Number(args(k), i + 1, k + 1)
    else Number(Value(f[i..DigitEnd(f, i)], 10), DigitEnd(f, i), k)
  }

  function FlagsOf(f: string): string {
    f[..FlagEnd(f, 0)]
  }

  function WidthOf(f: string, args: nat -> int): (r: Number)
    ensures r.end <= |f|
  {
    NumberAt(f, FlagEnd(f, 0), args, 0)
  }

  /** The precision, or -1. */
  function PrecisionOf(f: string, args: nat -> int): int {
    PrecisionAt(f, args).value
  }

  function PrecisionAt(f: string, args: nat -> int): (r: Number)
    ensures WidthOf(f, args).end <= r.end <= |f|
  {
    var w := WidthOf(f, args);
    if At(f, w.end) != '.' then Number(-1, w.end, w.used)
    else
      var p := NumberAt(f, w.end + 1, args, w.used);
      p.(value := Max(p.value, -1))
  }

  /** The type of the argument. */
  datatype Size = CharSize | ShortSize | IntSize | IntmaxSize | LongSize | LongLongSize | PtrdiffSize | SizeSize

  function SizeOf(f: string, i: nat): (r: (Size, nat))
    requires i <= |f|
    ensures i <= r.1 <= |f|
  {
    match At(f, i)
    case 'h' => if At(f, i + 1) == 'h' then (CharSize, i + 2) else (ShortSize, i + 1)
    case 'j' => (IntmaxSize, i + 1)
    case 'l' => if At(f, i + 1) == 'l' then (LongLongSize, i + 2) else (LongSize, i + 1)
    case 't' => (PtrdiffSize, i + 1)
    case 'z' => (SizeSize, i + 1)
    case _ => (IntSize, i)
  }

  /** struct printf_conversion, where the letter of the conversion stands, and how many arguments are used up. */
  datatype Spec = Spec(c: Conversion, size: Size, end: nat, used: nat)

  function SpecOf(f: string, args: nat -> int): (r: Spec)
    ensures r.end <= |f|
  {
    var p := PrecisionAt(f, args);
    var (size, end) := SizeOf(f, p.end);
    Spec(Parsed(f, args), size, end, p.used)
  }

  /** The conversion that a format string asks for. */
  function Parsed(f: string, args: nat -> int): Conversion {
    var flags, w, precision := FlagsOf(f), WidthOf(f, args).value, PrecisionOf(f, args);
    Conversion('-' in flags || w < 0, '+' in flags, ' ' in flags && '+' !in flags, '#' in flags,
               '0' in flags && '-' !in flags && precision < 0, '\'' in flags, if w < 0 then -w else w, precision)
  }

  lemma FlagSnoc(f: string, i: nat)
    requires i < |f|
    ensures f[..i + 1] == f[..i] + [f[i]]
  {
  }

  method ParseFlags(f: string) returns (c: Conversion, end: nat)
    ensures end == FlagEnd(f, 0)
    ensures var flags := FlagsOf(f);
      c == Conversion('-' in flags, '+' in flags, ' ' in flags, '#' in flags, '0' in flags, '\'' in flags, 0, -1)
  {
    c, end := Conversion(false, false, false, false, false, false, 0, -1), 0;
    while end < |f| && IsFlag(f[end])
      decreases |f| - end
      invariant end <= |f| && FlagEnd(f, 0) == FlagEnd(f, end)
      invariant var flags := f[..end];
        c == Conversion('-' in flags, '+' in flags, ' ' in flags, '#' in flags, '0' in flags, '\'' in flags, 0, -1)
    {
      FlagSnoc(f, end);
      match f[end] {
        case '-' => c := c.(minus := true);
        case '+' => c := c.(plus := true);
        case ' ' => c := c.(space := true);
        case '#' => c := c.(pound := true);
        case '0' => c := c.(zero := true);
        case _ => c := c.(group := true);
      }
      end := end + 1;
    }
  }

  method ParseNumber(f: string, i: nat, args: nat -> int, k: nat) returns (r: Number)
    requires i <= |f|
    ensures r == NumberAt(f, i, args, k)
  {
    if At(f, i) == '*' {
      return Number(args(k), i + 1, k + 1);
    }
    var value, j := 0, i;
    while j < |f| && IsDigit(f[j])
      decreases |f| - j
      invariant i <= j <= |f| && DigitEnd(f, i) == DigitEnd(f, j) && value == Value(f[i..j], 10)
    {
      ValueSnoc(f[i..j], f[j], 10);
      assert f[i..j + 1] == f[i..j] + [f[j]];
      value := value * 10 + f[j] as int - '0' as int;
      j := j + 1;
    }
    r := Number(value, j, k);
  }

  /** parse_conversion(). */
  method ParseConversion(f: string, args: nat -> int) returns (s: Spec)
    ensures s == SpecOf(f, args)
  {
    hide FlagEnd, DigitEnd, FlagsOf, Value, NumberAt, SizeOf;
    var c, end;
    c, end := ParseFlags(f);
    if c.minus {
      c := c.(zero := false);
    }
    if c.plus {
      c := c.(space := false);
    }
    var w := ParseNumber(f, end, args, 0);
    c := c.(width := w.value);
    if c.width < 0 {
      c := c.(width := -c.width, minus := true);
    }
    var p := ParsePrecision(f, args, w);
    c := c.(precision := p.value);
    if c.precision >= 0 {
      c := c.(zero := false);
    }
    var size, last := ParseSize(f, p.end);
    s := Spec(c, size, last, p.used);
  }

  method ParsePrecision(f: string, args: nat -> int, w: Number) returns (p: Number)
    requires w == WidthOf(f, args)
    ensures p == PrecisionAt(f, args)
  {
    p := Number(-1, w.end, w.used);
    if At(f, w.end) == '.' {
      p := ParseNumber(f, w.end + 1, args, w.used);
      if p.value < 0 {
        p := p.(value := -1);
      }
    }
  }

  method ParseSize(f: string, i: nat) returns (size: Size, end: nat)
    requires i <= |f|
    ensures (size, end) == SizeOf(f, i)
  {
    size, end := IntSize, i;
    match At(f, i) {
      case 'h' =>
        end := i + 1;
        size := ShortSize;
        if At(f, end) == 'h' {
          end := end + 1;
          size := CharSize;
        }
      case 'j' => size, end := IntmaxSize, i + 1;
      case 'l' =>
        end := i + 1;
        size := LongSize;
        if At(f, end) == 'l' {
          end := end + 1;
          size := LongLongSize;
        }
      case 't' => size, end := PtrdiffSize, i + 1;
      case 'z' => size, end := SizeSize, i + 1;
      case _ =>
    }
  }

  // ----- what a conversion asks for -----

  predicate AllDigits(s: string) {
    forall i :: 0 <= i < |s| ==> IsDigit(s[i])
  }

  lemma {:induction false} DigitEndIs(s: string, i: nat, n: nat)
    requires i <= n <= |s| && (forall k :: i <= k < n ==> IsDigit(s[k])) && (n < |s| ==> !IsDigit(s[n]))
    ensures DigitEnd(s, i) == n
    decreases n - i
  {
    if i < n {
      DigitEndIs(s, i + 1, n);
    }
  }

  lemma {:induction false} FlagEndIs(f: string, i: nat, n: nat)
    requires i <= n <= |f| && (forall k :: i <= k < n ==> IsFlag(f[k])) && (n < |f| ==> !IsFlag(f[n]))
    ensures FlagEnd(f, i) == n
    decreases n - i
  {
    if i < n {
      FlagEndIs(f, i + 1, n);
    }
  }

  predicate NumberText(t: string) {
    t == "*" || AllDigits(t)
  }

  /** The text t stands in f at position i. */
  predicate Stands(f: string, i: nat, t: string) {
    i + |t| <= |f| && f[i..i + |t|] == t
  }

  /** The value of a width or a precision given by the text t. */
  function Asked(t: string, args: nat -> int, k: nat): int {
    if t == "*" then args(k) else Value(t, 10)
  }

  function Stars(t: string): nat {
    if t == "*" then 1 else 0
  }

  /** A field width or a precision in a format. */
  lemma NumberMeans(f: string, i: nat, t: string, args: nat -> int, k: nat)
    requires NumberText(t) && Stands(f, i, t)
    requires i + |t| < |f| && !IsDigit(f[i + |t|]) && (t == "" ==> f[i] != '*')
    ensures NumberAt(f, i, args, k) == Number(Asked(t, args, k), i + |t|, k + Stars(t))
  {
    hide Value;
    if t == "*" {
      assert f[i..i + |t|][0] == f[i];
    } else {
      forall j | i <= j < i + |t| ensures IsDigit(f[j]) {
        assert f[j] == f[i..i + |t|][j - i];
      }
      DigitEndIs(f, i, i + |t|);
    }
  }

  /** A length modifier and the number of bits of the types it stands for. */
  function BitsAsked(modifier: string): Option<nat> {
    if modifier == "hh" then Some(8)
    else if modifier == "h" then Some(16)
    else if modifier == "" || modifier == "l" || modifier == "t" || modifier == "z" then Some(32)
    else if modifier == "ll" || modifier == "j" then Some(64)
    else None
  }

  /** The widths of the types on the 80386. */
  function BitsOf(size: Size): (n: nat)
    ensures 0 < n <= 64
  {
    match size
    case CharSize => 8
    case ShortSize => 16
    case IntmaxSize => 64
    case LongLongSize => 64
    case _ => 32
  }

  predicate Letter(ch: char) {
    ('a' <= ch <= 'z' || 'A' <= ch <= 'Z') && ch != 'h' && ch != 'j' && ch != 'l' && ch != 't' && ch != 'z'
  }

  lemma SizeMeans(f: string, i: nat, modifier: string)
    requires BitsAsked(modifier).Some? && Stands(f, i, modifier) && i + |modifier| < |f| && Letter(f[i + |modifier|])
    ensures var (size, end) := SizeOf(f, i);
      BitsOf(size) == BitsAsked(modifier).value && end == i + |modifier|
  {
    var m := f[i..i + |modifier|];
    assert m != "" ==> m[0] == f[i];
    assert |m| == 2 ==> m[1] == f[i + 1];
  }

  /** What the flags, the width and the precision in a format mean. */
  function Wanted(flags: string, width: int, precision: int): Conversion {
    Conversion('-' in flags || width < 0, '+' in flags, ' ' in flags && '+' !in flags, '#' in flags,
               '0' in flags && '-' !in flags && precision < 0, '\'' in flags, Abs(width), Max(precision, -1))
  }

  /** A conversion is written as flags, a width, a precision behind a point if there is one, a length modifier and
      a letter; this is what it asks for. */
  lemma SpecMeans(flags: string, w: string, p: Option<string>, modifier: string, rest: string, args: nat -> int)
    requires (forall i :: 0 <= i < |flags| ==> IsFlag(flags[i])) && NumberText(w) && (w != "" ==> w[0] != '0')
    requires (p.Some? ==> NumberText(p.value)) && BitsAsked(modifier).Some? && rest != "" && Letter(rest[0])
    ensures var point := if p.Some? then "." + p.value else "";
      var s := SpecOf(flags + w + point + modifier + rest, args);
      && s.end == |flags| + |w| + |point| + |modifier|
      && s.used == Stars(w) + (if p.Some? then Stars(p.value) else 0)
      && BitsOf(s.size) == BitsAsked(modifier).value
      && s.c == Wanted(flags, Asked(w, args, 0), if p.Some? then Asked(p.value, args, Stars(w)) else -1)
  {
    var point := if p.Some? then "." + p.value else "";
    Positions(flags, w, point, modifier, rest);
    hide Stands, AllDigits, SpecOf, Wanted, Asked, Stars, NumberText, BitsOf, BitsAsked, Letter;
    SpecAt(flags + w + point + modifier + rest, flags, w, p, modifier, args);
  }

  lemma SpecAt(f: string, flags: string, w: string, p: Option<string>, modifier: string, args: nat -> int)
    requires (forall i :: 0 <= i < |flags| ==> IsFlag(flags[i])) && NumberText(w) && (w != "" ==> w[0] != '0')
    requires (p.Some? ==> NumberText(p.value)) && BitsAsked(modifier).Some?
    requires var point := if p.Some? then "." + p.value else ""; var m := |flags| + |w| + |point|;
      && Stands(f, 0, flags) && Stands(f, |flags|, w) && Stands(f, |flags| + |w|, point) && Stands(f, m, modifier)
      && m + |modifier| < |f| && Letter(f[m + |modifier|])
    ensures var point := if p.Some? then "." + p.value else "";
      var s := SpecOf(f, args);
      && s.end == |flags| + |w| + |point| + |modifier|
      && s.used == Stars(w) + (if p.Some? then Stars(p.value) else 0)
      && BitsOf(s.size) == BitsAsked(modifier).value
      && s.c == Wanted(flags, Asked(w, args, 0), if p.Some? then Asked(p.value, args, Stars(w)) else -1)
  {
    hide Value, FlagEnd, DigitEnd, FlagsOf, SizeOf, NumberAt, WidthOf, PrecisionAt, BitsOf, BitsAsked, NumberText, Letter;
    hide Stands, Asked, Stars, AllDigits, IsFlag, IsDigit, SpecOf, Wanted;
    NumbersAt(f, flags, w, p, modifier, args);
    SizeMeans(f, |flags| + |w| + if p.Some? then |"." + p.value| else 0, modifier);
    SpecIs(f, flags, args);
    NoPrecision(flags, WidthOf(f, args).value, if p.Some? then Asked(p.value, args, Stars(w)) else -1);
  }

  lemma NoPrecision(flags: string, width: int, precision: int)
    ensures Wanted(flags, width, Max(precision, -1)) == Wanted(flags, width, precision)
  {
  }

  lemma NumbersAt(f: string, flags: string, w: string, p: Option<string>, modifier: string, args: nat -> int)
    requires (forall i :: 0 <= i < |flags| ==> IsFlag(flags[i])) && NumberText(w) && (w != "" ==> w[0] != '0')
    requires (p.Some? ==> NumberText(p.value)) && BitsAsked(modifier).Some?
    requires var point := if p.Some? then "." + p.value else ""; var m := |flags| + |w| + |point|;
      && Stands(f, 0, flags) && Stands(f, |flags|, w) && Stands(f, |flags| + |w|, point) && Stands(f, m, modifier)
      && m + |modifier| < |f| && Letter(f[m + |modifier|])
    ensures FlagsOf(f) == flags && WidthOf(f, args).value == Asked(w, args, 0)
    ensures var j := |flags| + |w|;
      PrecisionAt(f, args)
      == if p.Some? then Number(Max(Asked(p.value, args, Stars(w)), -1), j + 1 + |p.value|, Stars(w) + Stars(p.value))
         else Number(-1, j, Stars(w))
  {
    hide Value, FlagEnd, DigitEnd, FlagsOf, NumberAt, WidthOf, PrecisionAt, BitsAsked, NumberText, Letter;
    hide Stands, Asked, Stars, AllDigits, IsFlag, IsDigit;
    PartsBegin(f, flags, w, p, modifier);
    WidthMeans(f, |flags|, w, args);
    PrecisionMeans(f, |flags| + |w|, p, args, Stars(w));
  }

  lemma PartsBegin(f: string, flags: string, w: string, p: Option<string>, modifier: string)
    requires (forall i :: 0 <= i < |flags| ==> IsFlag(flags[i])) && NumberText(w) && (w != "" ==> w[0] != '0')
    requires BitsAsked(modifier).Some?
    requires var point := if p.Some? then "." + p.value else ""; var m := |flags| + |w| + |point|;
      && Stands(f, 0, flags) && Stands(f, |flags|, w) && Stands(f, |flags| + |w|, point) && Stands(f, m, modifier)
      && m + |modifier| < |f| && Letter(f[m + |modifier|])
    ensures var i, j := |flags|, |flags| + |w|;
      && FlagEnd(f, 0) == i && FlagsOf(f) == flags
      && !IsDigit(f[j]) && (w == "" ==> f[i] != '*')
      && (p == None ==> f[j] != '.')
      && (p.Some? ==>
            var n := j + 1 + |p.value|;
            f[j] == '.' && Stands(f, j + 1, p.value) && !IsDigit(f[n]) && (p.value == "" ==> f[n] != '*'))
  {
    hide Stands, BitsAsked, Letter, NumberText, FlagEnd, FlagsOf, IsFlag, IsDigit;
    PointBegins(f, |flags| + |w|, p, modifier);
    FlagsMean(f, flags, w);
  }

  lemma PointBegins(f: string, j: nat, p: Option<string>, modifier: string)
    requires BitsAsked(modifier).Some?
    requires var point := if p.Some? then "." + p.value else ""; var m := j + |point|;
      Stands(f, j, point) && Stands(f, m, modifier) && m + |modifier| < |f| && Letter(f[m + |modifier|])
    ensures !IsFlag(f[j]) && !IsDigit(f[j]) && f[j] != '*'
    ensures p == None ==> f[j] != '.'
    ensures p.Some? ==>
      var n := j + 1 + |p.value|;
      f[j] == '.' && Stands(f, j + 1, p.value) && !IsDigit(f[n]) && (p.value == "" ==> f[n] != '*')
  {
    if p.Some? {
      TailBegins(f, j + |"." + p.value|, modifier);
      PointStands(f, j, p);
    } else {
      TailBegins(f, j, modifier);
    }
  }

  lemma WidthMeans(f: string, i: nat, w: string, args: nat -> int)
    requires i == FlagEnd(f, 0) && NumberText(w) && Stands(f, i, w)
    requires i + |w| < |f| && !IsDigit(f[i + |w|]) && (w == "" ==> f[i] != '*')
    ensures WidthOf(f, args) == Number(Asked(w, args, 0), i + |w|, Stars(w))
  {
    hide NumberAt;
    NumberMeans(f, i, w, args, 0);
  }

  lemma PrecisionMeans(f: string, j: nat, p: Option<string>, args: nat -> int, k: nat)
    requires WidthOf(f, args).end == j && WidthOf(f, args).used == k && j < |f|
    requires p == None ==> f[j] != '.'
    requires p.Some? ==>
      var t := p.value; var n := j + 1 + |t|;
      f[j] == '.' && NumberText(t) && Stands(f, j + 1, t) && n < |f| && !IsDigit(f[n]) && (t == "" ==> f[n] != '*')
    ensures PrecisionAt(f, args)
         == if p.Some? then Number(Max(Asked(p.value, args, k), -1), j + 1 + |p.value|, k + Stars(p.value))
            else Number(-1, j, k)
  {
    if p.Some? {
      hide NumberAt, WidthOf;
      NumberMeans(f, j + 1, p.value, args, k);
    }
  }

  lemma SpecIs(f: string, flags: string, args: nat -> int)
    requires FlagsOf(f) == flags
    ensures var s := SpecOf(f, args); var p := PrecisionAt(f, args);
      && s.c == Wanted(flags, WidthOf(f, args).value, p.value)
      && (s.size, s.end) == SizeOf(f, p.end) && s.used == p.used
  {
    hide FlagsOf, WidthOf, SizeOf, NumberAt;
  }

  lemma PointStands(f: string, j: nat, p: Option<string>)
    requires p.Some? ==> Stands(f, j, "." + p.value)
    ensures p.Some? ==> j < |f| && f[j] == '.' && Stands(f, j + 1, p.value)
  {
    if p.Some? {
      var point := "." + p.value;
      assert f[j..j + |point|][0] == f[j] && f[j..j + |point|][1..] == f[j + 1..j + |point|];
    }
  }

  lemma Positions(a: string, b: string, c: string, d: string, e: string)
    requires e != ""
    ensures var f := a + b + c + d + e;
      && Stands(f, 0, a) && Stands(f, |a|, b) && Stands(f, |a| + |b|, c) && Stands(f, |a| + |b| + |c|, d)
      && |a| + |b| + |c| + |d| < |f| && f[|a| + |b| + |c| + |d|] == e[0]
  {
  }

  lemma TailBegins(f: string, i: nat, modifier: string)
    requires BitsAsked(modifier).Some? && Stands(f, i, modifier) && i + |modifier| < |f| && Letter(f[i + |modifier|])
    ensures !IsFlag(f[i]) && !IsDigit(f[i]) && f[i] != '*' && f[i] != '.'
  {
    var m := f[i..i + |modifier|];
    assert m != "" ==> m[0] == f[i];
  }

  lemma FlagsMean(f: string, flags: string, w: string)
    requires (forall i :: 0 <= i < |flags| ==> IsFlag(flags[i])) && NumberText(w) && (w != "" ==> w[0] != '0')
    requires Stands(f, 0, flags) && Stands(f, |flags|, w) && |flags| + |w| < |f| && !IsFlag(f[|flags| + |w|])
    ensures FlagEnd(f, 0) == |flags| && FlagsOf(f) == flags && (w == "" ==> f[|flags|] == f[|flags| + |w|])
  {
    var n := |flags|;
    forall k | 0 <= k < n ensures IsFlag(f[k]) {
      assert f[k] == f[0..n][k];
    }
    assert w != "" ==> f[n..n + |w|][0] == f[n];
    FlagEndIs(f, 0, n);
  }

  lemma {:induction false} NumeralNonNegative(f: string, i: nat, j: nat)
    requires i <= |f| && i <= j <= DigitEnd(f, i)
    ensures j <= |f| && Value(f[i..j], 10) >= 0
    decreases j - i
  {
    if i < j {
      NumeralNonNegative(f, i, j - 1);
      InDigits(f, i, j - 1);
      assert f[i..j][..|f[i..j]| - 1] == f[i..j - 1];
    }
  }

  lemma {:induction false} InDigits(f: string, i: nat, j: nat)
    requires i <= |f| && i <= j < DigitEnd(f, i)
    ensures IsDigit(f[j])
    decreases j - i
  {
    if i < j {
      InDigits(f, i + 1, j);
    }
  }

  /** The formats that pad twice: a 0 flag, no - flag, and a negative field width taken from the
      arguments, with no precision. */
  predicate PadsTwice(f: string, args: nat -> int) {
    '0' in FlagsOf(f) && '-' !in FlagsOf(f) && At(f, FlagEnd(f, 0)) == '*' && args(0) < 0 && PrecisionOf(f, args) < 0
  }

  /** A conversion fills its field exactly, unless its format is one of those that pad twice and there is
      something to pad. */
  lemma FieldWidth(f: string, args: nat -> int, v: nat, isSigned: bool, negative: bool, b: Base)
    requires Known(b)
    ensures var c := Parsed(f, args);
      |Render(c, v, isSigned, negative, b)| == Max(c.width, Natural(c, v, isSigned, negative, b))
      <==> !(PadsTwice(f, args) && Natural(c, v, isSigned, negative, b) < c.width)
  {
    RenderWidth(Parsed(f, args), v, isSigned, negative, b);
    NumeralNonNegative(f, FlagEnd(f, 0), DigitEnd(f, FlagEnd(f, 0)));
    hide Render, Natural, FlagsOf, PrecisionOf, DigitEnd, Value;
  }

  /** %0*d of 7 with the field width -5 prints nine characters. */
  lemma PadsTwiceExample()
    ensures Parsed("0*d", _ => -5) == Conversion(true, false, false, false, true, false, 5, -1)
    ensures Render(Parsed("0*d", _ => -5), 7, true, false, BASE_D) == "00007    "
  {
    var f := "0*d";
    assert FlagEnd(f, 1) == 1 && FlagEnd(f, 0) == 1;
    assert FlagsOf(f) == "0";
    RenderSeven();
  }

  lemma RenderSeven()
    ensures Render(Conversion(true, false, false, false, true, false, 5, -1), 7, true, false, BASE_D) == "00007    "
  {
    var c := Conversion(true, false, false, false, true, false, 5, -1);
    assert Digits(7, BASE_D, false, 0) == "7" by {
      assert Digits(0, BASE_D, false, 1) == "";
    }
    assert Padded(c, 7, BASE_D) == "7" by {
      assert Dup('0', 0) == "";
    }
    assert Dup('0', 4) == "0000" && Dup(' ', 4) == "    " && Dup(' ', 0) == "";
  }

  // ----- vsnprintf() -----

  /** vsnprintf() with its helper called for each character of the output: the buffer gets the first
      bufSize - 1 of them and a null, the result counts them all. */
  method Vsnprintf(buffer: array<char>, bufSize: nat, output: string) returns (length: nat)
    requires bufSize <= buffer.Length
    modifies buffer
    ensures length == |output|
    ensures bufSize == 0 ==> buffer[..] == old(buffer[..])
    ensures bufSize > 0 ==>
      var n := Min(|output|, bufSize - 1);
      buffer[..n] == output[..n] && buffer[n] == '\0' && buffer[n + 1..] == old(buffer[n + 1..])
  {
    var p, maxLength := 0, if bufSize > 0 then bufSize - 1 else 0;
    length := 0;
    while length < |output|
      invariant 0 <= length <= |output| && p == Min(length, maxLength)
      invariant buffer[..p] == output[..p] && buffer[p..] == old(buffer[p..])
    {
      var ch := output[length];
      length := length + 1;
      if length - 1 < maxLength {
        buffer[p] := ch;
        p := p + 1;
      }
    }
    if bufSize > 0 {
      buffer[p] := '\0';
    }
  }
}
