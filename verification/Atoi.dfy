/** atoi() of stdlib.c, and atoi() after printf("%d"). */
module Atoi {
  import opened Common
  import opened Format

  predicate IsSpace(ch: char) {
    ch == ' ' || ch == '\n' || ch == '\r' || ch == '\t' || ch as int == 11 || ch as int == 12
  }

  function SpaceEnd(s: string, i: nat): (r: nat)
    requires i <= |s|
    ensures i <= r <= |s|
    decreases |s| - i
  {
    if i < |s| && IsSpace(s[i]) then SpaceEnd(s, i + 1) else i
  }

  /** Where the digits begin. */
  function Start(s: string): (r: nat)
    ensures r <= |s|
  {
    var i := SpaceEnd(s, 0);
    if At(s, i) == '+' || At(s, i) == '-' then i + 1 else i
  }

  /** The number that s denotes: blanks, a sign and the digits up to the first other character. */
  function Denotes(s: string): int {
    var magnitude := Value(s[Start(s)..DigitEnd(s, Start(s))], 10);
    if At(s, SpaceEnd(s, 0)) == '-' then -magnitude else magnitude
  }

  lemma {:induction false} Grows(s: string, i: nat, j: nat, k: nat)
    requires i <= |s| && i <= j <= k <= DigitEnd(s, i)
    ensures 0 <= Value(s[i..j], 10) <= Value(s[i..k], 10)
    decreases k - j
  {
    NumeralNonNegative(s, i, j);
    if j < k {
      Grows(s, i, j, k - 1);
      InDigits(s, i, k - 1);
      ValueSnoc(s[i..k - 1], s[k - 1], 10);
      assert s[i..k] == s[i..k - 1] + [s[k - 1]];
    }
  }

  /** A digit more: the number grows, up to the number that all digits denote. */
  lemma NextDigit(s: string, i: nat, j: nat)
    requires i <= j < |s| && IsDigit(s[j]) && DigitEnd(s, i) == DigitEnd(s, j)
    ensures DigitEnd(s, j + 1) == DigitEnd(s, i)
    ensures Value(s[i..j + 1], 10) == 10 * Value(s[i..j], 10) + (s[j] as int - '0' as int)
    ensures 0 <= Value(s[i..j + 1], 10) <= Value(s[i..DigitEnd(s, i)], 10)
  {
    hide Value;
    ValueSnoc(s[i..j], s[j], 10);
    assert s[i..j + 1] == s[i..j] + [s[j]];
    Grows(s, i, j + 1, DigitEnd(s, i));
  }

  lemma NoDigit(s: string, j: nat)
    requires j <= |s| && !(j < |s| && IsDigit(s[j]))
    ensures DigitEnd(s, j) == j
  {
  }

  /** The digit loop, on negative numbers; None is an overflow of the int. */
  method ReadDigits(s: string, i: nat) returns (r: Option<int>)
    requires i <= |s|
    ensures var v := Value(s[i..DigitEnd(s, i)], 10);
      v >= 0 && r == if InInt(-v) then Some(-v) else None
  {
    var value, j := 0, i;
    Grows(s, i, i, DigitEnd(s, i));
    assert Value(s[i..i], 10) == 0;
    hide Value, DigitEnd;
    while j < |s| && IsDigit(s[j])
      invariant i <= j <= |s| && DigitEnd(s, i) == DigitEnd(s, j) && value == -Value(s[i..j], 10)
      invariant InInt(value)
      decreases |s| - j
    {
      NextDigit(s, i, j);
      value := value * 10 - (s[j] as int - '0' as int);
      j := j + 1;
      if !InInt(value) {
        return None;
      }
    }
    NoDigit(s, j);
    r := Some(value);
  }

  /** atoi(): no arithmetic overflows exactly if the number denoted is an int, and that is the result. */
  method ParseInt(s: string) returns (r: Option<int>)
    ensures r == if InInt(Denotes(s)) then Some(Denotes(s)) else None
  {
    var i := 0;
    while i < |s| && IsSpace(s[i])
      invariant i <= |s| && SpaceEnd(s, 0) == SpaceEnd(s, i)
      decreases |s| - i
    {
      i := i + 1;
    }
    var negative := false;
    if At(s, i) == '+' {
      i := i + 1;
    } else if At(s, i) == '-' {
      negative := true;
      i := i + 1;
    }
    hide Value, DigitEnd;
    r := ReadDigits(s, i);
    if r.Some? && !negative {
      r := if InInt(-r.value) then Some(-r.value) else None;
    }
  }

  // ----- round trip -----

  lemma {:induction false} SpaceEndIs(s: string, i: nat, n: nat)
    requires i <= n <= |s| && (forall k :: i <= k < n ==> IsSpace(s[k])) && (n < |s| ==> !IsSpace(s[n]))
    ensures SpaceEnd(s, i) == n
    decreases n - i
  {
    if i < n {
      SpaceEndIs(s, i + 1, n);
    }
  }

  predicate Blank(s: string) {
    forall i :: 0 <= i < |s| ==> s[i] == ' '
  }

  /** Blanks, a sign, digits and what follows them. */
  lemma Scan(spaces: nat, sign: string, digits: string, rest: string)
    requires sign == "" || sign == "+" || sign == "-"
    requires AllDigits(digits) && (rest != "" ==> !IsDigit(rest[0]))
    requires digits == "" && sign == "" ==> Blank(rest)
    ensures Denotes(Dup(' ', spaces) + sign + digits + rest) == Value(digits, 10) * if sign == "-" then -1 else 1
  {
    if digits == "" && sign == "" {
      var s := Dup(' ', spaces) + sign + digits + rest;
      SpaceEndIs(s, 0, |s|);
    } else {
      var front := Dup(' ', spaces);
      assert |front| == spaces && forall k :: 0 <= k < spaces ==> IsSpace(front[k]);
      hide Dup, Denotes, Value;
      ScanFrom(front, sign, digits, rest);
    }
  }

  lemma ScanFrom(front: string, sign: string, digits: string, rest: string)
    requires sign == "" || sign == "+" || sign == "-"
    requires AllDigits(digits) && (rest != "" ==> !IsDigit(rest[0]))
    requires (digits != "" || sign != "") && forall k :: 0 <= k < |front| ==> IsSpace(front[k])
    ensures Denotes(front + sign + digits + rest) == Value(digits, 10) * if sign == "-" then -1 else 1
  {
    hide Value, SpaceEnd, DigitEnd;
    var s, spaces := front + sign + digits + rest, |front|;
    assert forall k :: 0 <= k < spaces ==> s[k] == front[k];
    assert s[spaces] == if sign == "" then digits[0] else sign[0];
    SpaceEndIs(s, 0, spaces);
    var start := spaces + |sign|;
    assert Start(s) == start;
    assert forall k :: start <= k < start + |digits| ==> s[k] == digits[k - start];
    DigitEndIs(s, start, start + |digits|);
    assert s[start..start + |digits|] == digits;
  }

  /** The number denoted is found behind blanks, tabs and line, page and carriage breaks, a sign if there is one, and
      before anything that is no digit. */
  lemma DenotesMeans(blanks: string, sign: string, digits: string, rest: string)
    requires forall i :: 0 <= i < |blanks| ==> blanks[i] == ' ' || 9 <= blanks[i] as int <= 13
    requires sign == "" || sign == "+" || sign == "-"
    requires (forall i :: 0 <= i < |digits| ==> '0' <= digits[i] <= '9') && digits != ""
    requires rest != "" ==> !('0' <= rest[0] <= '9')
    ensures Denotes(blanks + sign + digits + rest) == if sign == "-" then -Value(digits, 10) else Value(digits, 10)
  {
    hide Denotes, Value;
    forall k | 0 <= k < |blanks| ensures IsSpace(blanks[k]) {
      SpaceIs(blanks[k]);
    }
    hide IsSpace;
    ScanFrom(blanks, sign, digits, rest);
    Signed(Value(digits, 10), sign == "-");
  }

  lemma SpaceIs(ch: char)
    ensures IsSpace(ch) <==> ch == ' ' || 9 <= ch as int <= 13
  {
  }

  lemma Signed(v: int, negative: bool)
    ensures v * (if negative then -1 else 1) == if negative then -v else v
  {
  }

  /** The digits in front of the first comma. */
  function Lead(s: string): (r: string)
    ensures |r| <= |s| && s[..|r|] == r && (|r| < |s| ==> s[|r|] == ',') && forall i :: 0 <= i < |r| ==> r[i] != ','
  {
    if s == "" || s[0] == ',' then "" else [s[0]] + Lead(s[1..])
  }

  lemma {:induction false} LeadAppend(s: string, t: string)
    ensures Lead(s + t) == if ',' in s then Lead(s) else s + Lead(t)
  {
    if s == "" {
      assert s + t == t;
    } else {
      assert (s + t)[1..] == s[1..] + t && s == [s[0]] + s[1..];
      LeadAppend(s[1..], t);
    }
  }

  /** The last digit of v. */
  function LastDigit(v: nat): (r: char)
    ensures IsDigit(r)
  {
    BASE_D.digits[v % 10]
  }

  lemma DigitsSnoc(v: nat, group: bool, k: nat)
    requires v > 0
    ensures Digits(v, BASE_D, group, k)
         == Digits(v / 10, BASE_D, group, k + 1) + ([LastDigit(v)] + Comma(BASE_D, group, k))
  {
  }

  lemma {:induction false} DigitChars(v: nat, group: bool, k: nat)
    ensures forall ch :: ch in Digits(v, BASE_D, group, k) ==> IsDigit(ch) || (group && ch == ',')
  {
    if v > 0 {
      DigitChars(v / 10, group, k + 1);
      DigitsSnoc(v, group, k);
      hide Digits, LastDigit;
    }
  }

  /** Up to a comma, no more than the value is read. */
  lemma {:induction false} LeadAtMost(v: nat, k: nat)
    requires ',' in Digits(v, BASE_D, true, k)
    ensures Value(Lead(Digits(v, BASE_D, true, k)), 10) <= if k == 0 then v / 10 else v
  {
    assert v > 0;
    hide Digits, LastDigit, Value, Lead, Comma;
    DigitsSnoc(v, true, k);
    var front, last := Digits(v / 10, BASE_D, true, k + 1), [LastDigit(v)];
    LeadAppend(front, last + Comma(BASE_D, true, k));
    OnlyComma(k);
    if ',' in front {
      LeadAtMost(v / 10, k + 1);
    } else {
      LeadLast(v, k, front, last);
    }
  }

  lemma OnlyComma(k: nat)
    ensures ',' in Comma(BASE_D, true, k) ==> Comma(BASE_D, true, k) == "," && k > 0
  {
  }

  lemma LeadLast(v: nat, k: nat, front: string, last: string)
    requires v > 0 && ',' !in front && |last| == 1 && IsDigit(last[0]) && k > 0
    requires Digits(v, BASE_D, true, k) == front + (last + ",")
    ensures Value(Lead(front + (last + ",")), 10) == v
  {
    DigitsDenote(v, BASE_D, true, k);
    hide Digits, Value;
    LeadAppend(front + last, ",");
    assert front + (last + ",") == front + last + ",";
    ValueSnoc(front + last, ',', 10);
  }

  /** Commas appear from the fourth digit on. */
  lemma CommaIff(v: nat)
    ensures ',' in Digits(v, BASE_D, true, 0) <==> v >= 1000
  {
    CommaFrom(v, 0);
    CommaFrom(v / 10, 1);
    CommaFrom(v / 10 / 10, 2);
    CommaThird(v / 10 / 10 / 10);
    assert v / 10 / 10 / 10 == v / 1000;
  }

  lemma CommaFrom(v: nat, k: nat)
    requires k < 3
    ensures ',' in Digits(v, BASE_D, true, k) <==> ',' in Digits(v / 10, BASE_D, true, k + 1)
  {
    if v > 0 {
      var front := Digits(v / 10, BASE_D, true, k + 1);
      assert Digits(v, BASE_D, true, k) == front + [BASE_D.digits[v % 10]];
      assert front <= Digits(v, BASE_D, true, k);
    }
  }

  lemma CommaThird(v: nat)
    ensures ',' in Digits(v, BASE_D, true, 3) <==> v > 0
  {
    if v > 0 {
      var d := Digits(v, BASE_D, true, 3);
      assert d[|d| - 1] == ',';
    }
  }

  lemma {:induction false} StartsWithDigit(v: nat, group: bool, k: nat)
    requires v > 0
    ensures Digits(v, BASE_D, group, k) != "" && IsDigit(Digits(v, BASE_D, group, k)[0])
  {
    DigitsSnoc(v, group, k);
    if v >= 10 {
      StartsWithDigit(v / 10, group, k + 1);
      hide Digits;
    }
  }

  lemma ReadsDigits(group: bool, v: nat)
    ensures var n := Lead(Digits(v, BASE_D, group, 0));
      (Value(n, 10) == v <==> !group || v < 1000) && 0 <= Value(n, 10) <= v
  {
    var digits := Digits(v, BASE_D, group, 0);
    DigitChars(v, group, 0);
    DigitsDenote(v, BASE_D, group, 0);
    hide Digits, Value;
    LeadAppend(digits, "");
    assert digits + "" == digits;
    assert Lead("") == "";
    forall i | 0 <= i < |Lead(digits)| ensures IsDigit(Lead(digits)[i]) {
      assert Lead(digits)[i] == digits[i] && digits[i] in digits;
    }
    NonNegative(Lead(digits));
    if group {
      CommaIff(v);
      if v >= 1000 {
        LeadAtMost(v, 0);
      }
    }
  }

  lemma LeadZeros(n: int, s: string)
    ensures Lead(Dup('0', n) + s) == Dup('0', n) + Lead(s)
    ensures Value(Lead(Dup('0', n) + s), 10) == Value(Lead(s), 10)
    ensures AllDigits(Lead(s)) ==> AllDigits(Lead(Dup('0', n) + s))
  {
    LeadAppend(Dup('0', n), s);
    LeadingZeros(n, Lead(s), 10);
  }

  lemma NothingToRead(c: Conversion, v: nat, zeros: int)
    ensures var n := Dup('0', zeros) + Body(c, v, BASE_D); Lead(n) == "" ==> n == ""
  {
    if v > 0 {
      StartsWithDigit(v, c.group, 0);
    }
    hide Digits;
    var digits := Digits(v, BASE_D, c.group, 0);
    var more := Min(if c.precision < 0 then 1 else c.precision, 63) - |digits|;
    assert Body(c, v, BASE_D) == Dup('0', more) + digits;
    LeadZeros(more, digits);
    LeadZeros(zeros, Dup('0', more) + digits);
    assert v == 0 ==> digits == "" by { assert Digits(0, BASE_D, c.group, 0) == ""; }
  }

  /** What atoi() reads of the digits of a conversion. */
  lemma ReadsBody(c: Conversion, v: nat, zeros: int)
    ensures var n := Dup('0', zeros) + Body(c, v, BASE_D);
      AllDigits(Lead(n)) && (Value(Lead(n), 10) == v <==> !c.group || v < 1000) && 0 <= Value(Lead(n), 10) <= v
  {
    hide Digits, Value, Dup, Lead, Body;
    DigitChars(v, c.group, 0);
    ReadsDigits(c.group, v);
    var digits := Digits(v, BASE_D, c.group, 0);
    var more := Min(if c.precision < 0 then 1 else c.precision, 63) - |digits|;
    LeadDigits(digits);
    DecimalBody(c, v);
    LeadZeros(more, digits);
    LeadZeros(zeros, Dup('0', more) + digits);
  }

  lemma DecimalBody(c: Conversion, v: nat)
    ensures var digits := Digits(v, BASE_D, c.group, 0);
      Body(c, v, BASE_D) == Dup('0', Min(if c.precision < 0 then 1 else c.precision, 63) - |digits|) + digits
  {
  }

  lemma LeadDigits(digits: string)
    requires forall ch :: ch in digits ==> IsDigit(ch) || ch == ','
    ensures AllDigits(Lead(digits))
  {
    forall i | 0 <= i < |Lead(digits)| ensures IsDigit(Lead(digits)[i]) {
      assert Lead(digits)[i] == digits[i] && digits[i] in digits;
    }
  }

  lemma {:induction false} NonNegative(s: string)
    requires forall i :: 0 <= i < |s| ==> IsDigit(s[i])
    ensures Value(s, 10) >= 0
  {
    if s != "" {
      NonNegative(s[..|s| - 1]);
    }
  }

  /** A sign that is a blank is one more blank in front. */
  lemma ScanBlank(spaces: nat, sign: string, digits: string, rest: string)
    requires sign == "" || sign == "+" || sign == "-" || sign == " "
    requires AllDigits(digits) && (rest != "" ==> !IsDigit(rest[0]))
    requires digits == "" ==> Blank(rest)
    ensures Denotes(Dup(' ', spaces) + sign + digits + rest) == Value(digits, 10) * if sign == "-" then -1 else 1
  {
    hide Dup, Denotes, Value, AllDigits, Blank, IsDigit;
    if sign == " " {
      OneMoreBlank(spaces);
      Scan(spaces + 1, "", digits, rest);
    } else {
      Scan(spaces, sign, digits, rest);
    }
  }

  lemma OneMoreBlank(spaces: nat)
    ensures Dup(' ', spaces) + " " == Dup(' ', spaces + 1) + ""
  {
  }

  lemma ScanLayout(c: Conversion, pad: nat, sign: string, body: string)
    requires sign == "" || sign == "+" || sign == "-" || sign == " "
    requires var n := Dup('0', if c.zero then pad else 0) + body;
      AllDigits(Lead(n)) && (Lead(n) == "" ==> n == "")
    ensures var n := Dup('0', if c.zero then pad else 0) + body;
      Denotes(Layout(c, pad, sign, "", body)) == Value(Lead(n), 10) * if sign == "-" then -1 else 1
  {
    var n := Dup('0', if c.zero then pad else 0) + body;
    var tail := Dup(' ', if c.minus then pad else 0);
    BlankTail(if c.minus then pad else 0);
    LayoutIs(c, pad, sign, body);
    hide Layout, Value, Denotes, Dup, AllDigits;
    RestOf(n, tail);
    var front := if c.minus || c.zero then 0 else pad;
    assert n == Lead(n) + n[|Lead(n)|..];
    hide Lead;
    Resplit(Dup(' ', front) + sign, Lead(n), n[|Lead(n)|..], tail);
    ScanBlank(front, sign, Lead(n), n[|Lead(n)|..] + tail);
  }

  lemma Resplit(front: string, lead: string, rest: string, tail: string)
    ensures front + (lead + rest) + tail == front + lead + (rest + tail)
  {
  }

  lemma RestOf(n: string, tail: string)
    requires Blank(tail)
    ensures var rest := n[|Lead(n)|..] + tail;
      (rest != "" ==> !IsDigit(rest[0])) && (n == "" ==> rest == tail)
  {
  }

  lemma BlankTail(n: nat)
    ensures Blank(Dup(' ', n))
  {
  }

  lemma LayoutIs(c: Conversion, pad: nat, sign: string, body: string)
    ensures Layout(c, pad, sign, "", body)
         == (Dup(' ', if c.minus || c.zero then 0 else pad) + sign) + (Dup('0', if c.zero then pad else 0) + body)
            + Dup(' ', if c.minus then pad else 0)
  {
    hide Dup;
  }

  /** atoi() of what %d prints, whatever the flags, the width and the precision: an int gives itself
      back, exactly if no commas are printed. */
  lemma RoundTrip(v: int, c: Conversion)
    requires InInt(v)
    ensures var s := Render(c, Abs(v), true, v < 0, BASE_D);
      InInt(Denotes(s)) && (Denotes(s) == v <==> !c.group || -1000 < v < 1000)
  {
    hide Body, Dup, Lead, Value, Denotes, Layout, Natural, AllDigits;
    var n := Abs(v);
    var sign := Sign(c, true, v < 0);
    var body := Body(c, n, BASE_D);
    var pad := Max(c.width - Natural(c, n, true, v < 0, BASE_D), 0);
    assert Prefix(c, n, BASE_D) == "";
    hide Known, Prefix;
    ReadsBody(c, n, if c.zero then pad else 0);
    NothingToRead(c, n, if c.zero then pad else 0);
    ScanLayout(c, pad, sign, body);
  }
}
