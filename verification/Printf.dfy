/** Formatted output, lib/stdio.c. */
module Printf {
  /*
   The loop of __vprintf() over a format string, with its integer, character, string and pointer
   conversions. An argument is a number: args(k) is the k-th, and mem(p) the string at address p, of
   which 0 is the null pointer. The result None stands for a format that ends within a conversion, which
   the code would read past, and for %f.
   */

  import opened Common
  import opened Format
  import Atoi
  import Division

  // ---------------------------------------------------------------- arguments

  /** The unsigned number of the given width in bits that v wraps to, and the signed one. */
  function Unsigned(v: int, bits: nat): nat {
    v % Pow2(bits)
  }

  function Signed(v: int, bits: nat): int
    requires bits > 0
  {
    var u := Unsigned(v, bits);
    if u < Pow2(bits - 1) then u else u - Pow2(bits)
  }

  lemma Pow2Bounds(n: nat)
    requires 0 < n <= 64
    ensures 2 * Pow2(n - 1) == Pow2(n) <= 0x1_0000_0000_0000_0000
  {
    Pow2Max(n, 64);
    Division.Pow2Values();
  }

  lemma {:induction false} Pow2Max(n: nat, m: nat)
    requires n <= m
    ensures Pow2(n) <= Pow2(m)
    decreases m
  {
    if n < m {
      Pow2Max(n, m - 1);
    }
  }

  /** A signed argument within its type is taken as it is. */
  lemma SignedKeeps(v: int, bits: nat)
    requires bits > 0 && 0 <= v + Pow2(bits - 1) && v < Pow2(bits - 1)
    ensures Signed(v, bits) == v
  {
    var p := Pow2(bits);
    if v >= 0 {
      DivUnique(v, 0, p, v);
    } else {
      DivUnique(v + p, 0, p, v + p);
      assert v % p == (v + p) % p by { AddModulus(v, p); }
    }
  }

  lemma AddModulus(v: int, p: nat)
    requires p > 0
    ensures (v + p) % p == v % p
  {
    var q, r := v / p, v % p;
    assert v + p == (q + 1) * p + r by { assert v == q * p + r; }
    ModIs(v + p, q + 1, p, r);
  }

  lemma ModIs(k: int, q: int, p: nat, r: nat)
    requires r < p && k == q * p + r
    ensures k % p == r
  {
    var d := k / p;
    assert k == d * p + k % p;
    if d < q {
      assert (q - d) * p >= p by { MulLe(1, q - d, p); }
    } else if q < d {
      assert (d - q) * p >= p by { MulLe(1, d - q, p); }
    }
  }

  // ---------------------------------------------------------------- one conversion

  /** format_string(). */
  function Field(text: string, c: Conversion): string {
    var pad := Dup(' ', c.width - |text|);
    if c.minus then text + pad else pad + text
  }

  method FormatString(text: string, c: Conversion) returns (output: string)
    ensures output == Field(text, c)
  {
    hide Dup;
    output := "";
    assert Dup(' ', c.width - |text|) == "" || c.width > |text| by { DupLength(' ', c.width - |text|); }
    if c.width > |text| && !c.minus {
      output := OutputDup(' ', c.width - |text|, output);
    }
    output := output + text;
    if c.width > |text| && c.minus {
      output := OutputDup(' ', c.width - |text|, output);
    }
  }

  function CharOf(v: int): char {
    (v % 256) as char
  }

  /** The first characters of a string, as many as the precision allows if there is one. */
  function Cut(s: string, precision: int): string {
    if precision < 0 || |s| <= precision then s else s[..precision]
  }

  function BaseOf(letter: char): (b: Base)
    ensures Known(b)
  {
    match letter
    case 'o' => BASE_O
    case 'x' => BASE_LOWER_X
    case 'X' => BASE_UPPER_X
    case _ => BASE_D
  }

  predicate IsSigned(letter: char) {
    letter == 'd' || letter == 'i'
  }

  predicate IsUnsigned(letter: char) {
    letter == 'o' || letter == 'u' || letter == 'x' || letter == 'X'
  }

  predicate TakesArgument(letter: char) {
    IsSigned(letter) || IsUnsigned(letter) || letter == 'c' || letter == 's' || letter == 'p'
  }

  predicate Refused(letter: char) {
    letter == 'e' || letter == 'E' || letter == 'g' || letter == 'G' || letter == 'n'
  }

  /** What a conversion prints for its argument. */
  function Text(letter: char, s: Spec, v: int, mem: int -> string): string {
    if IsSigned(letter) then
      var x := Signed(v, BitsOf(s.size));
      Render(s.c, Abs(x), true, x < 0, BASE_D)
    else if IsUnsigned(letter) then Render(s.c, Unsigned(v, BitsOf(s.size)), false, false, BaseOf(letter))
    else if letter == 'c' then Field([CharOf(v)], s.c)
    else if letter == 's' then Field(Cut(if v == 0 then "(null)" else mem(v), s.c.precision), s.c)
    else if letter == 'p' then Render(OnlyPound(s.c), Unsigned(v, 32), false, false, BASE_LOWER_X)
    else if Refused(letter) then "<<no %" + [letter] + " in kernel>>"
    else "<<no %" + [letter] + " conversion>>"
  }

  function OnlyPound(c: Conversion): Conversion {
    Conversion(false, false, false, true, false, false, c.width, c.precision)
  }

  lemma ArgumentFits(v: int, bits: nat)
    requires 0 < bits <= 64
    ensures Unsigned(v, bits) < 0x1_0000_0000_0000_0000 && Abs(Signed(v, bits)) < 0x1_0000_0000_0000_0000
  {
    Pow2Bounds(bits);
  }

  /** The switch in __vprintf(). */
  method Convert(letter: char, s: Spec, v: int, mem: int -> string) returns (output: string)
    requires letter != 'f'
    ensures output == Text(letter, s, v, mem)
  {
    hide Render, Field, Unsigned, Signed;
    ArgumentFits(v, BitsOf(s.size));
    ArgumentFits(v, 32);
    if IsSigned(letter) {
      var x := Signed(v, BitsOf(s.size));
      output := FormatInteger(if x < 0 then -x else x, true, x < 0, BASE_D, s.c);
    } else if IsUnsigned(letter) {
      output := FormatInteger(Unsigned(v, BitsOf(s.size)), false, false, BaseOf(letter), s.c);
    } else if letter == 'c' {
      output := FormatString([CharOf(v)], s.c);
    } else if letter == 's' {
      output := FormatString(Cut(if v == 0 then "(null)" else mem(v), s.c.precision), s.c);
    } else if letter == 'p' {
      output := FormatInteger(Unsigned(v, 32), false, false, BASE_LOWER_X, OnlyPound(s.c));
    } else if Refused(letter) {
      output := "<<no %" + [letter] + " in kernel>>";
    } else {
      output := "<<no %" + [letter] + " conversion>>";
    }
  }

  // ---------------------------------------------------------------- the format string

  /** The arguments from the k-th on. */
  function Shift(args: nat -> int, k: nat): nat -> int {
    (j: nat) => args(k + j)
  }

  /** What the format string prints from position i on, with the arguments from the k-th on. */
  function Printed(f: string, i: nat, args: nat -> int, k: nat, mem: int -> string): Option<string>
    requires i <= |f|
    decreases |f| - i
  {
    if At(f, i) == '\0' then Some("")
    else if f[i] != '%' then Before([f[i]], Printed(f, i + 1, args, k, mem))
    else if At(f, i + 1) == '%' then Before("%", Printed(f, i + 2, args, k, mem))
    else
      var s := SpecOf(f[i + 1..], Shift(args, k));
      var j := i + 1 + s.end;
      if At(f, j) == '\0' || f[j] == 'f' then None
      else
        var next := k + s.used + if TakesArgument(f[j]) then 1 else 0;
        Before(Text(f[j], s, args(k + s.used), mem), Printed(f, j + 1, args, next, mem))
  }

  function Before(text: string, rest: Option<string>): Option<string> {
    if rest == None then None else Some(text + rest.value)
  }

  lemma BeforeBefore(a: string, b: string, rest: Option<string>)
    ensures Before(a, Before(b, rest)) == Before(a + b, rest)
  {
    if rest.Some? {
      assert a + (b + rest.value) == (a + b) + rest.value;
    }
  }

  /** __vprintf(). */
  method Vprintf(f: string, args: nat -> int, mem: int -> string) returns (r: Option<string>)
    ensures r == Printed(f, 0, args, 0, mem)
  {
    var output: string, i: nat, k: nat := "", 0, 0;
    ghost var whole := Printed(f, 0, args, 0, mem);
    BeforeNothing("", whole);
    while At(f, i) != '\0'
      invariant i <= |f| && whole == Before(output, Printed(f, i, args, k, mem))
      decreases |f| - i
    {
      ghost var rest := Printed(f, i, args, k, mem);
      var text;
      hide Text, SpecOf, Before, TakesArgument;
      if f[i] != '%' {
        text := [f[i]];
        i := i + 1;
      } else if At(f, i + 1) == '%' {
        text := "%";
        i := i + 2;
      } else {
        var s := ParseConversion(f[i + 1..], Shift(args, k));
        var j := i + 1 + s.end;
        if At(f, j) == '\0' || f[j] == 'f' {
          BeforeNone(output);
          return None;
        }
        text := Convert(f[j], s, args(k + s.used), mem);
        k := k + s.used + if TakesArgument(f[j]) then 1 else 0;
        i := j + 1;
      }
      assert rest == Before(text, Printed(f, i, args, k, mem));
      BeforeBefore(output, text, Printed(f, i, args, k, mem));
      output := output + text;
    }
    BeforeNothing(output, whole);
    r := Some(output);
  }

  lemma BeforeNone(a: string)
    ensures Before(a, None) == None
  {
  }

  lemma BeforeNothing(a: string, rest: Option<string>)
    ensures Before("", rest) == rest && Before(a, Some("")) == Some(a)
  {
    assert a + "" == a;
    assert rest.Some? ==> "" + rest.value == rest.value;
  }

  /** snprintf(): the buffer gets the first bufSize - 1 characters of what the format prints and a null, the
      result is the length of all of it. */
  method Snprintf(buffer: array<char>, bufSize: nat, f: string, args: nat -> int, mem: int -> string)
    returns (length: Option<nat>)
    requires bufSize <= buffer.Length
    modifies buffer
    ensures match Printed(f, 0, args, 0, mem)
      case None => length == None && buffer[..] == old(buffer[..])
      case Some(all) =>
        length == Some(|all|)
        && (bufSize == 0 ==> buffer[..] == old(buffer[..]))
        && (bufSize > 0 ==>
              var n := Min(|all|, bufSize - 1);
              buffer[..n] == all[..n] && buffer[n] == '\0' && buffer[n + 1..] == old(buffer[n + 1..]))
  {
    var all := Vprintf(f, args, mem);
    if all == None {
      return None;
    }
    var n := Vsnprintf(buffer, bufSize, all.value);
    length := Some(n);
  }

  // ---------------------------------------------------------------- what is printed

  /** Text without conversions is printed as it is. */
  lemma {:induction false} Literal(f: string, i: nat, args: nat -> int, k: nat, mem: int -> string)
    requires i <= |f| && forall j :: i <= j < |f| ==> f[j] != '%' && f[j] != '\0'
    ensures Printed(f, i, args, k, mem) == Some(f[i..])
    decreases |f| - i
  {
    if i < |f| {
      Literal(f, i + 1, args, k, mem);
      assert f[i..] == [f[i]] + f[i + 1..];
    }
  }

  /** The format is a single conversion of an int to signed decimal, with any flags, width and precision. */
  predicate IsDecimal(f: string, args: nat -> int) {
    && |f| >= 2 && f[0] == '%' && f[1] != '%'
    && var s := SpecOf(f[1..], Shift(args, 0));
       s.end + 2 == |f| && IsSigned(f[|f| - 1]) && s.size == IntSize
  }

  /** What any such conversion prints for an int is read back by atoi() as that int, if and only if no commas
      are printed. */
  lemma PrintThenRead(f: string, args: nat -> int, mem: int -> string)
    requires IsDecimal(f, args)
    ensures var s := SpecOf(f[1..], Shift(args, 0)); var v := args(s.used);
      InInt(v) ==>
        var all := Printed(f, 0, args, 0, mem);
        all.Some? && InInt(Atoi.Denotes(all.value))
        && (Atoi.Denotes(all.value) == v <==> !s.c.group || -1000 < v < 1000)
  {
    hide SpecOf, Render, Atoi.Denotes, Text, InInt;
    var s := SpecOf(f[1..], Shift(args, 0));
    var v := args(s.used);
    if InInt(v) {
      DecimalText(f[|f| - 1], s, v, mem);
      Atoi.RoundTrip(v, s.c);
      OneConversion(f, args, mem);
    }
  }

  lemma DecimalText(letter: char, s: Spec, v: int, mem: int -> string)
    requires InInt(v) && IsSigned(letter) && s.size == IntSize
    ensures Text(letter, s, v, mem) == Render(s.c, Abs(v), true, v < 0, BASE_D)
  {
    hide Render;
    IntKeeps(v);
  }

  lemma OneConversion(f: string, args: nat -> int, mem: int -> string)
    requires IsDecimal(f, args)
    ensures var s := SpecOf(f[1..], Shift(args, 0));
      Printed(f, 0, args, 0, mem) == Some(Text(f[|f| - 1], s, args(s.used), mem))
  {
    hide SpecOf, Text;
    var s := SpecOf(f[1..], Shift(args, 0));
    assert Printed(f, |f|, args, s.used + 1, mem) == Some("");
    BeforeNothing(Text(f[|f| - 1], s, args(s.used), mem), None);
  }

  lemma IntKeeps(v: int)
    requires InInt(v)
    ensures Signed(v, 32) == v
  {
    Division.Pow2Values();
    SignedKeeps(v, 32);
  }

  // ---------------------------------------------------------------- what the printed text means

  /** A text without the blanks around it. */
  function Trim(s: string): string {
    if s == "" then s
    else if s[0] == ' ' then Trim(s[1..])
    else if s[|s| - 1] == ' ' then Trim(s[..|s| - 1])
    else s
  }

  /** A text without 0x or 0X at its beginning. */
  function Bare(s: string): string {
    if |s| >= 2 && s[0] == '0' && (s[1] == 'x' || s[1] == 'X') then s[2..] else s
  }

  predicate Solid(s: string) {
    s != "" ==> s[0] != ' ' && s[|s| - 1] != ' '
  }

  lemma {:induction false} TrimBlanks(left: string, s: string, right: string)
    requires Solid(s) && Atoi.Blank(left) && Atoi.Blank(right)
    ensures Trim(left + s + right) == s
    decreases |left| + |right|
  {
    var all := left + s + right;
    if left != "" {
      assert all[0] == left[0];
      assert all[1..] == left[1..] + s + right;
      TrimBlanks(left[1..], s, right);
    } else if right != "" {
      var front := right[..|right| - 1];
      if s == "" {
        assert all == right + s + "" && all[0] == ' ';
        assert all[1..] == right[1..] + s + "";
        TrimBlanks(right[1..], s, "");
      } else {
        assert all[|all| - 1] == ' ' && all[0] == s[0];
        assert all[..|all| - 1] == left + s + front;
        TrimBlanks(left, s, front);
      }
    } else {
      assert all == s;
    }
  }

  /** The characters that a base writes numbers with. */
  predicate Plain(s: string, b: Base) {
    forall ch :: ch in s ==> ch in b.digits || ch == ','
  }

  lemma {:induction false} DigitsPlain(v: nat, b: Base, group: bool, k: nat)
    requires Known(b)
    ensures Plain(Digits(v, b, group, k), b)
  {
    if v > 0 {
      DigitsPlain(v / b.base, b, group, k + 1);
      hide Known;
    }
  }

  lemma BodyPlain(c: Conversion, v: nat, b: Base, zeros: int)
    requires Known(b)
    ensures Plain(Dup('0', zeros) + Body(c, v, b), b)
  {
    DigitsPlain(v, b, c.group, 0);
    assert b.digits[0] == '0';
    hide Known, Digits;
  }

  predicate LowerHex(ch: char) {
    '0' <= ch <= '9' || 'a' <= ch <= 'f' || ch == ','
  }

  predicate UpperHex(ch: char) {
    '0' <= ch <= '9' || 'A' <= ch <= 'F' || ch == ','
  }

  lemma PlainChar(ch: char, b: Base)
    requires Known(b) && ch in b.digits
    ensures if b == BASE_UPPER_X then UpperHex(ch) else LowerHex(ch)
    ensures b == BASE_D || b == BASE_O ==> '0' <= ch <= '9'
  {
    var i :| 0 <= i < |b.digits| && b.digits[i] == ch;
    assert i < 16;
  }

  /** Lower-case letters for x, upper-case ones for X, and no blanks, signs or x among the digits. */
  lemma PlainSolid(s: string, b: Base)
    requires Known(b) && Plain(s, b)
    ensures forall ch :: ch in s ==> if b == BASE_UPPER_X then UpperHex(ch) else LowerHex(ch)
    ensures Bare(s) == s && Solid(s)
  {
    forall ch | ch in s
      ensures if b == BASE_UPPER_X then UpperHex(ch) else LowerHex(ch)
    {
      if ch != ',' {
        PlainChar(ch, b);
      }
    }
    hide Known, Plain;
    assert |s| >= 2 ==> s[1] in s;
    assert |s| >= 1 ==> s[0] in s && s[|s| - 1] in s;
  }

  /** The zeros of the 0 flag and the digits. */
  function Figures(c: Conversion, v: nat, isSigned: bool, negative: bool, b: Base): string
    requires Known(b)
  {
    Dup('0', if c.zero then Max(c.width - Natural(c, v, isSigned, negative, b), 0) else 0) + Body(c, v, b)
  }

  lemma FiguresDenote(c: Conversion, v: nat, isSigned: bool, negative: bool, b: Base)
    requires Known(b)
    ensures var s := Figures(c, v, isSigned, negative, b);
      Value(s, b.base) == v && Plain(s, b) && (c.pound && b.base == 8 ==> s != "" && s[0] == '0')
  {
    var zeros := if c.zero then Max(c.width - Natural(c, v, isSigned, negative, b), 0) else 0;
    BodyDenotes(c, v, b);
    LeadingZeros(zeros, Body(c, v, b), b.base);
    BodyPlain(c, v, b, zeros);
    if c.pound && b.base == 8 {
      OctalBegins(c, v, b);
    }
    hide Body, Known, Natural, Value, Plain;
  }

  lemma OctalBegins(c: Conversion, v: nat, b: Base)
    requires Known(b) && c.pound && b.base == 8
    ensures Body(c, v, b) != "" && Body(c, v, b)[0] == '0'
  {
    hide Padded, Known;
  }

  function Blanks(c: Conversion, v: nat, isSigned: bool, negative: bool, b: Base, wanted: bool): string
    requires Known(b)
  {
    Dup(' ', if wanted then Max(c.width - Natural(c, v, isSigned, negative, b), 0) else 0)
  }

  lemma RenderParts(c: Conversion, v: nat, isSigned: bool, negative: bool, b: Base)
    requires Known(b)
    ensures Render(c, v, isSigned, negative, b)
         == Blanks(c, v, isSigned, negative, b, !c.minus && !c.zero) + Sign(c, isSigned, negative) + Prefix(c, v, b)
            + Figures(c, v, isSigned, negative, b) + Blanks(c, v, isSigned, negative, b, c.minus)
    ensures forall wanted :: Atoi.Blank(Blanks(c, v, isSigned, negative, b, wanted))
    ensures Blanks(c, v, isSigned, negative, b, false) == ""
  {
    hide Known, Natural, Sign, Prefix, Body;
  }

  /** The base that a letter asks for. */
  function Radix(letter: char): nat
    requires IsUnsigned(letter)
  {
    if letter == 'o' then 8 else if letter == 'u' then 10 else 16
  }

  /** The text of an unsigned conversion without its blanks and without 0x, read as a number of its base, is
      the argument. The # flag puts 0x or 0X in front of all figures of a hexadecimal number other than 0, and makes
      an octal number begin with 0. Blanks are on the left of the number only without the - and 0 flags, on its right
      only with the - flag. */
  lemma UnsignedReads(letter: char, s: Spec, v: int, mem: int -> string)
    requires IsUnsigned(letter)
    ensures var text := Text(letter, s, v, mem); var t := Trim(text); var u := Unsigned(v, BitsOf(s.size));
      && Value(Bare(t), Radix(letter)) == u
      && (if s.c.pound && u > 0 && Radix(letter) == 16 then |t| > 2 && t[0] == '0' && t[1] == letter else Bare(t) == t)
      && (s.c.pound && letter == 'o' ==> t != "" && t[0] == '0')
      && (forall ch :: ch in Bare(t) ==> if letter == 'X' then UpperHex(ch) else LowerHex(ch))
      && (t != "" && (s.c.minus || s.c.zero) ==> text[0] != ' ')
      && (t != "" && !s.c.minus ==> text[|text| - 1] != ' ')
  {
    hide Unsigned, Text;
    var u := Unsigned(v, BitsOf(s.size));
    assert Text(letter, s, v, mem) == Render(s.c, u, false, false, BaseOf(letter)) by { UnsignedText(letter, s, v, mem); }
    hide Render;
    RenderReads(s.c, u, BaseOf(letter));
  }

  lemma UnsignedText(letter: char, s: Spec, v: int, mem: int -> string)
    requires IsUnsigned(letter)
    ensures Text(letter, s, v, mem) == Render(s.c, Unsigned(v, BitsOf(s.size)), false, false, BaseOf(letter))
  {
    hide Render, Unsigned;
  }

  /** %p prints the address in hexadecimal, with 0x unless it is null. */
  lemma PointerReads(s: Spec, v: int, mem: int -> string)
    ensures var t := Trim(Text('p', s, v, mem)); var u := Unsigned(v, 32);
      Value(Bare(t), 16) == u && (u > 0 ==> |t| > 2 && t[..2] == "0x")
  {
    hide Unsigned, Render;
    assert Known(BASE_LOWER_X);
    var u := Unsigned(v, 32);
    assert Text('p', s, v, mem) == Render(OnlyPound(s.c), u, false, false, BASE_LOWER_X);
    RenderReads(OnlyPound(s.c), u, BASE_LOWER_X);
    hide Text;
    var t := Trim(Text('p', s, v, mem));
    assert |t| > 2 ==> t[..2] == [t[0], t[1]];
  }

  lemma RenderReads(c: Conversion, v: nat, b: Base)
    requires Known(b)
    ensures var text := Render(c, v, false, false, b); var t := Trim(text);
      && Value(Bare(t), b.base) == v
      && (if c.pound && v > 0 && b.x.Some? then |t| > 2 && t[0] == '0' && t[1] == b.x.value else Bare(t) == t)
      && (c.pound && b.base == 8 ==> t != "" && t[0] == '0')
      && (forall ch :: ch in Bare(t) ==> if b == BASE_UPPER_X then UpperHex(ch) else LowerHex(ch))
      && (t != "" && (c.minus || c.zero) ==> text[0] != ' ')
      && (t != "" && !c.minus ==> text[|text| - 1] != ' ')
  {
    var figures := Figures(c, v, false, false, b);
    FiguresDenote(c, v, false, false, b);
    PlainSolid(figures, b);
    Prefixed(c, v, b, figures);
    RenderTrims(c, v, b);
    hide Known, Render, Figures, Value, Prefix, Plain, Bare, Solid, Trim;
  }

  lemma RenderTrims(c: Conversion, v: nat, b: Base)
    requires Known(b) && Solid(Prefix(c, v, b) + Figures(c, v, false, false, b))
    ensures var text := Render(c, v, false, false, b); var t := Prefix(c, v, b) + Figures(c, v, false, false, b);
      && Trim(text) == t
      && (t != "" && (c.minus || c.zero) ==> text[0] != ' ')
      && (t != "" && !c.minus ==> text[|text| - 1] != ' ')
  {
    var t := Prefix(c, v, b) + Figures(c, v, false, false, b);
    var left, right := Blanks(c, v, false, false, b, !c.minus && !c.zero), Blanks(c, v, false, false, b, c.minus);
    RenderParts(c, v, false, false, b);
    assert Sign(c, false, false) == "";
    var prefix, figures, text := Prefix(c, v, b), Figures(c, v, false, false, b), Render(c, v, false, false, b);
    hide Known, Render, Figures, Blanks, Prefix, Sign, Solid, Trim;
    Regroup(left, prefix, figures, right);
    TrimBlanks(left, t, right);
    if t != "" {
      Sides(left, t, right);
    }
  }

  lemma Regroup(left: string, a: string, b: string, right: string)
    ensures left + "" + a + b + right == left + (a + b) + right
  {
  }

  lemma Sides(left: string, s: string, right: string)
    requires Solid(s) && s != ""
    ensures left == "" ==> (left + s + right)[0] != ' '
    ensures right == "" ==> (left + s + right)[|left + s + right| - 1] != ' '
  {
  }

  lemma Prefixed(c: Conversion, v: nat, b: Base, figures: string)
    requires Known(b) && Bare(figures) == figures && Solid(figures) && Value(figures, b.base) == v
    ensures var t := Prefix(c, v, b) + figures;
      && Solid(t) && Bare(t) == figures
      && (if c.pound && v > 0 && b.x.Some? then |t| > 2 && t[0] == '0' && t[1] == b.x.value else t == figures)
  {
    assert v > 0 ==> figures != "";
    hide Value;
  }

  lemma FiguresDecimal(c: Conversion, v: nat, negative: bool)
    ensures var figures := Figures(c, v, true, negative, BASE_D);
      Value(figures, 10) == v && forall ch :: ch in figures ==> '0' <= ch <= '9' || ch == ','
  {
    FiguresDenote(c, v, true, negative, BASE_D);
    var figures := Figures(c, v, true, negative, BASE_D);
    forall ch | ch in figures ensures '0' <= ch <= '9' || ch == ',' {
      if ch != ',' {
        PlainChar(ch, BASE_D);
      }
    }
  }

  /** A signed conversion, of any type: blanks unless there is a - or 0 flag, the sign, the figures of the absolute
      value, and blanks if there is a - flag. The sign of a negative number is -; another number has + with
      the + flag, or else a blank with the blank flag. */
  lemma SignedReads(letter: char, s: Spec, v: int, mem: int -> string) returns (left: string, figures: string, right: string)
    requires IsSigned(letter)
    ensures var x := Signed(v, BitsOf(s.size));
      && Text(letter, s, v, mem)
         == left + (if x < 0 then "-" else if s.c.plus then "+" else if s.c.space then " " else "") + figures + right
      && Value(figures, 10) == (if x < 0 then -x else x)
    ensures forall ch :: ch in figures ==> '0' <= ch <= '9' || ch == ','
    ensures Atoi.Blank(left) && Atoi.Blank(right)
    ensures (s.c.minus || s.c.zero ==> left == "") && (!s.c.minus ==> right == "")
  {
    hide Render, Signed, Value, Figures, Blanks, Atoi.Blank;
    var x := Signed(v, BitsOf(s.size));
    var a: nat := Abs(x);
    assert Text(letter, s, v, mem) == Render(s.c, a, true, x < 0, BASE_D);
    assert Known(BASE_D);
    RenderParts(s.c, a, true, x < 0, BASE_D);
    FiguresDecimal(s.c, a, x < 0);
    assert Prefix(s.c, a, BASE_D) == "";
    left, right := Blanks(s.c, a, true, x < 0, BASE_D, !s.c.minus && !s.c.zero), Blanks(s.c, a, true, x < 0, BASE_D, s.c.minus);
    figures := Figures(s.c, a, true, x < 0, BASE_D);
    hide Text, Known;
    NoPrefix(left, Sign(s.c, true, x < 0), figures, right);
  }

  lemma NoPrefix(left: string, sign: string, figures: string, right: string)
    ensures left + sign + "" + figures + right == left + sign + figures + right
  {
  }

  /** A string fills its field: it is on the right behind blanks, or with the - flag on the left before them;
      a precision cuts it to that many characters, and the null pointer is printed as such. */
  lemma StringReads(s: Spec, v: int, mem: int -> string) returns (left: string, shown: string, right: string)
    ensures Text('s', s, v, mem) == left + shown + right && Atoi.Blank(left) && Atoi.Blank(right)
    ensures (if s.c.minus then left else right) == ""
    ensures |left + shown + right| == Max(s.c.width, |shown|)
    ensures var all := if v == 0 then "(null)" else mem(v);
      shown <= all && |shown| == (if s.c.precision < 0 then |all| else Min(s.c.precision, |all|))
  {
    var all := if v == 0 then "(null)" else mem(v);
    shown := Cut(all, s.c.precision);
    var pad := Dup(' ', s.c.width - |shown|);
    DupLength(' ', s.c.width - |shown|);
    left, right := if s.c.minus then "" else pad, if s.c.minus then pad else "";
  }

  // ---------------------------------------------------------------- formats as they are written

  /** The pieces of a format string: a character, %%, or a conversion. */
  datatype Piece =
    | Char(ch: char)
    | Percent
    | Conv(flags: string, width: string, precision: Option<string>, modifier: string, letter: char)

  predicate Proper(p: Piece) {
    match p
    case Char(ch) => ch != '%' && ch != '\0'
    case Percent => true
    case Conv(flags, width, precision, modifier, letter) =>
      && (forall i :: 0 <= i < |flags| ==> IsFlag(flags[i]))
      && NumberText(width) && (width != "" ==> width[0] != '0')
      && (precision.Some? ==> NumberText(precision.value))
      && BitsAsked(modifier).Some? && Letter(letter) && letter != 'f'
  }

  predicate AllProper(pieces: seq<Piece>) {
    forall i :: 0 <= i < |pieces| ==> Proper(pieces[i])
  }

  function Point(precision: Option<string>): string {
    if precision.Some? then "." + precision.value else ""
  }

  /** What stands between the % and the letter. */
  function SpecText(p: Piece): string
    requires p.Conv?
  {
    p.flags + p.width + Point(p.precision) + p.modifier
  }

  function PieceText(p: Piece): string {
    match p
    case Char(ch) => [ch]
    case Percent => "%%"
    case Conv(_, _, _, _, letter) => "%" + SpecText(p) + [letter]
  }

  /** A format string. */
  function Written(pieces: seq<Piece>): string {
    if pieces == [] then "" else PieceText(pieces[0]) + Written(pieces[1..])
  }

  function SizeWith(bits: nat): Size {
    if bits == 8 then CharSize else if bits == 16 then ShortSize else if bits == 64 then IntmaxSize else IntSize
  }

  /** How many arguments a conversion takes for its width and precision. */
  function StarsOf(p: Piece): nat
    requires p.Conv?
  {
    Stars(p.width) + if p.precision.Some? then Stars(p.precision.value) else 0
  }

  /** How many arguments a piece takes. */
  function Taken(p: Piece): nat {
    if p.Conv? then StarsOf(p) + if p.letter in "diouxXcsp" then 1 else 0 else 0
  }

  /** What a conversion prints: its arguments are those of the stars, then the one converted. */
  function Meaning(p: Piece, args: nat -> int, mem: int -> string): string
    requires Proper(p) && p.Conv?
  {
    var precision := if p.precision.Some? then Asked(p.precision.value, args, Stars(p.width)) else -1;
    var s := Spec(Wanted(p.flags, Asked(p.width, args, 0), precision), SizeWith(BitsAsked(p.modifier).value), 0, 0);
    Text(p.letter, s, args(StarsOf(p)), mem)
  }

  function Shown(p: Piece, args: nat -> int, mem: int -> string): string
    requires Proper(p)
  {
    match p
    case Char(ch) => [ch]
    case Percent => "%"
    case Conv(_, _, _, _, _) => Meaning(p, args, mem)
  }

  /** What the pieces print, one after the other, with the arguments in turn. */
  function Output(pieces: seq<Piece>, args: nat -> int, k: nat, mem: int -> string): string
    requires AllProper(pieces)
  {
    if pieces == [] then "" else
      Shown(pieces[0], Shift(args, k), mem) + Output(pieces[1..], args, k + Taken(pieces[0]), mem)
  }

  lemma TextDepends(letter: char, s: Spec, s': Spec, v: int, mem: int -> string)
    requires s.c == s'.c && BitsOf(s.size) == BitsOf(s'.size)
    ensures Text(letter, s, v, mem) == Text(letter, s', v, mem)
  {
    hide Render, Unsigned, Signed, Field, BitsOf;
  }

  /** printf() prints what the pieces of its format mean. */
  lemma FormatMeans(pieces: seq<Piece>, args: nat -> int, mem: int -> string)
    requires AllProper(pieces)
    ensures Printed(Written(pieces), 0, args, 0, mem) == Some(Output(pieces, args, 0, mem))
  {
    PiecesMean(Written(pieces), 0, pieces, args, 0, mem);
  }

  lemma {:induction false} PiecesMean(f: string, i: nat, pieces: seq<Piece>, args: nat -> int, k: nat, mem: int -> string)
    requires AllProper(pieces) && i <= |f| && f[i..] == Written(pieces)
    ensures Printed(f, i, args, k, mem) == Some(Output(pieces, args, k, mem))
    decreases |pieces|
  {
    hide Proper, Printed, Shown, Taken, PieceText, Shift, Before, Output, Written, AllProper;
    if pieces == [] {
      NothingLeft(f, i, args, k, mem);
    } else {
      var p, rest := pieces[0], pieces[1..];
      WrittenFirst(pieces);
      Suffix(f, i, PieceText(p), Written(rest));
      OutputFirst(pieces, args, k, mem);
      PieceStep(f, i, p, Written(rest), args, k, mem);
      PiecesMean(f, i + |PieceText(p)|, rest, args, k + Taken(p), mem);
    }
  }

  lemma WrittenFirst(pieces: seq<Piece>)
    requires pieces != []
    ensures Written(pieces) == PieceText(pieces[0]) + Written(pieces[1..])
  {
  }

  lemma NothingLeft(f: string, i: nat, args: nat -> int, k: nat, mem: int -> string)
    requires i <= |f| && f[i..] == Written([])
    ensures Printed(f, i, args, k, mem) == Some(Output([], args, k, mem))
  {
    assert i == |f|;
  }

  lemma OutputFirst(pieces: seq<Piece>, args: nat -> int, k: nat, mem: int -> string)
    requires pieces != [] && AllProper(pieces)
    ensures Proper(pieces[0]) && AllProper(pieces[1..])
    ensures Some(Output(pieces, args, k, mem))
         == Before(Shown(pieces[0], Shift(args, k), mem), Some(Output(pieces[1..], args, k + Taken(pieces[0]), mem)))
  {
    hide Proper, Shown, Taken, Shift;
  }

  lemma Suffix(f: string, i: nat, text: string, tail: string)
    requires i <= |f| && f[i..] == text + tail
    ensures Holds(f, i, text, tail)
  {
    assert f[i + |text|..] == f[i..][|text|..];
    assert f[i..i + |text|] == f[i..][..|text|];
  }

  /** The text stands in f at position i, and tail is what follows it. */
  predicate Holds(f: string, i: nat, text: string, tail: string) {
    i + |text| <= |f| && f[i..i + |text|] == text && f[i + |text|..] == tail
  }

  lemma PieceStep(f: string, i: nat, p: Piece, tail: string, args: nat -> int, k: nat, mem: int -> string)
    requires Proper(p) && Holds(f, i, PieceText(p), tail)
    ensures i + |PieceText(p)| <= |f|
    ensures Printed(f, i, args, k, mem)
         == Before(Shown(p, Shift(args, k), mem), Printed(f, i + |PieceText(p)|, args, k + Taken(p), mem))
  {
    if p.Conv? {
      hide Proper, Holds, Printed, Before, Shift, SpecText, Meaning;
      ConvStep(f, i, p, tail, args, k, mem);
    } else {
      assert f[i] == f[i..i + |PieceText(p)|][0];
      assert p.Percent? ==> f[i + 1] == f[i..i + 2][1];
      hide Before;
    }
  }

  /** What follows the % of a conversion. */
  function Following(p: Piece, tail: string): string
    requires p.Conv?
  {
    SpecText(p) + ([p.letter] + tail)
  }

  lemma ConvStep(f: string, i: nat, p: Piece, tail: string, args: nat -> int, k: nat, mem: int -> string)
    requires Proper(p) && p.Conv? && Holds(f, i, PieceText(p), tail)
    ensures i + |PieceText(p)| <= |f|
    ensures Printed(f, i, args, k, mem)
         == Before(Meaning(p, Shift(args, k), mem), Printed(f, i + |PieceText(p)|, args, k + Taken(p), mem))
  {
    hide Proper, Meaning, SpecOf, Text, Printed, Before, PieceText, Holds, Following, Shift, TakesArgument;
    Behind(f, i, p, tail);
    ConvMeans(p, tail, Shift(args, k), mem);
    LettersWithArguments(p.letter);
    ConvPrints(f, i, i + |PieceText(p)| - 1, p.letter, args, k, mem);
    ShiftAt(args, k, StarsOf(p));
  }

  lemma LettersWithArguments(letter: char)
    ensures TakesArgument(letter) <==> letter in "diouxXcsp"
  {
    var s := "diouxXcsp";
    assert s[0] == 'd' && s[1] == 'i' && s[2] == 'o' && s[3] == 'u' && s[4] == 'x' && s[5] == 'X';
    assert s[6] == 'c' && s[7] == 's' && s[8] == 'p';
  }

  lemma ShiftAt(args: nat -> int, k: nat, j: nat)
    ensures Shift(args, k)(j) == args(k + j)
  {
  }

  lemma ConvPrints(f: string, i: nat, j: nat, letter: char, args: nat -> int, k: nat, mem: int -> string)
    requires i + 1 <= j < |f| && f[i] == '%' && f[i + 1] != '%' && f[j] == letter != '\0' && letter != 'f'
    requires SpecOf(f[i + 1..], Shift(args, k)).end == j - i - 1
    ensures var s := SpecOf(f[i + 1..], Shift(args, k));
      Printed(f, i, args, k, mem)
      == Before(Text(letter, s, args(k + s.used), mem),
                Printed(f, j + 1, args, k + s.used + if TakesArgument(letter) then 1 else 0, mem))
  {
    hide SpecOf, Text, Before, TakesArgument, Shift;
  }

  lemma Behind(f: string, i: nat, p: Piece, tail: string)
    requires Proper(p) && p.Conv? && Holds(f, i, PieceText(p), tail)
    ensures var j := i + |PieceText(p)| - 1;
      && i + 1 <= j < |f| && f[j] == p.letter && f[i] == '%' && f[i + 1] != '%' && |PieceText(p)| == |SpecText(p)| + 2
      && f[i + 1..] == Following(p, tail)
  {
    hide Proper, Holds, SpecText;
    NotPercent(p);
    Inside(f, i, PieceText(p), tail);
    TextParts(SpecText(p), p.letter, tail);
  }

  lemma Inside(f: string, i: nat, text: string, tail: string)
    requires Holds(f, i, text, tail) && |text| >= 2
    ensures var j := i + |text| - 1;
      i + 1 <= j < |f| && f[i] == text[0] && f[i + 1] == text[1] && f[j] == text[|text| - 1] && f[i + 1..] == text[1..] + tail
  {
    var t := f[i..i + |text|];
    assert f[i] == t[0] && f[i + 1] == t[1] && f[i + |text| - 1] == t[|text| - 1];
    assert f[i + 1..] == f[i + 1..i + |text|] + f[i + |text|..] && t[1..] == f[i + 1..i + |text|];
  }

  lemma TextParts(spec: string, letter: char, tail: string)
    ensures var text := "%" + spec + [letter];
      && text[0] == '%' && text[1] == (spec + [letter])[0] && text[|text| - 1] == letter
      && text[1..] + tail == spec + ([letter] + tail)
  {
    var text := "%" + spec + [letter];
    assert text[1..] == spec + [letter];
  }

  lemma SizeFits(modifier: string)
    requires BitsAsked(modifier).Some?
    ensures BitsOf(SizeWith(BitsAsked(modifier).value)) == BitsAsked(modifier).value
  {
  }

  /** The conversion that a piece asks for, and what it prints. */
  lemma ConvMeans(p: Piece, tail: string, args: nat -> int, mem: int -> string)
    requires Proper(p) && p.Conv?
    ensures var s := SpecOf(Following(p, tail), args);
      && s.end == |SpecText(p)| && s.used == StarsOf(p)
      && Text(p.letter, s, args(s.used), mem) == Meaning(p, args, mem)
    ensures p.letter != 'f' && p.letter != '\0'
  {
    SpecMeans(p.flags, p.width, p.precision, p.modifier, [p.letter] + tail, args);
    var precision := if p.precision.Some? then Asked(p.precision.value, args, Stars(p.width)) else -1;
    var s' := Spec(Wanted(p.flags, Asked(p.width, args, 0), precision), SizeWith(BitsAsked(p.modifier).value), 0, 0);
    var s := SpecOf(Following(p, tail), args);
    SizeFits(p.modifier);
    hide SpecOf, Text, Wanted, Asked, BitsOf, BitsAsked, SizeWith;
    TextDepends(p.letter, s, s', args(s.used), mem);
  }

  lemma NotPercent(p: Piece)
    requires Proper(p) && p.Conv?
    ensures (SpecText(p) + [p.letter])[0] != '%'
  {
    var spec := SpecText(p) + [p.letter];
    if p.flags != "" {
      assert spec[0] == p.flags[0];
    } else if p.width != "" {
      assert spec[0] == p.width[0];
    } else if p.precision.Some? {
      assert spec[0] == '.';
    } else if p.modifier != "" {
      assert spec[0] == p.modifier[0];
    }
  }
}
