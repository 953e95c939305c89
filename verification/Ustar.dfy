/** The ustar archive headers of ustar.c. Bytes are characters with codes below 256. */
module Ustar {
  import opened Common
  import opened Format

  const HEADER_SIZE: nat := 512

  predicate IsByte(ch: char) {
    ch as int < 256
  }

  /** A string as C sees it: bytes, none of them null. */
  predicate CString(s: string) {
    forall i :: 0 <= i < |s| ==> s[i] != '\0' && IsByte(s[i])
  }

  datatype Type = Regular | Directory | Eof

  function Flag(t: Type): char {
    if t == Directory then '5' else '0'
  }

  // ----- strip_antisocial_prefixes() -----

  /** A name that begins with "/", "./" or "../". */
  predicate Antisocial(s: string) {
    || (|s| >= 1 && s[0] == '/')
    || (|s| >= 2 && s[0] == '.' && s[1] == '/')
    || (|s| >= 3 && s[0] == '.' && s[1] == '.' && s[2] == '/')
  }

  /** What follows the first slash. */
  function AfterSlash(s: string): (r: string)
    requires '/' in s
    ensures |r| < |s| && s[|s| - |r| - 1] == '/' && s[|s| - |r|..] == r
  {
    if s[0] == '/' then s[1..] else AfterSlash(s[1..])
  }

  function Drop(s: string): string
    decreases |s|
  {
    if Antisocial(s) then HasSlash(s); Drop(AfterSlash(s)) else s
  }

  lemma HasSlash(s: string)
    requires Antisocial(s)
    ensures '/' in s
  {
    assert s[0] == '/' || s[1] == '/' || s[2] == '/';
  }

  function Strip(s: string): string {
    var rest := Drop(s);
    if rest == "" || rest == ".." then "." else rest
  }

  /** strchr(s, '/') + 1, as an index. */
  method FindSlash(s: string) returns (i: nat)
    requires '/' in s
    ensures i < |s| && s[i + 1..] == AfterSlash(s)
  {
    i := 0;
    while s[i] != '/'
      invariant i < |s| && '/' in s[i..] && AfterSlash(s[i..]) == AfterSlash(s)
      decreases |s| - i
    {
      assert s[i..][1..] == s[i + 1..];
      i := i + 1;
    }
    assert s[i..][1..] == s[i + 1..];
  }

  method StripPrefixes(fileName: string) returns (r: string)
    ensures r == Strip(fileName)
  {
    r := fileName;
    while Antisocial(r)
      invariant Drop(r) == Drop(fileName)
      decreases |r|
    {
      HasSlash(r);
      var i := FindSlash(r);
      r := r[i + 1..];
    }
    if r == "" || r == ".." {
      r := ".";
    }
  }

  /** t is what is left of s behind one of its slashes, or all of it. */
  predicate Tail(s: string, t: string) {
    t == s || (|t| < |s| && s[|s| - |t| - 1] == '/' && s[|s| - |t|..] == t)
  }

  lemma TailTail(s: string, t: string, u: string)
    requires Tail(s, t) && Tail(t, u)
    ensures Tail(s, u)
  {
    if t != s && u != t {
      assert s[|s| - |t|..][|t| - |u|..] == s[|s| - |u|..];
      assert s[|s| - |t|..][|t| - |u| - 1] == s[|s| - |u| - 1];
    }
  }

  lemma {:induction false} DropSafe(s: string)
    ensures !Antisocial(Drop(s)) && Tail(s, Drop(s))
    decreases |s|
  {
    if Antisocial(s) {
      HasSlash(s);
      var t := AfterSlash(s);
      assert Tail(s, t);
      hide Tail, Antisocial, AfterSlash;
      DropSafe(t);
      TailTail(s, t, Drop(t));
    }
  }

  lemma TailCString(s: string, t: string)
    requires CString(s) && Tail(s, t)
    ensures CString(t)
  {
    if t != s {
      assert forall i :: 0 <= i < |t| ==> t[i] == s[|s| - |t| + i];
    }
  }

  /** A stripped name begins neither with a slash nor with a dot component, is not "..", is what is left
      of the name behind some slash, and stripping it again changes nothing. */
  lemma StripSafe(s: string)
    ensures !Antisocial(Strip(s)) && Strip(s) != ".." && Strip(s) != ""
    ensures Strip(s) == "." || Tail(s, Strip(s))
    ensures Strip(Strip(s)) == Strip(s)
    ensures CString(s) ==> CString(Strip(s))
  {
    DropSafe(s);
    assert !Antisocial(".");
    hide Tail, Antisocial;
    if CString(s) {
      TailCString(s, Drop(s));
    }
  }

  predicate HasPrefix(s: string, prefix: string) {
    |prefix| <= |s| && s[..|prefix|] == prefix
  }

  predicate Starts(s: string) {
    HasPrefix(s, "/") || HasPrefix(s, "./") || HasPrefix(s, "../")
  }

  /** A concatenation of "/", "./" and "../". */
  predicate Pieces(p: string)
    decreases |p|
  {
    || p == ""
    || (HasPrefix(p, "/") && Pieces(p[1..]))
    || (HasPrefix(p, "./") && Pieces(p[2..]))
    || (HasPrefix(p, "../") && Pieces(p[3..]))
  }

  lemma StartsIs(s: string)
    ensures Starts(s) <==> Antisocial(s)
  {
    if |s| >= 1 {
      assert s[..1] == "/" <==> s[0] == '/';
    }
    if |s| >= 2 {
      assert s[..2] == "./" <==> s[0] == '.' && s[1] == '/';
    }
    if |s| >= 3 {
      assert s[..3] == "../" <==> s[0] == '.' && s[1] == '.' && s[2] == '/';
    }
  }

  /** How long the piece is that s begins with. */
  function PieceLength(s: string): (n: nat)
    requires Starts(s)
    ensures 0 < n <= |s|
  {
    if HasPrefix(s, "/") then 1 else if HasPrefix(s, "./") then 2 else 3
  }

  lemma AfterPiece(s: string)
    requires Starts(s)
    ensures '/' in s && AfterSlash(s) == s[PieceLength(s)..]
    ensures Pieces(s[..PieceLength(s)])
  {
    StartsIs(s);
    HasSlash(s);
    BehindPiece(s);
    var n := PieceLength(s);
    PieceLone(s[..n]);
  }

  lemma BehindPiece(s: string)
    requires Starts(s) && '/' in s
    ensures AfterSlash(s) == s[PieceLength(s)..]
  {
    var n := PieceLength(s);
    if n == 1 {
      assert s[..1][0] == '/';
    } else if n == 2 {
      assert s[..2][0] == '.' && s[..2][1] == '/';
      assert s[1..][0] == s[1] && s[1..][1..] == s[2..];
    } else {
      assert s[..3][0] == '.' && s[..3][1] == '.' && s[..3][2] == '/';
      assert s[1..][0] == s[1] && s[1..][1..][0] == s[2] && s[1..][1..][1..] == s[3..];
    }
  }

  lemma PieceLone(q: string)
    requires q == "/" || q == "./" || q == "../"
    ensures Pieces(q)
  {
    assert q[|q|..] == "";
  }

  /** Exactly the leading "/", "./" and "../" are stripped: however a name is made of such pieces and a rest that
      begins with none, the rest is what is left, or "." for no rest and for "..". */
  lemma {:induction false} StripMeans(p: string, t: string)
    requires Pieces(p) && !Starts(t)
    ensures Strip(p + t) == if t == "" || t == ".." then "." else t
  {
    DropMeans(p, t);
  }

  lemma {:induction false} DropMeans(p: string, t: string)
    requires Pieces(p) && !Starts(t)
    ensures Drop(p + t) == t
    decreases |p|
  {
    var s := p + t;
    StartsIs(s);
    if p == "" {
      assert s == t;
    } else {
      var n := if HasPrefix(p, "/") then 1 else if HasPrefix(p, "./") then 2 else 3;
      assert s[..n] == p[..n];
      AfterPiece(s);
      OnePiece(p, s);
      assert s[n..] == p[n..] + t;
      DropMeans(p[n..], t);
      DropOne(s);
    }
  }

  lemma DropOne(s: string)
    requires Antisocial(s) && '/' in s
    ensures Drop(s) == Drop(AfterSlash(s))
  {
  }

  /** The first pieces of p and of a name that begins with p are the same. */
  lemma OnePiece(p: string, s: string)
    requires Pieces(p) && p != "" && |p| <= |s| && s[..|p|] == p
    ensures Starts(p) && Starts(s) && PieceLength(s) == PieceLength(p) && Pieces(p[PieceLength(p)..])
  {
    assert forall k :: 0 <= k <= |p| ==> s[..k] == p[..k];
    if |s| >= 2 && |p| < 2 {
      assert s[..1] == "/";
    }
    PieceFirst(p);
  }

  lemma PieceFirst(p: string)
    requires Pieces(p) && p != ""
    ensures Starts(p) && Pieces(p[PieceLength(p)..])
  {
    if HasPrefix(p, "/") {
      assert p[0] == '/';
      assert !HasPrefix(p, "./") && !HasPrefix(p, "../");
    } else if HasPrefix(p, "./") {
      assert p[..2][1] == '/';
    }
  }

  /** Every name is made in that way. */
  lemma {:induction false} StripSplits(s: string) returns (p: string, t: string)
    ensures s == p + t && Pieces(p) && !Starts(t)
    decreases |s|
  {
    if Starts(s) {
      var n := PieceLength(s);
      var q;
      q, t := StripSplits(s[n..]);
      p := s[..n] + q;
      PieceBefore(s, q);
    } else {
      p, t := "", s;
    }
  }

  lemma PieceBefore(s: string, q: string)
    requires Starts(s) && Pieces(q)
    ensures Pieces(s[..PieceLength(s)] + q)
  {
    var n := PieceLength(s);
    var p := s[..n] + q;
    assert p[..n] == s[..n] && p[n..] == q;
  }

  /** A name that begins with none of them, and is neither empty nor "..", stays as it is. */
  lemma StripLeaves(s: string)
    requires !Starts(s) && s != "" && s != ".."
    ensures Strip(s) == s
  {
    StripMeans("", s);
    assert "" + s == s;
  }

  // ----- octal fields -----

  predicate IsOctal(ch: char) {
    '0' <= ch <= '7'
  }

  function OctalEnd(s: string, i: nat): (r: nat)
    requires i <= |s|
    ensures i <= r <= |s|
    decreases |s| - i
  {
    if i < |s| && IsOctal(s[i]) then OctalEnd(s, i + 1) else i
  }

  /** The number in an octal field: one or more octal digits, then a blank or a null inside the field; it
      must fit 32 bits. */
  function Octal(s: string): Option<int> {
    var n := OctalEnd(s, 0);
    if 0 < n < |s| && (s[n] == ' ' || s[n] == '\0') && Value(s[..n], 8) < 0x1_0000_0000
    then Some(Value(s[..n], 8)) else None
  }

  lemma {:induction false} OctalAt(s: string, i: nat, j: nat)
    requires i <= |s| && i <= j < OctalEnd(s, i)
    ensures IsOctal(s[j])
    decreases j - i
  {
    if i < j {
      OctalAt(s, i + 1, j);
    }
  }

  lemma {:induction false} OctalGrows(s: string, j: nat, k: nat)
    requires j <= k <= OctalEnd(s, 0)
    ensures 0 <= Value(s[..j], 8) <= Value(s[..k], 8)
    decreases k
  {
    if 0 < k {
      OctalAt(s, 0, k - 1);
      ValueSnoc(s[..k - 1], s[k - 1], 8);
      assert s[..k] == s[..k - 1] + [s[k - 1]];
      OctalGrows(s, Min(j, k - 1), k - 1);
    }
  }

  /** parse_octal_field(). */
  method ParseOctalField(s: string) returns (r: Option<int>)
    ensures r == Octal(s)
  {
    var value, ofs := 0, 0;
    assert s[..0] == "";
    while ofs < |s|
      invariant 0 <= ofs <= |s| && OctalEnd(s, 0) == OctalEnd(s, ofs)
      invariant value == Value(s[..ofs], 8) && 0 <= value < 0x1_0000_0000
      decreases |s| - ofs
    {
      var c := s[ofs];
      if IsOctal(c) {
        OctalGrows(s, ofs + 1, OctalEnd(s, 0));
        ValueSnoc(s[..ofs], c, 8);
        assert s[..ofs + 1] == s[..ofs] + [c];
        if value > 0xFFFF_FFFF / 8 {
          return None;
        }
        value := c as int - '0' as int + value * 8;
        ofs := ofs + 1;
      } else if c == ' ' || c == '\0' {
        return if ofs > 0 then Some(value) else None;
      } else {
        return None;
      }
    }
    r := None;
  }

  /** "%0<width>o". */
  function OctalConversion(width: nat): Conversion {
    Conversion(false, false, false, false, true, false, width, -1)
  }

  function Oct(v: nat, width: nat): string {
    Render(OctalConversion(width), v, false, false, BASE_O)
  }

  lemma {:induction false} OctalDigits(v: nat, k: nat, n: nat)
    requires v < Pow8(n)
    ensures |Digits(v, BASE_O, false, k)| <= n
    ensures forall ch :: ch in Digits(v, BASE_O, false, k) ==> IsOctal(ch)
  {
    if v > 0 {
      OctalDigits(v / 8, k + 1, n - 1);
      var front := Digits(v / 8, BASE_O, false, k + 1);
      var d := BASE_O.digits[v % 8];
      assert IsOctal(d);
      assert Digits(v, BASE_O, false, k) == front + [d];
      hide Digits;
    }
  }

  lemma OctForm(v: nat, width: nat)
    requires v < Pow8(width) && width > 0
    ensures var digits := Digits(v, BASE_O, false, 0);
      |digits| <= width && (forall ch :: ch in digits ==> IsOctal(ch)) && Oct(v, width) == Dup('0', width - |digits|) + digits
  {
    OctalDigits(v, 0, width);
    hide Digits;
    var digits := Digits(v, BASE_O, false, 0);
    var c := OctalConversion(width);
    assert Body(c, v, BASE_O) == Dup('0', 1 - |digits|) + digits;
    assert Dup(' ', 0) == "";
    var n := Natural(c, v, false, false, BASE_O);
    assert Oct(v, width) == Dup('0', width - n) + (Dup('0', 1 - |digits|) + digits);
  }

  /** A number that fits the field is written with all its digits, and read back. */
  lemma OctField(v: nat, width: nat, field: string)
    requires v < Pow8(width) && width > 0 && v < 0x1_0000_0000 && field == Oct(v, width) + "\0"
    ensures |Oct(v, width)| == width && CString(Oct(v, width))
    ensures Octal(field) == Some(v)
  {
    OctText(v, width);
    hide Oct, Octal, Value;
    var s := Oct(v, width);
    assert field == s + ['\0'] + "";
    OctalMeans(s, '\0', "");
  }

  lemma OctText(v: nat, width: nat)
    requires v < Pow8(width) && width > 0
    ensures var s := Oct(v, width); |s| == width && OctalText(s) && CString(s) && Value(s, 8) == v
  {
    OctForm(v, width);
    DigitsDenote(v, BASE_O, false, 0);
    hide Oct, Digits, Render, Value, Dup;
    var digits := Digits(v, BASE_O, false, 0);
    LeadingZeros(width - |digits|, digits, 8);
    ZerosThen(width - |digits|, digits);
  }

  lemma ZerosThen(n: nat, digits: string)
    requires n + |digits| > 0 && forall ch :: ch in digits ==> IsOctal(ch)
    ensures var s := Dup('0', n) + digits; |s| == n + |digits| && OctalText(s) && CString(s)
  {
    var s := Dup('0', n) + digits;
    forall i | 0 <= i < |s| ensures IsOctal(s[i]) {
      assert i >= n ==> s[i] in digits;
    }
  }

  lemma {:induction false} OctalEndIs(s: string, i: nat, n: nat)
    requires i <= n <= |s| && (forall k :: i <= k < n ==> IsOctal(s[k])) && (n < |s| ==> !IsOctal(s[n]))
    ensures OctalEnd(s, i) == n
    decreases n - i
  {
    if i < n {
      OctalEndIs(s, i + 1, n);
    }
  }

  // ----- calculate_chksum() -----

  predicate InChecksum(i: nat) {
    148 <= i < 156
  }

  /** The sum of the first n bytes, the checksum field taken as blanks. */
  function Sum(b: string, n: nat): nat
    requires n <= |b|
  {
    if n == 0 then 0 else Sum(b, n - 1) + if InChecksum(n - 1) then 32 else b[n - 1] as int
  }

  method CalculateChecksum(header: array<char>) returns (sum: nat)
    requires header.Length == HEADER_SIZE
    ensures sum == Sum(header[..], HEADER_SIZE)
  {
    sum := 0;
    for i := 0 to HEADER_SIZE
      invariant sum == Sum(header[..], i)
    {
      sum := sum + if InChecksum(i) then ' ' as int else header[i] as int;
    }
  }

  lemma {:induction false} SumIgnoresField(b: string, b': string, n: nat)
    requires n <= |b| == |b'| && forall i :: 0 <= i < |b| && !InChecksum(i) ==> b[i] == b'[i]
    ensures Sum(b, n) == Sum(b', n)
  {
    if n > 0 {
      SumIgnoresField(b, b', n - 1);
    }
  }

  lemma {:induction false} SumBound(b: string, n: nat)
    requires n <= |b| && forall i :: 0 <= i < |b| ==> IsByte(b[i])
    ensures Sum(b, n) <= 255 * n
  {
    if n > 0 {
      SumBound(b, n - 1);
    }
  }

  lemma {:induction false} SumNotices(b: string, b': string, j: nat, n: nat)
    requires n <= |b| == |b'| && j < |b| && !InChecksum(j) && b' == b[j := b'[j]]
    ensures Sum(b', n) == Sum(b, n) + if j < n then b'[j] as int - b[j] as int else 0
  {
    if n > 0 {
      SumNotices(b, b', j, n - 1);
    }
  }

  // ----- ustar_make_header() -----

  function FieldAt(s: string, k: nat): char {
    if k < |s| then s[k] else '\0'
  }

  /** The bytes of a header, by the fields of struct ustar_header: name, mode, uid, gid, size, mtime, chksum,
      typeflag, linkname, magic, version, uname, gname, devmajor, devminor, prefix, padding. */
  function ByteAt(name: string, mode: string, size: string, mtime: string, chksum: string, flag: char, i: nat): char {
    if i < 100 then FieldAt(name, i)
    else if i < 108 then FieldAt(mode, i - 100)
    else if i < 116 then FieldAt("0000000", i - 108)
    else if i < 124 then FieldAt("0000000", i - 116)
    else if i < 136 then FieldAt(size, i - 124)
    else if i < 148 then FieldAt(mtime, i - 136)
    else if i < 156 then FieldAt(chksum, i - 148)
    else if i == 156 then flag
    else if i < 257 then '\0'
    else if i < 263 then FieldAt("ustar", i - 257)
    else if i < 265 then '0'
    else if i < 297 then FieldAt("root", i - 265)
    else if i < 329 then FieldAt("root", i - 297)
    else '\0'
  }

  /** The modification time of every file. */
  const MTIME: nat := 1136102400

  function Mode(t: Type): nat {
    if t == Regular then 420 else 493
  }

  /** The size as the unsigned argument of %o. */
  function Unsigned(size: int): int {
    if size < 0 then size + 0x1_0000_0000 else size
  }

  function Filled(name: string, t: Type, size: int, chksum: string): (r: string)
    requires InInt(size)
    ensures |r| == 512
  {
    seq(512, i requires 0 <= i < 512 =>
          ByteAt(Strip(name), Oct(Mode(t), 7), Oct(Unsigned(size), 11), Oct(MTIME, 11), chksum, Flag(t), i))
  }

  function Checksum(name: string, t: Type, size: int): nat
    requires InInt(size)
  {
    Sum(Filled(name, t, size, ""), 512)
  }

  /** A finished header. */
  function Made(name: string, t: Type, size: int): (r: string)
    requires InInt(size)
    ensures |r| == 512
  {
    Filled(name, t, size, Oct(Checksum(name, t, size), 7))
  }

  /** strlcpy() or snprintf() into a field that has room. */
  method Put(header: array<char>, at: nat, s: string)
    requires header.Length == HEADER_SIZE && at + |s| < HEADER_SIZE
    modifies header
    ensures forall i :: 0 <= i < 512 ==>
      header[i] == if at <= i <= at + |s| then FieldAt(s, i - at) else old(header[i])
  {
    for k := 0 to |s|
      invariant forall i :: 0 <= i < 512 ==>
        header[i] == if at <= i < at + k then FieldAt(s, i - at) else old(header[i])
    {
      header[at + k] := s[k];
    }
    header[at + |s|] := '\0';
  }

  lemma Powers()
    ensures Pow8(7) == 2097152 && Pow8(11) == 8589934592
  {
    assert Pow8(3) == 512;
    assert Pow8(5) == 8 * Pow8(4) == 32768;
    assert Pow8(7) == 8 * Pow8(6) == 2097152;
    assert Pow8(9) == 8 * Pow8(8) == 134217728;
    assert Pow8(11) == 8 * Pow8(10);
  }

  lemma OctLength(v: nat, width: nat)
    requires (width == 7 && v < 2097152) || (width == 11 && v < 0x1_0000_0000)
    ensures |Oct(v, width)| == width && CString(Oct(v, width)) && Octal(Oct(v, width) + "\0") == Some(v)
  {
    Powers();
    hide Oct, Octal, Pow8;
    OctField(v, width, Oct(v, width) + "\0");
  }

  method FillFields(header: array<char>, name: string, mode: string, size: string, mtime: string, flag: char)
    requires header.Length == HEADER_SIZE && |name| <= 99 && |mode| == 7 && |size| == 11 && |mtime| == 11
    modifies header
    ensures forall i :: 0 <= i < 512 ==> header[i] == ByteAt(name, mode, size, mtime, "", flag, i)
  {
    hide Oct;
    forall i | 0 <= i < 512 {
      header[i] := '\0';
    }
    Put(header, 0, name);
    Put(header, 100, mode);
    Put(header, 108, "0000000");
    Put(header, 116, "0000000");
    Put(header, 124, size);
    Put(header, 136, mtime);
    header[156] := flag;
    Put(header, 257, "ustar");
    header[263], header[264] := '0', '0';
    Put(header, 297, "root");
    Put(header, 265, "root");
  }

  method FormatOctal(v: nat, width: nat) returns (s: string)
    requires v < 0x1_0000_0000
    ensures s == Oct(v, width)
  {
    assert Known(BASE_O);
    hide Render, Known;
    s := FormatInteger(v, false, false, BASE_O, OctalConversion(width));
  }

  lemma FieldIsByte()
    ensures forall s: string, k: nat :: CString(s) ==> IsByte(FieldAt(s, k))
  {
  }

  lemma HeaderIsBytes(name: string, mode: string, size: string, mtime: string, flag: char, i: nat)
    requires CString(name) && CString(mode) && CString(size) && CString(mtime) && IsByte(flag)
    ensures IsByte(ByteAt(name, mode, size, mtime, "", flag, i))
  {
    FieldIsByte();
    assert CString("0000000") && CString("ustar") && CString("root") && CString("");
    hide CString, FieldAt;
  }

  /** Every byte of a header is below 256, so its checksum fits its field. */
  lemma ChecksumFits(name: string, t: Type, size: int)
    requires InInt(size) && CString(name)
    ensures Checksum(name, t, size) < 2097152
  {
    StripSafe(name);
    OctLength(Mode(t), 7);
    OctLength(Unsigned(size), 11);
    OctLength(MTIME, 11);
    hide Oct, Octal, Strip, Sum, CString, ByteAt;
    var b := Filled(name, t, size, "");
    forall i | 0 <= i < |b| ensures IsByte(b[i]) {
      HeaderIsBytes(Strip(name), Oct(Mode(t), 7), Oct(Unsigned(size), 11), Oct(MTIME, 11), Flag(t), i);
    }
    SumBound(b, 512);
  }

  /** ustar_make_header(): false exactly for a name of 100 bytes or more once stripped. */
  method MakeHeader(fileName: string, t: Type, size: int, header: array<char>) returns (ok: bool)
    requires CString(fileName) && t != Eof && InInt(size) && header.Length == HEADER_SIZE
    modifies header
    ensures ok == (|Strip(fileName)| <= 99)
    ensures ok ==> header[..] == Made(fileName, t, size)
    ensures !ok ==> header[..] == old(header[..])
  {
    hide Strip, Oct, Octal, Sum, ByteAt, FieldAt;
    var name := StripPrefixes(fileName);
    if |name| > 99 {
      return false;
    }
    var mode := FormatOctal(Mode(t), 7);
    var sizeField := FormatOctal(Unsigned(size), 11);
    var mtime := FormatOctal(MTIME, 11);
    OctLength(Mode(t), 7);
    OctLength(Unsigned(size), 11);
    OctLength(MTIME, 11);
    FillFields(header, name, mode, sizeField, mtime, Flag(t));
    ghost var before := header[..];
    assert before == Filled(fileName, t, size, "");
    var sum := CalculateChecksum(header);
    ChecksumFits(fileName, t, size);
    var chksum := FormatOctal(sum, 7);
    OctLength(sum, 7);
    Put(header, 148, chksum);
    ChecksumPut(before, header[..], fileName, t, size, chksum);
    ok := true;
  }

  lemma ChecksumPut(b: string, b': string, name: string, t: Type, size: int, chksum: string)
    requires InInt(size) && b == Filled(name, t, size, "") && |chksum| == 7 && |b'| == 512
    requires forall i :: 0 <= i < 512 ==> b'[i] == if 148 <= i <= 148 + |chksum| then FieldAt(chksum, i - 148) else b[i]
    ensures b' == Filled(name, t, size, chksum)
  {
    hide Strip, Oct;
  }

  // ----- ustar_parse_header() -----

  datatype Parsed = Entry(name: string, kind: Type, size: int) | EndOfArchive | Bad(message: string)

  predicate AllZeros(b: string) {
    forall i :: 0 <= i < |b| ==> b[i] == '\0'
  }

  method IsAllZeros(block: array<char>) returns (r: bool)
    ensures r == AllZeros(block[..])
  {
    for i := 0 to block.Length
      invariant forall k :: 0 <= k < i ==> block[k] == '\0'
    {
      if block[i] != '\0' {
        assert block[..][i] != '\0';
        return false;
      }
    }
    r := true;
  }

  /** The bytes in front of the first null. */
  function CStr(s: string): string {
    if s == "" || s[0] == '\0' then "" else [s[0]] + CStr(s[1..])
  }

  /** What a header says. */
  function Reading(b: string): Parsed
    requires |b| == 512
  {
    if AllZeros(b) then EndOfArchive
    else if b[257..263] != "ustar\0" then Bad("not a ustar archive")
    else if b[263] != '0' || b[264] != '0' then Bad("invalid ustar version")
    else if Octal(b[148..156]) == None then Bad("corrupt chksum field")
    else if Octal(b[148..156]) != Some(Sum(b, 512)) then Bad("checksum mismatch")
    else if b[99] != '\0' || b[345] != '\0' then Bad("file name too long")
    else if b[156] == '5' then Entry(Strip(CStr(b[..100])), Directory, 0)
    else if b[156] != '0' then Bad("unimplemented file type")
    else match Octal(b[124..136])
      case None => Bad("corrupt file size field")
      case Some(size) =>
        if size > 0x7FFF_FFFF then Bad("file too large") else Entry(Strip(CStr(b[..100])), Regular, size)
  }

  method ParseHeader(header: array<char>) returns (r: Parsed)
    requires header.Length == HEADER_SIZE
    ensures r == Reading(header[..])
  {
    hide AllZeros, Octal, Sum, Strip, CStr;
    var zeros := IsAllZeros(header);
    if zeros {
      return EndOfArchive;
    }
    ghost var b := header[..];
    assert b[257..263] == header[257..263] && b[148..156] == header[148..156];
    assert b[124..136] == header[124..136] && b[..100] == header[..100];
    if header[257..263] != "ustar\0" {
      return Bad("not a ustar archive");
    } else if header[263] != '0' || header[264] != '0' {
      return Bad("invalid ustar version");
    }
    var chksum := ParseOctalField(header[148..156]);
    if chksum == None {
      return Bad("corrupt chksum field");
    }
    var sum := CalculateChecksum(header);
    if chksum.value != sum {
      return Bad("checksum mismatch");
    } else if header[99] != '\0' || header[345] != '\0' {
      return Bad("file name too long");
    } else if header[156] != '0' && header[156] != '5' {
      return Bad("unimplemented file type");
    }
    var size := 0;
    if header[156] == '0' {
      var field := ParseOctalField(header[124..136]);
      if field == None {
        return Bad("corrupt file size field");
      } else if field.value > 0x7FFF_FFFF {
        return Bad("file too large");
      }
      size := field.value;
    }
    var name := StripPrefixes(CStr(header[..100]));
    r := Entry(name, if header[156] == '0' then Regular else Directory, size);
  }

  // ----- round trip -----

  lemma {:induction false} CStrField(s: string, t: string)
    requires CString(s) && (t != "" ==> t[0] == '\0')
    ensures CStr(s + t) == s
  {
    if s == "" {
      assert s + t == t;
    } else {
      assert (s + t)[1..] == s[1..] + t;
      CStrField(s[1..], t);
    }
  }

  lemma Fields(name: string, t: Type, size: int, b: string)
    requires InInt(size) && CString(name) && |Strip(name)| <= 99 && b == Made(name, t, size)
    requires |Oct(Checksum(name, t, size), 7)| == 7 && |Oct(Unsigned(size), 11)| == 11
    ensures b[257..263] == "ustar\0" && b[263] == b[264] == '0' && b[156] == Flag(t)
    ensures b[148..156] == Oct(Checksum(name, t, size), 7) + "\0"
    ensures b[124..136] == Oct(Unsigned(size), 11) + "\0"
    ensures b[99] == b[345] == '\0'
  {
    hide Strip, Oct, CString, Checksum;
    var sizeField := Oct(Unsigned(size), 11) + "\0";
    assert forall k :: 0 <= k < 12 ==> b[124..136][k] == b[124 + k] == sizeField[k];
  }

  lemma NameField(name: string, t: Type, size: int, b: string)
    requires InInt(size) && CString(name) && |Strip(name)| <= 99 && b == Made(name, t, size)
    ensures CStr(b[..100]) == Strip(name)
  {
    StripSafe(name);
    hide Strip, Oct, CStr;
    var n := Strip(name);
    assert b[..100] == n + b[|n|..100];
    assert b[|n|..100][0] == '\0';
    CStrField(n, b[|n|..100]);
  }

  lemma SumOfMade(name: string, t: Type, size: int)
    requires InInt(size)
    ensures Sum(Made(name, t, size), 512) == Checksum(name, t, size)
  {
    hide Strip, Oct;
    SumIgnoresField(Made(name, t, size), Filled(name, t, size, ""), 512);
  }

  lemma ReadingOf(b: string, name: string, flag: char, size: int)
    requires |b| == 512 && (flag == '0' || flag == '5')
    requires b[257..263] == "ustar\0" && b[263] == b[264] == '0' && b[156] == flag && b[99] == b[345] == '\0'
    requires Octal(b[148..156]) == Some(Sum(b, 512)) && Octal(b[124..136]) == Some(size)
    requires CStr(b[..100]) == name && Strip(name) == name
    ensures Reading(b) == if flag == '5' then Entry(name, Directory, 0)
                          else if size <= 0x7FFF_FFFF then Entry(name, Regular, size)
                          else Bad("file too large")
  {
    assert !AllZeros(b);
    hide AllZeros, Octal, Sum, CStr, Strip;
  }

  /** Parsing a header that was made gives back the stripped name, the type and the size; a directory has
      size 0, and a negative size is refused. */
  lemma RoundTrip(name: string, t: Type, size: int)
    requires CString(name) && t != Eof && InInt(size) && |Strip(name)| <= 99
    ensures Reading(Made(name, t, size))
         == if t == Directory then Entry(Strip(name), Directory, 0)
            else if size >= 0 then Entry(Strip(name), Regular, size)
            else Bad("file too large")
  {
    var b := Made(name, t, size);
    ChecksumFits(name, t, size);
    StripSafe(name);
    hide Oct, Strip, CString, Octal, CStr, Sum, Made, Checksum, Reading;
    OctLength(Checksum(name, t, size), 7);
    OctLength(Unsigned(size), 11);
    Fields(name, t, size, b);
    NameField(name, t, size, b);
    SumOfMade(name, t, size);
    ReadingOf(b, Strip(name), Flag(t), Unsigned(size));
  }

  /** A name in the archive never leads out of the directory it is extracted into by its beginning, and a
      size is an int. */
  lemma ReadingSafe(b: string)
    requires |b| == 512 && Reading(b).Entry?
    ensures var e := Reading(b);
      !Antisocial(e.name) && e.name != ".." && e.name != "" && 0 <= e.size <= 0x7FFF_FFFF && e.kind != Eof
  {
    StripSafe(CStr(b[..100]));
    OctalGrows(b[124..136], 0, OctalEnd(b[124..136], 0));
    hide Strip, CStr, Sum, Antisocial;
  }

  /** A header with one byte changed, outside the checksum field, is never accepted. */
  lemma OneByteChanged(b: string, j: nat, ch: char)
    requires |b| == 512 && Reading(b).Entry? && j < 512 && !InChecksum(j) && ch != b[j]
    ensures Reading(b[j := ch]).Bad?
  {
    var b' := b[j := ch];
    SumNotices(b, b', j, 512);
    assert b'[148..156] == b[148..156];
    assert b[257..263][0] == 'u' && b[257..263][1] == 's';
    hide Strip, CStr, Sum, Octal;
    assert b'[257] != '\0' || b'[258] != '\0';
  }

  // ----- what the fields of a header mean -----

  /** The sum of the bytes of a string. */
  function Total(s: string): nat {
    if s == "" then 0 else Total(s[..|s| - 1]) + s[|s| - 1] as int
  }

  lemma {:induction false} SumFront(b: string, n: nat)
    requires n <= |b| && n <= 148
    ensures Sum(b, n) == Total(b[..n])
  {
    if n > 0 {
      SumFront(b, n - 1);
      assert b[..n][..n - 1] == b[..n - 1];
    }
  }

  lemma {:induction false} SumBack(b: string, n: nat)
    requires 156 <= n <= |b|
    ensures Sum(b, n) == Sum(b, 156) + Total(b[156..n])
  {
    if n > 156 {
      SumBack(b, n - 1);
      assert b[156..n][..n - 1 - 156] == b[156..n - 1];
    }
  }

  /** The checksum adds all bytes in front of its field and behind it, and eight blanks for the field. */
  lemma SumMeans(b: string)
    requires |b| == 512
    ensures Sum(b, 512) == Total(b[..148]) + 8 * 32 + Total(b[156..])
  {
    SumFront(b, 148);
    SumBack(b, 512);
    assert b[156..512] == b[156..];
    SumMiddle(b);
  }

  lemma SumMiddle(b: string)
    requires |b| == 512
    ensures Sum(b, 156) == Sum(b, 148) + 8 * 32
  {
    assert Sum(b, 152) == Sum(b, 151) + 32 == Sum(b, 150) + 64 == Sum(b, 149) + 96 == Sum(b, 148) + 128;
    assert Sum(b, 156) == Sum(b, 155) + 32 == Sum(b, 154) + 64 == Sum(b, 153) + 96 == Sum(b, 152) + 128;
  }

  predicate OctalText(s: string) {
    s != "" && forall i :: 0 <= i < |s| ==> '0' <= s[i] <= '7'
  }

  /** An octal field, that is one or more octal digits and a blank or a null behind them, has the value of its
      digits if that fits 32 bits, and none otherwise. */
  lemma OctalMeans(digits: string, end: char, rest: string)
    requires OctalText(digits) && (end == ' ' || end == '\0')
    ensures Octal(digits + [end] + rest) == if Value(digits, 8) < 0x1_0000_0000 then Some(Value(digits, 8)) else None
  {
    var s := digits + [end] + rest;
    OctalEndIs(s, 0, |digits|);
    assert s[..|digits|] == digits;
  }

  /** Only such a field has a value. */
  lemma OctalOnly(s: string) returns (digits: string, end: char, rest: string)
    requires Octal(s).Some?
    ensures OctalText(digits) && (end == ' ' || end == '\0') && s == digits + [end] + rest
  {
    var n := OctalEnd(s, 0);
    digits, end, rest := s[..n], s[n], s[n + 1..];
    forall i | 0 <= i < n ensures '0' <= digits[i] <= '7' {
      OctalAt(s, 0, i);
    }
  }

  /** What a valid header has in its magic, version and checksum fields, and that its name fits the name field. */
  predicate WellFormed(b: string)
    requires |b| == 512
  {
    && b[257] == 'u' && b[258] == 's' && b[259] == 't' && b[260] == 'a' && b[261] == 'r' && b[262] == '\0'
    && b[263] == b[264] == '0'
    && Octal(b[148..156]) == Some(Total(b[..148]) + 8 * 32 + Total(b[156..]))
    && b[99] == b[345] == '\0'
  }

  lemma MagicIs(b: string)
    requires |b| == 512
    ensures b[257..263] == "ustar\0"
       <==> b[257] == 'u' && b[258] == 's' && b[259] == 't' && b[260] == 'a' && b[261] == 'r' && b[262] == '\0'
  {
    var m := b[257..263];
    assert m[0] == b[257] && m[1] == b[258] && m[2] == b[259] && m[3] == b[260] && m[4] == b[261] && m[5] == b[262];
  }

  /** A block is the end of the archive if and only if it is zero throughout; it is accepted as a directory or a
      regular file if and only if it is well formed, of type '5', or of type '0' with a size that is an int. */
  lemma ReadingMeans(b: string)
    requires |b| == 512
    ensures Reading(b) == EndOfArchive <==> forall i :: 0 <= i < 512 ==> b[i] == '\0'
    ensures Reading(b).Entry? <==>
            (WellFormed(b)
             && (b[156] == '5' || (b[156] == '0' && Octal(b[124..136]).Some? && Octal(b[124..136]).value <= 0x7FFF_FFFF)))
    ensures Reading(b).Entry? ==>
      var name := Strip(CStr(b[..100]));
      Reading(b) == if b[156] == '5' then Entry(name, Directory, 0) else Entry(name, Regular, Octal(b[124..136]).value)
  {
    SumMeans(b);
    MagicIs(b);
    hide Sum, Octal, Strip, CStr, Total;
  }

  /** The fields of a header that was made: the mode is 0644 for a file and 0755 for a directory, the owner is
      root with the numbers 0, and all bytes without a meaning here are null. */
  lemma MadeMeans(name: string, t: Type, size: int)
    requires CString(name) && t != Eof && InInt(size) && |Strip(name)| <= 99
    ensures var b := Made(name, t, size);
      && CStr(b[..100]) == Strip(name)
      && Octal(b[100..108]) == Some(if t == Directory then 7 * 64 + 5 * 8 + 5 else 6 * 64 + 4 * 8 + 4)
      && Octal(b[108..116]) == Octal(b[116..124]) == Some(0)
      && Octal(b[124..136]) == Some(if size < 0 then size + 0x1_0000_0000 else size)
      && Octal(b[136..148]) == Some(1136102400)
      && b[156] == (if t == Directory then '5' else '0')
      && WellFormed(b)
      && CStr(b[265..297]) == CStr(b[297..329]) == "root"
      && (forall i :: 157 <= i < 257 || 329 <= i < 512 ==> b[i] == '\0')
  {
    hide Oct, Strip, CString, Octal, CStr, Made, WellFormed;
    var b := Made(name, t, size);
    MadeWell(name, t, size);
    MadeNumbers(name, t, size, b);
    NameField(name, t, size, b);
    MadeRoot(name, t, size, b);
    MadeNulls(name, t, size, b);
  }

  lemma MadeNumbers(name: string, t: Type, size: int, b: string)
    requires t != Eof && InInt(size) && b == Made(name, t, size) && b[124..136] == Oct(Unsigned(size), 11) + "\0"
    ensures Octal(b[100..108]) == Some(if t == Directory then 7 * 64 + 5 * 8 + 5 else 6 * 64 + 4 * 8 + 4)
    ensures Octal(b[108..116]) == Octal(b[116..124]) == Some(0)
    ensures Octal(b[124..136]) == Some(if size < 0 then size + 0x1_0000_0000 else size)
    ensures Octal(b[136..148]) == Some(1136102400)
  {
    hide Oct, Octal, Made, CString;
    OctLength(Unsigned(size), 11);
    OctLength(Mode(t), 7);
    OctLength(MTIME, 11);
    OtherFields(name, t, size, b);
    ZeroField();
  }

  lemma MadeRoot(name: string, t: Type, size: int, b: string)
    requires InInt(size) && b == Made(name, t, size)
    ensures CStr(b[265..297]) == CStr(b[297..329]) == "root"
  {
    hide Oct, Octal, Made, CString, CStr;
    OctLength(Mode(t), 7);
    OctLength(MTIME, 11);
    OtherFields(name, t, size, b);
    RootField();
  }

  lemma MadeWell(name: string, t: Type, size: int)
    requires CString(name) && t != Eof && InInt(size) && |Strip(name)| <= 99
    ensures var b := Made(name, t, size);
      WellFormed(b) && b[124..136] == Oct(Unsigned(size), 11) + "\0" && b[156] == Flag(t)
  {
    var b := Made(name, t, size);
    MadeFields(name, t, size, b);
    WellIs(b);
  }

  lemma MadeFields(name: string, t: Type, size: int, b: string)
    requires CString(name) && t != Eof && InInt(size) && |Strip(name)| <= 99 && b == Made(name, t, size)
    ensures b[257..263] == "ustar\0" && b[263] == b[264] == '0' && b[156] == Flag(t) && b[99] == b[345] == '\0'
    ensures b[124..136] == Oct(Unsigned(size), 11) + "\0" && Octal(b[148..156]) == Some(Sum(b, 512))
  {
    ChecksumFits(name, t, size);
    hide Oct, Strip, CString, Octal, Sum, Made, Checksum;
    OctLength(Checksum(name, t, size), 7);
    OctLength(Unsigned(size), 11);
    Fields(name, t, size, b);
    SumOfMade(name, t, size);
  }

  lemma WellIs(b: string)
    requires |b| == 512 && b[257..263] == "ustar\0" && b[263] == b[264] == '0' && b[99] == b[345] == '\0'
    requires Octal(b[148..156]) == Some(Sum(b, 512))
    ensures WellFormed(b)
  {
    SumMeans(b);
    MagicIs(b);
    hide Sum, Octal, Total;
  }

  lemma OtherFields(name: string, t: Type, size: int, b: string)
    requires InInt(size) && b == Made(name, t, size)
    requires |Oct(Mode(t), 7)| == 7 && |Oct(MTIME, 11)| == 11
    ensures b[100..108] == Oct(Mode(t), 7) + "\0" && b[136..148] == Oct(MTIME, 11) + "\0"
    ensures b[108..116] == b[116..124] == "0000000\0"
    ensures b[265..297] == b[297..329] == "root" + Nulls(28)
  {
    hide Strip, Oct, CString, Checksum;
    var mode, mtime, zeros, root := Oct(Mode(t), 7) + "\0", Oct(MTIME, 11) + "\0", "0000000\0", "root" + Nulls(28);
    assert forall k :: 0 <= k < 8 ==> b[100..108][k] == b[100 + k] == mode[k];
    assert forall k :: 0 <= k < 12 ==> b[136..148][k] == b[136 + k] == mtime[k];
    assert forall k :: 0 <= k < 8 ==> b[108..116][k] == b[108 + k] == zeros[k];
    assert forall k :: 0 <= k < 8 ==> b[116..124][k] == b[116 + k] == zeros[k];
    assert forall k :: 0 <= k < 32 ==> b[265..297][k] == b[265 + k] == root[k];
    assert forall k :: 0 <= k < 32 ==> b[297..329][k] == b[297 + k] == root[k];
  }

  function Nulls(n: nat): string {
    seq(n, _ => '\0')
  }

  lemma MadeNulls(name: string, t: Type, size: int, b: string)
    requires InInt(size) && b == Made(name, t, size)
    ensures forall i :: 157 <= i < 257 || 329 <= i < 512 ==> b[i] == '\0'
  {
    hide Strip, Oct, CString, Checksum;
  }

  lemma ZeroField()
    ensures Octal("0000000\0") == Some(0)
  {
    var zeros := "0000000";
    OctalMeans(zeros, '\0', "");
    assert zeros + "\0" + "" == "0000000\0";
    assert zeros == Dup('0', 7) + "";
    LeadingZeros(7, "", 8);
  }

  lemma RootField()
    ensures CStr("root" + Nulls(28)) == "root"
  {
    CStrField("root", Nulls(28));
  }
}
