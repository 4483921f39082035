/**
 * Character-level helpers of the C++ standard library as the source uses
 * them: whitespace splitting by an input string stream, std::to_string of
 * integers, std::stoi/std::stoll/std::stoull, two-digit hex printing, and
 * the byte view of a std::string.
 */
module Strings {
  import opened Wrappers
  import opened Bytes

  /** isspace in the "C" locale. */
  predicate IsSpace(c: char)
  {
    c == ' ' || c == '\t' || c == '\n' || c == '\U{000B}' || c == '\U{000C}' || c == '\r'
  }

  /** Length of the longest prefix of s free of whitespace. */
  function WordLength(s: string): (n: nat)
    ensures n <= |s|
    ensures forall i :: 0 <= i < n ==> !IsSpace(s[i])
    ensures n < |s| ==> IsSpace(s[n])
  {
    if |s| == 0 || IsSpace(s[0]) then 0 else 1 + WordLength(s[1..])
  }

  /** The words `while (iss >> w)` extracts from s: maximal runs of
      non-whitespace characters, in order. */
  function Words(s: string): (ws: seq<string>)
    ensures forall i :: 0 <= i < |ws| ==> |ws[i]| > 0
    decreases |s|
  {
    if s == [] then []
    else if IsSpace(s[0]) then Words(s[1..])
    else
      var n := WordLength(s);
      [s[..n]] + Words(s[n..])
  }

  /** The single word `iss >> w` reads; empty when s is blank. */
  function FirstWord(s: string): string
  {
    var ws := Words(s);
    if ws == [] then "" else ws[0]
  }

  /** std::string::find of a character. */
  function Find(s: string, c: char): (r: Option<nat>)
    ensures r.Some? ==> r.value < |s| && s[r.value] == c && c !in s[..r.value]
    ensures r.None? ==> c !in s
  {
    if s == [] then None
    else if s[0] == c then Some(0)
    else match Find(s[1..], c)
      case None => None
      case Some(i) => Some(i + 1)
  }

  /** s cut just before the first c (unchanged when s has no c). */
  function TruncateAt(s: string, c: char): (r: string)
    ensures c !in r
    ensures r <= s
    ensures c !in s ==> r == s
  {
    match Find(s, c)
    case None => s
    case Some(i) => s[..i]
  }

  /** s with its first occurrence of c erased. */
  function EraseFirst(s: string, c: char): (r: string)
    ensures c !in s ==> r == s
    ensures c in s ==> |r| == |s| - 1
  {
    match Find(s, c)
    case None => s
    case Some(i) => s[..i] + s[i + 1..]
  }

  /** sub occurs somewhere in s (std::string::find(sub) != npos). */
  predicate Contains(s: string, sub: string)
  {
    sub <= s || (|s| > 0 && Contains(s[1..], sub))
  }

  /** items joined by sep: the shape an "is_first" accumulator loop builds. */
  function Join(items: seq<string>, sep: string): string
  {
    if |items| == 0 then ""
    else if |items| == 1 then items[0]
    else Join(items[..|items| - 1], sep) + sep + items[|items| - 1]
  }

  // ---------------------------------------------------------------
  // Decimal text: std::to_string of an integer

  predicate IsDecimalDigit(c: char) { '0' <= c <= '9' }

  /** The lower-case digit character for d in bases up to 16. */
  function DigitChar(d: nat): (c: char)
    requires d < 16
    ensures DigitValue(c) == Some(d)
    ensures d < 10 ==> IsDecimalDigit(c)
  {
    if d < 10 then ('0' as int + d) as char else ('a' as int + d - 10) as char
  }

  /** The decimal digits of n, most significant first, without leading zeros. */
  function Digits(n: nat): (r: string)
    ensures |r| >= 1
    ensures forall i :: 0 <= i < |r| ==> IsDecimalDigit(r[i])
  {
    if n < 10 then [DigitChar(n)] else Digits(n / 10) + [DigitChar(n % 10)]
  }

  /** std::to_string of an integer value. */
  function Decimal(v: int): (r: string)
    ensures |r| >= 1
  {
    if v < 0 then "-" + Digits(-v) else Digits(v)
  }

  // ---------------------------------------------------------------
  // Number parsing: std::stoi / std::stoll / std::stoull over strtol

  /** Value of c as a digit in bases up to 16 (either letter case). */
  function DigitValue(c: char): Option<nat>
  {
    if '0' <= c <= '9' then Some(c as int - '0' as int)
    else if 'a' <= c <= 'f' then Some(c as int - 'a' as int + 10)
    else if 'A' <= c <= 'F' then Some(c as int - 'A' as int + 10)
    else None
  }

  predicate IsDigitIn(c: char, base: nat)
  {
    DigitValue(c).Some? && DigitValue(c).value < base
  }

  /** Length of the longest prefix of s made of base-`base` digits. */
  function DigitRun(s: string, base: nat): (n: nat)
    ensures n <= |s|
    ensures forall i :: 0 <= i < n ==> IsDigitIn(s[i], base)
    ensures n < |s| ==> !IsDigitIn(s[n], base)
  {
    if |s| == 0 || !IsDigitIn(s[0], base) then 0 else 1 + DigitRun(s[1..], base)
  }

  /** The number the digits of s denote in the given base. */
  function ValueOf(s: string, base: nat): nat
    requires base == 10 || base == 16
    requires forall i :: 0 <= i < |s| ==> IsDigitIn(s[i], base)
  {
    if s == [] then 0
    else
      var init := s[..|s| - 1];
      assert forall i :: 0 <= i < |init| ==> init[i] == s[i];
      assert IsDigitIn(s[|s| - 1], base);
      var d := DigitValue(s[|s| - 1]).value;
      var v := ValueOf(init, base);
      (if base == 10 then v * 10 else v * 16) + d
  }

  /** The unsigned part of strtol: for base 16 an optional 0x/0X prefix,
      then the longest run of digits; None when there is no digit. */
  function Magnitude(u: string, base: nat): Option<nat>
    requires base == 10 || base == 16
  {
    var v := if base == 16 && |u| >= 3 && u[0] == '0' && (u[1] == 'x' || u[1] == 'X') && IsDigitIn(u[2], 16)
             then u[2..] else u;
    var k := DigitRun(v, base);
    if k == 0 then None else Some(ValueOf(v[..k], base))
  }

  /** strtol without its range clamp: leading C-locale whitespace, an optional
      sign, then the magnitude; the rest of the text is ignored. None when
      there is no digit. */
  function StrToL(s: string, base: nat): Option<int>
    requires base == 10 || base == 16
  {
    if |s| > 0 && IsSpace(s[0]) then StrToL(s[1..], base)
    else if |s| > 0 && s[0] == '-' then
      match Magnitude(s[1..], base)
      case Some(m) => Some(0 - m)
      case None => None
    else if |s| > 0 && s[0] == '+' then
      match Magnitude(s[1..], base)
      case Some(m) => Some(m)
      case None => None
    else
      match Magnitude(s, base)
      case Some(m) => Some(m)
      case None => None
  }

  /** std::stoi: the parsed value when it fits a 32-bit int; None where the
      C++ function throws (no digits, or out of range). */
  function StoI(s: string, base: nat): (r: Option<int>)
    requires base == 10 || base == 16
    ensures r.Some? ==> InSigned(r.value, 4)
  {
    match StrToL(s, base)
    case Some(v) => if InSigned(v, 4) then Some(v) else None
    case None => None
  }

  /** std::stoll: as StoI with the 64-bit range. */
  function StoLL(s: string): (r: Option<int>)
    ensures r.Some? ==> InSigned(r.value, 8)
  {
    match StrToL(s, 10)
    case Some(v) => if InSigned(v, 8) then Some(v) else None
    case None => None
  }

  /** std::stoull: the magnitude must fit 64 bits; a leading minus sign
      negates modulo 2^64, as strtoull does. */
  function StoULL(s: string): (r: Option<nat>)
    ensures r.Some? ==> r.value < Pow256(8)
  {
    match StrToL(s, 10)
    case Some(v) =>
      if 0 - Pow256(8) < v < Pow256(8) then Some(ToUnsigned(v, 8)) else None
    case None => None
  }

  // ---------------------------------------------------------------
  // Hexadecimal text of bytes: sprintf("%02x") per byte

  /** The two lower-case hex digits of b. */
  function HexPair(b: Byte): (r: string)
    ensures |r| == 2
  {
    [DigitChar(b / 16), DigitChar(b % 16)]
  }

  /** The lower-case hex text of bs, two digits per byte in order. */
  function HexText(bs: seq<Byte>): (r: string)
    ensures |r| == 2 * |bs|
  {
    if bs == [] then "" else HexText(bs[..|bs| - 1]) + HexPair(bs[|bs| - 1])
  }

  // ---------------------------------------------------------------
  // std::string as bytes

  /** Every character of s is a byte (true of every std::string). */
  predicate ByteString(s: string)
  {
    forall i :: 0 <= i < |s| ==> s[i] as int < 256
  }

  /** static_cast<uint8_t> of each character. */
  function BytesOf(s: string): (r: seq<Byte>)
    ensures |r| == |s|
  {
    seq(|s|, i requires 0 <= i < |s| => (s[i] as int) % 256)
  }

  /** static_cast<char> of each byte. */
  function CharsOf(bs: seq<Byte>): (r: string)
    ensures |r| == |bs| && ByteString(r)
  {
    seq(|bs|, i requires 0 <= i < |bs| => bs[i] as char)
  }

  // ---------------------------------------------------------------
  // Round trips between printing and parsing

  lemma {:induction false} DigitsParse(n: nat)
    ensures DigitRun(Digits(n), 10) == |Digits(n)|
    ensures ValueOf(Digits(n), 10) == n
  {
    var d := Digits(n);
    assert forall i :: 0 <= i < |d| ==> IsDigitIn(d[i], 10);
    DigitRunAll(d, 10);
    if n >= 10 {
      DigitsParse(n / 10);
      assert d[..|d| - 1] == Digits(n / 10);
    }
  }

  lemma {:induction false} DigitRunAll(s: string, base: nat)
    requires forall i :: 0 <= i < |s| ==> IsDigitIn(s[i], base)
    ensures DigitRun(s, base) == |s|
  {
    if |s| > 0 {
      DigitRunAll(s[1..], base);
    }
  }

  /** strtol reads back every number std::to_string prints. */
  lemma DecimalParses(v: int)
    ensures StrToL(Decimal(v), 10) == Some(v)
  {
    var m := if v < 0 then -v else v;
    DigitsParse(m);
    var d := Digits(m);
    assert d[..|d|] == d;
    assert Magnitude(d, 10) == Some(m);
    var s := Decimal(v);
    if v < 0 {
      assert s == "-" + d && s[1..] == d;
      assert StrToL(s, 10) == Some(0 - m);
    } else {
      assert s == d && IsDecimalDigit(s[0]);
      assert StrToL(s, 10) == Some(m);
    }
  }

  lemma DecimalStoI(v: int)
    requires InSigned(v, 4)
    ensures StoI(Decimal(v), 10) == Some(v)
  {
    DecimalParses(v);
  }

  /** std::stoi throws on a decimal literal outside the 32-bit range. */
  lemma DecimalStoIOutOfRange(v: int)
    requires !InSigned(v, 4)
    ensures StoI(Decimal(v), 10) == None
  {
    DecimalParses(v);
  }

  lemma DecimalStoLL(v: int)
    requires InSigned(v, 8)
    ensures StoLL(Decimal(v)) == Some(v)
  {
    DecimalParses(v);
  }

  lemma DecimalStoULL(n: nat)
    requires n < Pow256(8)
    ensures StoULL(Decimal(n)) == Some(n)
  {
    DecimalParses(n);
  }

  /** std::stoi(.., 16) reads back the two digits sprintf("%02x") prints. */
  lemma HexPairParses(b: Byte)
    ensures StoI(HexPair(b), 16) == Some(b)
  {
    var p := HexPair(b);
    assert IsDigitIn(p[0], 16) && IsDigitIn(p[1], 16);
    assert DigitRun(p, 16) == 2 by {
      assert DigitRun(p[1..], 16) == 1 by {
        assert p[1..][1..] == [];
      }
    }
    assert p[..2] == p;
    assert p[..1] == [p[0]] && p[..1][..0] == [];
    assert ValueOf(p[..1], 16) == b / 16;
    assert ValueOf(p, 16) == (b / 16) * 16 + b % 16;
    assert Magnitude(p, 16) == Some(b);
    assert InSigned(b, 4) by { assert Pow256(4) == 4294967296; }
  }

  /** Byte k of bs is printed at offsets 2k and 2k+1 of its hex text. */
  lemma {:induction false} HexTextAt(bs: seq<Byte>, k: nat)
    requires k < |bs|
    ensures HexText(bs)[2 * k] == HexPair(bs[k])[0]
    ensures HexText(bs)[2 * k + 1] == HexPair(bs[k])[1]
  {
    var n := |bs|;
    var front := bs[..n - 1];
    assert HexText(bs) == HexText(front) + HexPair(bs[n - 1]);
    if k < n - 1 {
      HexTextAt(front, k);
    }
  }
}
