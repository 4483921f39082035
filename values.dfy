/**
 * The value level of Data (src/SqliteFetcher.cpp): the type tag, the key
 * flags, the byte buffer, and the pure operations on them (type
 * resolution, literal rendering, constraint text, default-text parsing).
 * Data is copied by value into the std::map containers, so this is also
 * what a column of a schema or a fetched row holds.
 */
module Values {
  import opened Wrappers
  import opened Bytes
  import opened Strings

  /** Type_t. NoType is the source's NONE. */
  datatype Tag = NoType | Int8 | Int16 | Int32 | Int64 | UInt64 | Float | Double | Bool | Text | Blob

  /** KeyFlag_t, one field per constraint bit. */
  datatype Flags = Flags(primaryKey: bool, unique: bool, autoIncrement: bool, notNull: bool, hasDefault: bool)

  const Normal := Flags(false, false, false, false, false)

  /** A value of one of the C++ types get/set/change are instantiated for.
      Floating-point values are carried as their IEEE bit pattern only. */
  datatype Native =
    | I8(i: int) | I16(i: int) | I32(i: int) | I64(i: int) | U64(n: int)
    | F32(bits: int) | F64(bits: int)
    | Boolean(b: bool) | Str(s: string) | Bin(bs: seq<Byte>)

  /**
   * What the header (not part of this model) and the floating-point
   * library contribute: the TypeDef keyword table, the default argument of
   * typeStr(), and std::to_string / std::stof / std::stod on IEEE bit patterns.
   */
  datatype Dialect = Dialect(
    typeDef: map<string, Tag>,
    printFlagsByDefault: bool,
    floatText: int -> string,
    doubleText: int -> string,
    parseFloat: string -> Option<int>,
    parseDouble: string -> Option<int>)

  /** Data: tag, declared type text, key flags and byte buffer. */
  datatype DataValue = DataValue(tag: Tag, typeText: string, flags: Flags, bytes: seq<Byte>)

  function TagOf(v: Native): Tag
  {
    match v
    case I8(_) => Int8
    case I16(_) => Int16
    case I32(_) => Int32
    case I64(_) => Int64
    case U64(_) => UInt64
    case F32(_) => Float
    case F64(_) => Double
    case Boolean(_) => Bool
    case Str(_) => Text
    case Bin(_) => Blob
  }

  /** sizeof of the native type of a fixed-width tag; 0 for the others. */
  function Width(t: Tag): nat
  {
    match t
    case Int8 => 1
    case Int16 => 2
    case Int32 => 4
    case Int64 => 8
    case UInt64 => 8
    case Float => 4
    case Double => 8
    case Bool => 1
    case _ => 0
  }

  predicate Fixed(t: Tag) { Width(t) > 0 }

  /** The tags std::stoi feeds: bool and the integer types. */
  predicate Integral(t: Tag)
  {
    t == Bool || t == Int8 || t == Int16 || t == Int32 || t == Int64 || t == UInt64
  }

  /** v is a value its C++ type can hold. */
  predicate Representable(v: Native)
  {
    match v
    case I8(i) => InSigned(i, 1)
    case I16(i) => InSigned(i, 2)
    case I32(i) => InSigned(i, 4)
    case I64(i) => InSigned(i, 8)
    case U64(n) => 0 <= n < Pow256(8)
    case F32(bits) => 0 <= bits < Pow256(4)
    case F64(bits) => 0 <= bits < Pow256(8)
    case Boolean(_) => true
    case Str(s) => ByteString(s)
    case Bin(_) => true
  }

  /** The memory image set() copies into the buffer: little-endian two's
      complement for numbers, one byte 0/1 for bool, the characters of a
      string, the bytes of a blob. */
  function Encode(v: Native): (r: seq<Byte>)
    ensures Fixed(TagOf(v)) ==> |r| == Width(TagOf(v))
  {
    match v
    case I8(i) => EncodeLE(ToUnsigned(i, 1), 1)
    case I16(i) => EncodeLE(ToUnsigned(i, 2), 2)
    case I32(i) => EncodeLE(ToUnsigned(i, 4), 4)
    case I64(i) => EncodeLE(ToUnsigned(i, 8), 8)
    case U64(n) => EncodeLE(ToUnsigned(n, 8), 8)
    case F32(bits) => EncodeLE(ToUnsigned(bits, 4), 4)
    case F64(bits) => EncodeLE(ToUnsigned(bits, 8), 8)
    case Boolean(b) => [if b then 1 else 0]
    case Str(s) => BytesOf(s)
    case Bin(bs) => bs
  }

  /** The value of tag t whose memory image is bs. */
  function Decode(t: Tag, bs: seq<Byte>): (r: Native)
    requires t != NoType
    ensures TagOf(r) == t
    ensures Representable(r)
  {
    match t
    case Int8 => I8(ToSigned(DecodeLE(bs), 1))
    case Int16 => I16(ToSigned(DecodeLE(bs), 2))
    case Int32 => I32(ToSigned(DecodeLE(bs), 4))
    case Int64 => I64(ToSigned(DecodeLE(bs), 8))
    case UInt64 => U64(ToUnsigned(DecodeLE(bs), 8))
    case Float => F32(ToUnsigned(DecodeLE(bs), 4))
    case Double => F64(ToUnsigned(DecodeLE(bs), 8))
    case Bool => Boolean(|bs| > 0 && bs[0] != 0)
    case Text => Str(CharsOf(bs))
    case Blob => Bin(bs)
  }

  lemma StringBytesRoundTrip(s: string)
    requires ByteString(s)
    ensures CharsOf(BytesOf(s)) == s
  {
  }

  /** Reading back a stored value yields it (the byte layout is lossless). */
  lemma DecodeEncode(v: Native)
    requires Representable(v)
    ensures Decode(TagOf(v), Encode(v)) == v
  {
    match v
    case I8(i) => DecodeEncodeLE(ToUnsigned(i, 1), 1); SignedRoundTrip(i, 1);
    case I16(i) => DecodeEncodeLE(ToUnsigned(i, 2), 2); SignedRoundTrip(i, 2);
    case I32(i) => DecodeEncodeLE(ToUnsigned(i, 4), 4); SignedRoundTrip(i, 4);
    case I64(i) => DecodeEncodeLE(ToUnsigned(i, 8), 8); SignedRoundTrip(i, 8);
    case U64(n) => DecodeEncodeLE(ToUnsigned(n, 8), 8);
    case F32(bits) => DecodeEncodeLE(ToUnsigned(bits, 4), 4);
    case F64(bits) => DecodeEncodeLE(ToUnsigned(bits, 8), 8);
    case Boolean(b) =>
    case Str(s) => StringBytesRoundTrip(s);
    case Bin(bs) =>
  }

  /** The buffer invariant every operation keeps: a fixed-width tag holds
      no bytes (never assigned) or exactly its width; NONE holds none. */
  predicate Valid(d: DataValue)
  {
    && (Fixed(d.tag) ==> |d.bytes| == 0 || |d.bytes| == Width(d.tag))
    && (d.tag == NoType ==> d.bytes == [])
  }

  /** The buffer fits the variable get copies it into: a fixed-width tag
      holds at most its width. setType(type text) retags a cell without
      touching its bytes, so a cell can leave Valid and still fit. */
  predicate Fits(d: DataValue)
  {
    Fixed(d.tag) ==> |d.bytes| <= Width(d.tag)
  }

  /** get past the end of the caller's variable: a retagged cell whose
      buffer is wider than its new tag. */
  const Overrun := Undefined("get copies more bytes than the variable holds")

  /** set<T>(v): switches tag and bytes together, keeps type text and flags. */
  function Assign(d: DataValue, v: Native): (r: DataValue)
    ensures Valid(r)
    ensures r.typeText == d.typeText && r.flags == d.flags
  {
    d.(tag := TagOf(v), bytes := Encode(v))
  }

  /** top copied over the first bytes of base. */
  function Overlay(base: seq<Byte>, top: seq<Byte>): (r: seq<Byte>)
    requires |top| <= |base|
    ensures |r| == |base|
    ensures r[..|top|] == top && r[|top|..] == base[|top|..]
  {
    top + base[|top|..]
  }

  /** get<T>(into): on a tag match, the stored bytes copied over the image of
      the caller's variable `into`; otherwise false and `into` untouched. */
  function Read(d: DataValue, into: Native): (r: (bool, Native))
    requires Representable(into) && (d.tag == TagOf(into) ==> Fits(d))
  {
    if d.tag != TagOf(into) then (false, into)
    else if Fixed(d.tag) then (true, Decode(d.tag, Overlay(Encode(into), d.bytes)))
    else (true, Decode(d.tag, d.bytes))
  }

  /** set-then-get: get succeeds exactly for the tag that was set, and then
      yields the value that was set. */
  lemma ReadAfterAssign(d: DataValue, v: Native, into: Native)
    requires Representable(v) && Representable(into)
    ensures Read(Assign(d, v), into) == if TagOf(into) == TagOf(v) then (true, v) else (false, into)
  {
    if TagOf(into) == TagOf(v) {
      DecodeEncode(v);
      if Fixed(TagOf(v)) {
        assert Overlay(Encode(into), Encode(v)) == Encode(v);
      }
    }
  }

  /** get on a value whose buffer was never filled leaves the variable as it was. */
  lemma ReadUnset(d: DataValue, into: Native)
    requires Valid(d) && Representable(into) && d.tag == TagOf(into) && Fixed(d.tag) && d.bytes == []
    ensures Read(d, into) == (true, into)
  {
    assert Overlay(Encode(into), d.bytes) == Encode(into);
    DecodeEncode(into);
  }

  // ---------------------------------------------------------------
  // Type resolution: the two setType overloads

  /** The tag a declared type text resolves to: its first word, cut at '(',
      looked up in TypeDef, BLOB when absent. */
  function DeclaredTag(typeDef: map<string, Tag>, text: string): Tag
  {
    var w := TruncateAt(FirstWord(text), '(');
    if w in typeDef then typeDef[w] else Blob
  }

  /** Data(type text, flags): a PRIMARY KEY forces INT64 / "INTEGER". */
  function FromDeclared(dl: Dialect, text: string, flags: Flags): (r: DataValue)
    ensures Valid(r) && r.flags == flags && r.bytes == []
    ensures flags.primaryKey ==> r.tag == Int64 && r.typeText == "INTEGER"
    ensures !flags.primaryKey ==> r.tag == DeclaredTag(dl.typeDef, text) && r.typeText == text
  {
    if flags.primaryKey then DataValue(Int64, "INTEGER", flags, [])
    else DataValue(DeclaredTag(dl.typeDef, text), text, flags, [])
  }

  /** The canonical type text setType(Type_t) gives each tag. */
  function CanonicalName(t: Tag): string
  {
    match t
    case NoType => "NONE"
    case Int8 => "TYNYINT"
    case Int16 => "SMALLINT"
    case Int32 => "MEDIUMINT"
    case Int64 => "BIGINT"
    case UInt64 => "UINT64"
    case Float => "FLOAT"
    case Double => "DOUBLE"
    case Bool => "BOOL"
    case Text => "TEXT"
    case Blob => "BLOB"
  }

  /** Data(tag, flags). */
  function FromTag(t: Tag, flags: Flags): (r: DataValue)
    ensures Valid(r) && r.flags == flags && r.bytes == []
    ensures flags.primaryKey ==> r.tag == Int64 && r.typeText == "INTEGER"
    ensures !flags.primaryKey ==> r.tag == t && r.typeText == CanonicalName(t)
  {
    if flags.primaryKey then DataValue(Int64, "INTEGER", flags, [])
    else DataValue(t, CanonicalName(t), flags, [])
  }

  lemma {:induction false} WordLengthAppend(w: string, rest: string)
    requires forall i :: 0 <= i < |w| ==> !IsSpace(w[i])
    ensures WordLength(w + rest) == |w| + WordLength(rest)
  {
    if |w| > 0 {
      assert (w + rest)[1..] == w[1..] + rest;
      WordLengthAppend(w[1..], rest);
    } else {
      assert w + rest == rest;
    }
  }

  lemma FirstWordAppend(w: string, rest: string)
    requires |w| > 0 && forall i :: 0 <= i < |w| ==> !IsSpace(w[i])
    ensures FirstWord(w + rest) == w + rest[..WordLength(rest)]
  {
    var s := w + rest;
    assert s[0] == w[0];
    WordLengthAppend(w, rest);
    assert s[..WordLength(s)] == w + rest[..WordLength(rest)];
  }

  lemma {:induction false} TruncateAppend(w: string, x: string, c: char)
    requires c !in w && (x == [] || x[0] == c)
    ensures TruncateAt(w + x, c) == w
  {
    if |w| > 0 {
      assert (w + x)[1..] == w[1..] + x;
      TruncateAppend(w[1..], x, c);
      assert c !in w[1..];
    } else {
      assert w + x == x;
    }
  }

  /** Only the first word of a declared type, up to any '(', decides its tag:
      "VARCHAR(255) NOT NULL" resolves like "VARCHAR". */
  lemma DeclaredTagOfWord(typeDef: map<string, Tag>, w: string, rest: string)
    requires |w| > 0 && forall i :: 0 <= i < |w| ==> !IsSpace(w[i]) && w[i] != '('
    requires rest == [] || IsSpace(rest[0]) || rest[0] == '('
    ensures DeclaredTag(typeDef, w + rest) == if w in typeDef then typeDef[w] else Blob
  {
    FirstWordAppend(w, rest);
    var x := rest[..WordLength(rest)];
    assert x == [] || x[0] == '(';
    TruncateAppend(w, x, '(');
  }

  // ---------------------------------------------------------------
  // Literal rendering: str()

  /** The zero-initialised local str() reads a value of tag t into. */
  function Zero(t: Tag): (r: Native)
    requires t != NoType
    ensures TagOf(r) == t && Representable(r)
  {
    match t
    case Int8 => I8(0)
    case Int16 => I16(0)
    case Int32 => I32(0)
    case Int64 => I64(0)
    case UInt64 => U64(0)
    case Float => F32(0)
    case Double => F64(0)
    case Bool => Boolean(false)
    case Text => Str("")
    case Blob => Bin([])
  }

  /** The value str() renders: the stored one, or zero for a buffer never filled. */
  function Current(d: DataValue): (r: Native)
    requires Fits(d) && d.tag != NoType
    ensures TagOf(r) == d.tag
  {
    Read(d, Zero(d.tag)).1
  }

  /** A fixed-width buffer that fits is read zero-extended: str() of a cell
      that setType(type text) widened reads its old image as the low bytes
      of a zeroed variable. */
  lemma CurrentZeroExtends(d: DataValue)
    requires Fits(d) && Fixed(d.tag)
    ensures Current(d) == Decode(d.tag, d.bytes)
  {
    var w := Width(d.tag);
    assert Current(d) == Decode(d.tag, Overlay(Encode(Zero(d.tag)), d.bytes));
    ZeroImage(d.tag);
    ZeroImageTail(w, |d.bytes|);
    assert Overlay(Encode(Zero(d.tag)), d.bytes) == d.bytes + EncodeLE(0, w - |d.bytes|);
    DecodePadded(d.tag, d.bytes, w - |d.bytes|);
  }

  /** Decode of a fixed-width tag ignores zero bytes after the image. */
  lemma DecodePadded(t: Tag, bs: seq<Byte>, n: nat)
    requires Fixed(t)
    ensures Decode(t, bs + EncodeLE(0, n)) == Decode(t, bs)
  {
    DecodeZeroPadded(bs, n);
    if t == Bool && bs == [] && n > 0 {
      assert (bs + EncodeLE(0, n))[0] == 0;
    }
  }

  /** The zero-initialised local of a fixed-width tag is all zero bytes. */
  lemma ZeroImage(t: Tag)
    requires Fixed(t)
    ensures Encode(Zero(t)) == EncodeLE(0, Width(t))
  {
    assert ToUnsigned(0, Width(t)) == 0;
  }

  /** The cell of an INT8 -1 retyped as BIGINT prints 255: its one byte
      lands in the low byte of a zeroed int64_t. */
  lemma WidenedInt8Literal(dl: Dialect, text: string, flags: Flags)
    ensures Literal(dl, DataValue(Int64, text, flags, Encode(I8(-1)))) == Decimal(255)
  {
    var d := DataValue(Int64, text, flags, Encode(I8(-1)));
    assert d.bytes == [255];
    CurrentZeroExtends(d);
    assert DecodeLE([255]) == 255;
  }

  /** str(): the SQL literal of the value; NONE renders as the empty string. */
  function Literal(dl: Dialect, d: DataValue): string
    requires Fits(d)
  {
    if d.tag == NoType then "" else NativeLiteral(dl, Current(d))
  }

  /** The literal of a native value: integers and bool in decimal, floating
      point through std::to_string, text between single quotes with no
      escaping, a blob as X'..' with two lower-case hex digits per byte. */
  function NativeLiteral(dl: Dialect, v: Native): string
  {
    match v
    case I8(i) => Decimal(i)
    case I16(i) => Decimal(i)
    case I32(i) => Decimal(i)
    case I64(i) => Decimal(i)
    case U64(n) => Decimal(n)
    case F32(bits) => dl.floatText(bits)
    case F64(bits) => dl.doubleText(bits)
    case Boolean(b) => Decimal(if b then 1 else 0)
    case Str(s) => "'" + s + "'"
    case Bin(bs) => BlobText(bs)
  }

  /** After set<T>(v), str() renders v itself. */
  lemma LiteralAfterAssign(dl: Dialect, d: DataValue, v: Native)
    requires Representable(v)
    ensures Literal(dl, Assign(d, v)) == NativeLiteral(dl, v)
  {
    ReadAfterAssign(d, v, Zero(TagOf(v)));
  }

  /** The blob literal X'<hex>'. */
  function BlobText(bs: seq<Byte>): (r: string)
    ensures |r| == 2 * |bs| + 3
  {
    "X'" + HexText(bs) + "'"
  }

  // ---------------------------------------------------------------
  // Constraint text: typeStr()

  /** typeStr(print_flags): the type text, followed when print_flags holds
      by the `if (flag) ret += keyword` chain over the constraint clauses. */
  function TypeStr(dl: Dialect, d: DataValue, printFlags: bool): string
    requires printFlags && d.flags.hasDefault ==> Fits(d)
  {
    if printFlags then AppendSelected(d.typeText, Clauses(d.flags, DefaultText(dl, d))) else d.typeText
  }

  /** The literal after DEFAULT: str() is called only when the flag is set. */
  function DefaultText(dl: Dialect, d: DataValue): (r: string)
    requires d.flags.hasDefault ==> Fits(d)
    ensures d.flags.hasDefault ==> r == Literal(dl, d)
  {
    if d.flags.hasDefault then Literal(dl, d) else ""
  }

  /** The constraint clauses in the order typeStr tests them, each with the
      flag that selects it. */
  function Clauses(flags: Flags, defaultLiteral: string): seq<(bool, string)>
  {
    [ (flags.primaryKey, " PRIMARY KEY"),
      (flags.unique, " UNIQUE"),
      (flags.autoIncrement, " AUTO INCREMENT"),
      (flags.notNull, " NOT NULL"),
      (flags.hasDefault, " DEFAULT " + defaultLiteral) ]
  }

  /** A chain of `if (flag) ret += text;` statements run on ret. */
  function AppendSelected(ret: string, cs: seq<(bool, string)>): string
    decreases |cs|
  {
    if cs == [] then ret else AppendSelected(if cs[0].0 then ret + cs[0].1 else ret, cs[1..])
  }

  /** The texts of the selected clauses, concatenated in order. */
  function Selected(cs: seq<(bool, string)>): string
  {
    if cs == [] then "" else (if cs[0].0 then cs[0].1 else "") + Selected(cs[1..])
  }

  lemma {:induction false} AppendSelectedIsSuffix(ret: string, cs: seq<(bool, string)>)
    ensures AppendSelected(ret, cs) == ret + Selected(cs)
    decreases |cs|
  {
    if cs != [] {
      var next := if cs[0].0 then ret + cs[0].1 else ret;
      AppendSelectedIsSuffix(next, cs[1..]);
      assert next == ret + (if cs[0].0 then cs[0].1 else "");
    }
  }

  /** typeStr(false) is the type text alone; typeStr(true) appends PRIMARY
      KEY, UNIQUE, AUTO INCREMENT, NOT NULL and DEFAULT <literal>, in that
      order, each exactly when its flag is set. */
  lemma TypeStrClauses(dl: Dialect, d: DataValue)
    requires d.flags.hasDefault ==> Fits(d)
    ensures TypeStr(dl, d, false) == d.typeText
    ensures TypeStr(dl, d, true) == d.typeText + Selected(Clauses(d.flags, DefaultText(dl, d)))
  {
    AppendSelectedIsSuffix(d.typeText, Clauses(d.flags, DefaultText(dl, d)));
  }

  /** A typeStr() suffix does not change the tag its type text resolves
      to: a fetched cell gets the same tag as a column declared with the
      plain type word. */
  lemma TypeStrKeepsTag(dl: Dialect, d: DataValue, printFlags: bool, w: string, rest: string)
    requires (printFlags && d.flags.hasDefault ==> Fits(d)) && d.typeText == w + rest
    requires |w| > 0 && forall i :: 0 <= i < |w| ==> !IsSpace(w[i]) && w[i] != '('
    requires rest == [] || IsSpace(rest[0]) || rest[0] == '('
    ensures DeclaredTag(dl.typeDef, TypeStr(dl, d, printFlags)) == DeclaredTag(dl.typeDef, d.typeText)
  {
    if printFlags {
      var suffix := Selected(Clauses(d.flags, DefaultText(dl, d)));
      TypeStrClauses(dl, d);
      SelectedStartsWithSpace(Clauses(d.flags, DefaultText(dl, d)));
      assert TypeStr(dl, d, printFlags) == w + (rest + suffix);
      DeclaredTagOfWord(dl.typeDef, w, rest + suffix);
    }
    DeclaredTagOfWord(dl.typeDef, w, rest);
  }

  /** Each constraint clause text starts with a space. */
  lemma {:induction false} SelectedStartsWithSpace(cs: seq<(bool, string)>)
    requires forall i :: 0 <= i < |cs| ==> |cs[i].1| > 0 && cs[i].1[0] == ' '
    ensures Selected(cs) == [] || Selected(cs)[0] == ' '
  {
    if cs != [] {
      var tail := cs[1..];
      assert forall i :: 0 <= i < |tail| ==> tail[i] == cs[i + 1];
      SelectedStartsWithSpace(tail);
      if cs[0].0 {
        assert Selected(cs) == cs[0].1 + Selected(tail);
      } else {
        assert Selected(cs) == Selected(tail);
      }
    }
  }
}
