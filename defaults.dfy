/**
 * Data::set(Type_t, text) of src/SqliteFetcher.cpp: the value a default
 * text (or a fetched cell) is parsed into, by the resolved tag.
 */
module Defaults {
  import opened Wrappers
  import opened Bytes
  import opened Strings
  import opened Values

  /** The number of hex pairs the blob loop reads: pair k sits at offsets
      2k+2 and 2k+3 and is read while 2k+3 < length-1. */
  function PairCount(s: string): nat
  {
    if |s| >= 3 then (|s| - 3) / 2 else 0
  }

  /** PairCount is exactly the number of iterations of the source's loop. */
  lemma PairCountIsLoopBound(s: string, k: nat)
    requires |s| >= 1
    ensures k < PairCount(s) <==> 2 * k + 3 < |s| - 1
  {
  }

  /** The first k pairs of s, each read by std::stoi(.., 16) and narrowed to
      uint8_t; the first pair std::stoi rejects fails the whole decoding. */
  function DecodedPairs(s: string, k: nat): (r: Result<seq<Byte>>)
    requires k <= PairCount(s)
    ensures r.Ok? ==> |r.value| == k
  {
    if k == 0 then Ok([])
    else
      match DecodedPairs(s, k - 1)
      case Err(e) => Err(e)
      case Ok(p) =>
        match StoI([s[2 * k], s[2 * k + 1]], 16)
        case None => Err(ParseError)
        case Some(x) => Ok(p + [ToUnsigned(x, 1)])
  }

  /** Once a pair fails, every longer decoding fails the same way. */
  lemma {:induction false} DecodedPairsErrorStays(s: string, k: nat, n: nat)
    requires k <= n <= PairCount(s) && DecodedPairs(s, k).Err?
    ensures DecodedPairs(s, n) == DecodedPairs(s, k)
    decreases n
  {
    if n > k {
      DecodedPairsErrorStays(s, k, n - 1);
    }
  }

  /** The bytes set(BLOB, text) stores. The first two characters and the
      last one (the X' and ' of a blob literal) are skipped unread. On empty
      text the source's unsigned length()-1 wraps and the loop reads out of
      bounds. */
  function BlobBytes(s: string): Result<seq<Byte>>
  {
    if |s| == 0 then Err(Undefined("blob text of length 0"))
    else DecodedPairs(s, PairCount(s))
  }

  /** static_cast from the int std::stoi returns to the native type of an
      integer or bool tag (modular narrowing, nonzero is true). */
  function Narrow(t: Tag, v: int): (r: Native)
    requires Integral(t)
    ensures TagOf(r) == t && Representable(r)
  {
    match t
    case Bool => Boolean(v != 0)
    case Int8 => I8(ToSigned(v, 1))
    case Int16 => I16(ToSigned(v, 2))
    case Int32 => I32(ToSigned(v, 4))
    case Int64 => I64(ToSigned(v, 8))
    case UInt64 => U64(ToUnsigned(v, 8))
  }

  /** The value set(t, text) stores, as the source writes it: every integer
      tag and bool through std::stoi, floating point through std::stof /
      std::stod, text verbatim, a blob from its hex pairs; None for NONE,
      which stores nothing. Err where the source throws. */
  function ParseAsWritten(dl: Dialect, t: Tag, text: string): (r: Result<Option<Native>>)
    ensures r.Ok? && r.value.Some? ==> TagOf(r.value.value) == t
  {
    if t == NoType then Ok(None)
    else if t == Text then Ok(Some(Str(text)))
    else if t == Blob then
      match BlobBytes(text)
      case Ok(bs) => Ok(Some(Bin(bs)))
      case Err(e) => Err(e)
    else if t == Float then
      match dl.parseFloat(text)
      case Some(bits) => Ok(Some(F32(ToUnsigned(bits, 4))))
      case None => Err(ParseError)
    else if t == Double then
      match dl.parseDouble(text)
      case Some(bits) => Ok(Some(F64(ToUnsigned(bits, 8))))
      case None => Err(ParseError)
    else
      assert Integral(t);
      match StoI(text, 10)
      case Some(v) => Ok(Some(Narrow(t, v)))
      case None => Err(ParseError)
  }

  /** ParseAsWritten with the 64-bit tags read at their own width
      (std::stoll for INT64, std::stoull for UINT64). */
  function ParseDefault(dl: Dialect, t: Tag, text: string): (r: Result<Option<Native>>)
    ensures r.Ok? && r.value.Some? ==> TagOf(r.value.value) == t
  {
    if t == Int64 then
      match StoLL(text)
      case Some(v) => Ok(Some(I64(v)))
      case None => Err(ParseError)
    else if t == UInt64 then
      match StoULL(text)
      case Some(v) => Ok(Some(U64(v)))
      case None => Err(ParseError)
    else ParseAsWritten(dl, t, text)
  }

  /** set(t, text) on d: the parsed value assigned, d unchanged for NONE,
      Err (d untouched) where parsing fails. */
  function SetFromText(dl: Dialect, d: DataValue, t: Tag, text: string): (r: Result<DataValue>)
    ensures r.Ok? ==> r.value.typeText == d.typeText && r.value.flags == d.flags
  {
    match ParseDefault(dl, t, text)
    case Err(e) => Err(e)
    case Ok(None) => Ok(d)
    case Ok(Some(v)) => Ok(Assign(d, v))
  }

  /** Data(value, type text, flags): resolve the declared type, then parse
      the value by the resolved tag. */
  function FromText(dl: Dialect, value: string, typeText: string, flags: Flags): (r: Result<DataValue>)
    ensures r.Ok? ==> Valid(r.value) && r.value.flags == flags
    ensures r.Ok? ==> r.value.tag == FromDeclared(dl, typeText, flags).tag
  {
    var d := FromDeclared(dl, typeText, flags);
    SetFromText(dl, d, d.tag, value)
  }

  // ---------------------------------------------------------------
  // Round trips between str() and set(t, text)

  lemma BlobTextAt(bs: seq<Byte>, k: nat)
    requires k < |bs|
    ensures BlobText(bs)[2 * k + 2] == HexPair(bs[k])[0]
    ensures BlobText(bs)[2 * k + 3] == HexPair(bs[k])[1]
  {
    var h := HexText(bs);
    HexTextAt(bs, k);
    assert BlobText(bs)[2 * k + 2] == h[2 * k];
    assert BlobText(bs)[2 * k + 3] == h[2 * k + 1];
  }

  /** Decoding reads pair j as byte j whenever every pair parses to its byte. */
  lemma {:induction false} DecodedPairsAll(s: string, bs: seq<Byte>, k: nat)
    requires PairCount(s) == |bs| && k <= |bs|
    requires forall j :: 0 <= j < |bs| ==> StoI([s[2 * j + 2], s[2 * j + 3]], 16) == Some(bs[j])
    ensures DecodedPairs(s, k) == Ok(bs[..k])
  {
    if k > 0 {
      DecodedPairsAll(s, bs, k - 1);
      assert StoI([s[2 * (k - 1) + 2], s[2 * (k - 1) + 3]], 16) == Some(bs[k - 1]);
      PairStep(s, k, bs[..k - 1], bs[k - 1]);
      assert bs[..k] == bs[..k - 1] + [bs[k - 1]];
    }
  }

  lemma BlobPairParses(bs: seq<Byte>, j: nat)
    requires j < |bs|
    ensures StoI([BlobText(bs)[2 * j + 2], BlobText(bs)[2 * j + 3]], 16) == Some(bs[j])
  {
    BlobTextAt(bs, j);
    assert [BlobText(bs)[2 * j + 2], BlobText(bs)[2 * j + 3]] == HexPair(bs[j]);
    HexPairParses(bs[j]);
  }

  lemma PairStep(s: string, k: nat, p: seq<Byte>, b: Byte)
    requires 0 < k <= PairCount(s)
    requires DecodedPairs(s, k - 1) == Ok(p)
    requires StoI([s[2 * k], s[2 * k + 1]], 16) == Some(b)
    ensures DecodedPairs(s, k) == Ok(p + [b])
  {
  }

  /** A blob literal decodes back to the bytes it was printed from. */
  lemma BlobRoundTrip(bs: seq<Byte>)
    ensures BlobBytes(BlobText(bs)) == Ok(bs)
  {
    var s := BlobText(bs);
    forall j | 0 <= j < |bs|
      ensures StoI([s[2 * j + 2], s[2 * j + 3]], 16) == Some(bs[j])
    {
      BlobPairParses(bs, j);
    }
    DecodedPairsAll(s, bs, |bs|);
    assert bs[..|bs|] == bs;
  }

  /** The literal str() prints for an integer, bool or blob value, parsed
      back by set(tag, text), restores the value. */
  lemma LiteralRoundTrip(dl: Dialect, d: DataValue, e: DataValue, v: Native)
    requires Representable(v) && (Integral(TagOf(v)) || TagOf(v) == Blob)
    ensures SetFromText(dl, e, TagOf(v), Literal(dl, Assign(d, v))) == Ok(Assign(e, v))
  {
    LiteralAfterAssign(dl, d, v);
    NativeRoundTrip(dl, v);
  }

  /** The corrected parser reads back the literal of every integer, bool
      or blob value. */
  lemma NativeRoundTrip(dl: Dialect, v: Native)
    requires Representable(v) && (Integral(TagOf(v)) || TagOf(v) == Blob)
    ensures ParseDefault(dl, TagOf(v), NativeLiteral(dl, v)) == Ok(Some(v))
  {
    match v
    case I8(i) => NarrowRoundTrip(dl, v, i);
    case I16(i) => NarrowRoundTrip(dl, v, i);
    case I32(i) => NarrowRoundTrip(dl, v, i);
    case I64(i) =>
      DecimalStoLL(i);
      assert ParseDefault(dl, Int64, Decimal(i)) == Ok(Some(I64(i)));
    case U64(n) =>
      DecimalStoULL(n);
      assert ParseDefault(dl, UInt64, Decimal(n)) == Ok(Some(U64(n)));
    case Boolean(b) => NarrowRoundTrip(dl, v, if b then 1 else 0);
    case Bin(bs) =>
      BlobRoundTrip(bs);
      assert ParseDefault(dl, Blob, BlobText(bs)) == ParseAsWritten(dl, Blob, BlobText(bs));
  }

  /** A tag std::stoi serves: the decimal text of an int32 i that narrows
      to v reads back as v. */
  lemma NarrowRoundTrip(dl: Dialect, v: Native, i: int)
    requires Integral(TagOf(v)) && TagOf(v) != Int64 && TagOf(v) != UInt64
    requires InSigned(i, 4) && Narrow(TagOf(v), i) == v
    ensures ParseDefault(dl, TagOf(v), Decimal(i)) == Ok(Some(v))
  {
    DecimalStoI(i);
    assert ParseDefault(dl, TagOf(v), Decimal(i)) == ParseAsWritten(dl, TagOf(v), Decimal(i));
  }

  /** As written, the INT64 literal 2147483648 (one past the int32 range)
      does not parse back: std::stoi rejects it. */
  lemma BigIntLiteralRejected(dl: Dialect, d: DataValue)
    ensures Representable(I64(0x8000_0000))
    ensures Literal(dl, Assign(d, I64(0x8000_0000))) == Decimal(0x8000_0000)
    ensures ParseAsWritten(dl, Int64, Decimal(0x8000_0000)) == Err(ParseError)
  {
    Pow256Widths();
    LiteralAfterAssign(dl, d, I64(0x8000_0000));
    ParseAsWrittenOutOfRange(dl, Int64, 0x8000_0000);
  }

  /** Any integer literal beyond the 32-bit range is refused as written. */
  lemma ParseAsWrittenOutOfRange(dl: Dialect, t: Tag, v: int)
    requires Integral(t) && !InSigned(v, 4)
    ensures ParseAsWritten(dl, t, Decimal(v)) == Err(ParseError)
  {
    DecimalStoIOutOfRange(v);
  }
}
