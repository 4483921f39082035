/**
 * Data of src/SqliteFetcher.cpp as the object it is: a tag, a declared
 * type text, key flags and a byte buffer that set, change and the
 * default-text parser overwrite in place. Every method is specified by the
 * value-level function of the same operation on Value().
 */
module DataObj {
  import opened Wrappers
  import opened Bytes
  import opened Strings
  import opened Values
  import opened Defaults

  class Data {
    var tag: Tag
    var typeText: string
    var flags: Flags
    var buffer: seq<Byte>

    /** The value this object holds. */
    function Value(): DataValue
      reads this
    {
      DataValue(tag, typeText, flags, buffer)
    }

    /** Data(type text, flags). */
    constructor Declared(dl: Dialect, text: string, flags: Flags)
      ensures Value() == FromDeclared(dl, text, flags)
    {
      this.flags := flags;
      typeText := text;
      tag := NoType;
      buffer := [];
      new;
      SetTypeByName(dl, text);
    }

    /** Data(tag, flags). */
    constructor OfTag(t: Tag, flags: Flags)
      ensures Value() == FromTag(t, flags)
    {
      this.flags := flags;
      typeText := "";
      tag := t;
      buffer := [];
      new;
      SetTypeByTag(t);
    }

    /** Data(value text, type text, flags): the declared type resolved, then
        the text parsed by the resolved tag; Err where the parse throws. */
    static method Parsed(dl: Dialect, value: string, text: string, flags: Flags) returns (r: Result<Data>)
      ensures r.Err? <==> FromText(dl, value, text, flags).Err?
      ensures r.Ok? ==> fresh(r.value) && r.value.Value() == FromText(dl, value, text, flags).value
    {
      var d := new Data.Declared(dl, text, flags);
      var err := d.SetFromText(dl, d.tag, value);
      match err
      case Some(e) => r := Err(e);
      case None => r := Ok(d);
    }

    /** setType(type text): a PRIMARY KEY forces INT64 / "INTEGER";
        otherwise the tag of the first word (cut at '(') in TypeDef, BLOB
        when unknown, with the type text left as it is. */
    method SetTypeByName(dl: Dialect, text: string)
      modifies this
      ensures flags == old(flags) && buffer == old(buffer)
      ensures flags.primaryKey ==> tag == Int64 && typeText == "INTEGER"
      ensures !flags.primaryKey ==> tag == DeclaredTag(dl.typeDef, text) && typeText == old(typeText)
    {
      if flags.primaryKey {
        typeText := "INTEGER";
        tag := Int64;
        return;
      }
      var word := TruncateAt(FirstWord(text), '(');
      if word in dl.typeDef {
        tag := dl.typeDef[word];
      } else {
        tag := Blob;
      }
    }

    /** setType(tag): a PRIMARY KEY forces INT64 / "INTEGER"; otherwise
        only the canonical type text is written, the tag is left as it is. */
    method SetTypeByTag(t: Tag)
      modifies this
      ensures flags == old(flags) && buffer == old(buffer)
      ensures flags.primaryKey ==> tag == Int64 && typeText == "INTEGER"
      ensures !flags.primaryKey ==> tag == old(tag) && typeText == CanonicalName(t)
    {
      if flags.primaryKey {
        typeText := "INTEGER";
        tag := Int64;
        return;
      }
      typeText := CanonicalName(t);
    }

    /** set<T>(v): the memory image of v copied into the buffer (resized to
        its length, or cleared and refilled for text), the tag set to v's. */
    method Set(v: Native)
      modifies this
      ensures Value() == Assign(old(Value()), v)
    {
      var buf;
      if v.Bin? {
        buf := v.bs;
      } else if v.Str? {
        buf := PushChars(v.s);
      } else {
        buf := CopyImage(Encode(v));
      }
      buffer := buf;
      tag := TagOf(v);
    }

    /** The resize-then-copy loop of set(pointer, tag, size). */
    static method CopyImage(image: seq<Byte>) returns (buf: seq<Byte>)
      ensures buf == image
    {
      buf := seq(|image|, _ => 0);
      var k := 0;
      while k < |image|
        invariant 0 <= k <= |image| && |buf| == |image|
        invariant buf[..k] == image[..k]
      {
        buf := buf[k := image[k]];
        k := k + 1;
      }
      assert buf == buf[..k];
    }

    /** The clear-then-push_back loop of set(std::string). */
    static method PushChars(s: string) returns (buf: seq<Byte>)
      ensures buf == BytesOf(s)
    {
      buf := [];
      var k := 0;
      while k < |s|
        invariant 0 <= k <= |s| && buf == BytesOf(s)[..k]
      {
        buf := buf + [(s[k] as int) % 256];
        k := k + 1;
      }
    }

    /** change<T>(v): set<T>(v) when the tag already is v's; otherwise
        false and nothing changes. */
    method Change(v: Native) returns (ok: bool)
      modifies this
      ensures ok <==> old(tag) == TagOf(v)
      ensures Value() == if ok then Assign(old(Value()), v) else old(Value())
    {
      if tag == TagOf(v) {
        Set(v);
        return true;
      }
      return false;
    }

    /** get<T>(into): on a tag match the stored bytes are copied over the
        caller's variable, which is returned with true; on a mismatch false
        and the variable as it was. A buffer wider than the variable (left
        by setType on a filled cell) is copied past its end: undefined. */
    method Get(into: Native) returns (r: Result<(bool, Native)>)
      requires Representable(into)
      ensures tag != TagOf(into) ==> r == Ok((false, into))
      ensures tag == TagOf(into) && Fits(Value()) ==> r == Ok(Read(Value(), into))
      ensures tag == TagOf(into) && !Fits(Value()) ==> r == Err(Overrun)
    {
      if tag != TagOf(into) {
        return Ok((false, into));
      }
      var out;
      if into.Bin? {
        out := Bin(buffer);
      } else if into.Str? {
        var text := PullChars(buffer);
        out := Native.Str(text);
      } else if |buffer| > Width(tag) {
        return Err(Overrun);
      } else {
        var image := OverlayImage(Encode(into), buffer);
        out := Decode(tag, image);
      }
      r := Ok((true, out));
    }

    /** The clear-then-push_back loop of get(std::string&). */
    static method PullChars(bytes: seq<Byte>) returns (text: string)
      ensures text == CharsOf(bytes)
    {
      text := "";
      var k := 0;
      while k < |bytes|
        invariant 0 <= k <= |bytes| && |text| == k
        invariant forall i :: 0 <= i < k ==> text[i] == bytes[i] as char
      {
        text := text + [bytes[k] as char];
        k := k + 1;
      }
    }

    /** The copy loop of get(pointer, tag): the stored bytes written over
        the first bytes of the caller's variable. */
    static method OverlayImage(image: seq<Byte>, bytes: seq<Byte>) returns (r: seq<Byte>)
      requires |bytes| <= |image|
      ensures r == Overlay(image, bytes)
    {
      r := image;
      var k := 0;
      while k < |bytes|
        invariant 0 <= k <= |bytes| && |r| == |image|
        invariant r == bytes[..k] + image[k..]
      {
        r := r[k := bytes[k]];
        k := k + 1;
      }
      assert bytes[..k] == bytes;
    }

    /** str(): the literal of the current value (zero for a buffer never
        filled, the low bytes only for a narrower one), the hex of a blob
        written two digits per byte; undefined where get overruns. */
    method Str(dl: Dialect) returns (r: Result<string>)
      ensures Fits(Value()) ==> r == Ok(Literal(dl, Value()))
      ensures !Fits(Value()) ==> r == Err(Overrun)
    {
      if tag == NoType {
        return Ok("");
      }
      var got := Get(Zero(tag));
      if got.Err? {
        return Err(got.error);
      }
      var s;
      var v := got.value.1;
      match v {
        case Bin(bs) =>
          var hex := "";
          var k := 0;
          while k < |bs|
            invariant 0 <= k <= |bs| && hex == HexText(bs[..k])
          {
            assert bs[..k + 1][..k] == bs[..k];
            hex := hex + HexPair(bs[k]);
            k := k + 1;
          }
          assert bs[..k] == bs;
          s := "X'" + hex + "'";
        case _ =>
          s := NativeLiteral(dl, v);
      }
      r := Ok(s);
    }

    /** One `if (flag) ret += text;` of typeStr. */
    static method AppendIf(ret: string, flag: bool, text: string) returns (r: string)
      ensures r == AppendSelected(ret, [(flag, text)])
    {
      r := ret;
      if flag {
        r := r + text;
      }
    }

    /** The five clauses of typeStr appended one at a time give
        AppendSelected of all of them. */
    static lemma ClausesInTurn(t: string, f: Flags, lit: string, before: string, after: string)
      requires before == AppendSelected(AppendSelected(AppendSelected(AppendSelected(t,
        [(f.primaryKey, " PRIMARY KEY")]), [(f.unique, " UNIQUE")]), [(f.autoIncrement, " AUTO INCREMENT")]),
        [(f.notNull, " NOT NULL")])
      requires after == if f.hasDefault then before + (" DEFAULT " + lit) else before
      ensures after == AppendSelected(t, Clauses(f, lit))
    {
      var cs := Clauses(f, lit);
      var r1 := AppendSelected(t, [cs[0]]);
      assert AppendSelected(t, cs) == AppendSelected(r1, cs[1..]);
      var r2 := AppendSelected(r1, [cs[1]]);
      assert AppendSelected(r1, cs[1..]) == AppendSelected(r2, cs[2..]) by {
        assert cs[1..][1..] == cs[2..];
      }
      var r3 := AppendSelected(r2, [cs[2]]);
      assert AppendSelected(r2, cs[2..]) == AppendSelected(r3, cs[3..]) by {
        assert cs[2..][1..] == cs[3..];
      }
      var r4 := AppendSelected(r3, [cs[3]]);
      assert AppendSelected(r3, cs[3..]) == AppendSelected(r4, cs[4..]) by {
        assert cs[3..][1..] == cs[4..];
      }
      assert r4 == before;
      assert AppendSelected(r4, cs[4..]) == after by {
        assert cs[4..][1..] == [];
      }
    }

    /** typeStr(print_flags): the type text, then one keyword per set flag;
        only DEFAULT reads the buffer, through str(). */
    method TypeStr(dl: Dialect, printFlags: bool) returns (r: Result<string>)
      ensures (printFlags && flags.hasDefault ==> Fits(Value())) ==> r == Ok(Values.TypeStr(dl, Value(), printFlags))
      ensures printFlags && flags.hasDefault && !Fits(Value()) ==> r == Err(Overrun)
    {
      var ret := typeText;
      if printFlags {
        ret := AppendIf(ret, flags.primaryKey, " PRIMARY KEY");
        ret := AppendIf(ret, flags.unique, " UNIQUE");
        ret := AppendIf(ret, flags.autoIncrement, " AUTO INCREMENT");
        ret := AppendIf(ret, flags.notNull, " NOT NULL");
        ghost var before := ret;
        if flags.hasDefault {
          var literal := Str(dl);
          if literal.Err? {
            return Err(literal.error);
          }
          ret := ret + (" DEFAULT " + literal.value);
        }
        ClausesInTurn(typeText, flags, DefaultText(dl, Value()), before, ret);
      }
      r := Ok(ret);
    }

    /** The blob branch of set(tag, text): the hex pair at offsets 2k+2 and
        2k+3 read while 2k+3 < length-1. */
    static method DecodeBlob(text: string) returns (r: Result<seq<Byte>>)
      ensures r == BlobBytes(text)
    {
      if |text| == 0 {
        return Err(Undefined("blob text of length 0"));
      }
      var bs: seq<Byte> := [];
      var k: nat := 0;
      while 2 * k + 3 < |text| - 1
        invariant k <= PairCount(text) && DecodedPairs(text, k) == Ok(bs)
        decreases |text| - 2 * k
      {
        PairCountIsLoopBound(text, k);
        match StoI([text[2 * k + 2], text[2 * k + 3]], 16)
        case None =>
          DecodedPairsErrorStays(text, k + 1, PairCount(text));
          return Err(ParseError);
        case Some(x) =>
          assert 2 * (k + 1) == 2 * k + 2;
          assert DecodedPairs(text, k + 1) == Ok(bs + [ToUnsigned(x, 1)]);
          bs := bs + [ToUnsigned(x, 1)];
        k := k + 1;
      }
      PairCountIsLoopBound(text, k);
      return Ok(bs);
    }

    /** set(tag, text): the text parsed by the given tag and stored; NONE
        stores nothing; where parsing throws the error is returned and the
        object is untouched. */
    method SetFromText(dl: Dialect, t: Tag, text: string) returns (err: Option<Error>)
      modifies this
      ensures Defaults.SetFromText(dl, old(Value()), t, text).Ok? ==>
                err == None && Value() == Defaults.SetFromText(dl, old(Value()), t, text).value
      ensures Defaults.SetFromText(dl, old(Value()), t, text).Err? ==>
                err == Some(Defaults.SetFromText(dl, old(Value()), t, text).error) && Value() == old(Value())
    {
      var parsed: Result<Option<Native>>;
      if t == Blob {
        var bytes := DecodeBlob(text);
        parsed := if bytes.Ok? then Ok(Some(Bin(bytes.value))) else Err(bytes.error);
      } else {
        parsed := ParseDefault(dl, t, text);
      }
      match parsed
      case Err(e) => err := Some(e);
      case Ok(None) => err := None;
      case Ok(Some(v)) => Set(v); err := None;
    }
  }
}
