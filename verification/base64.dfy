/** The base64 encoding of section 4 of RFC 4648 (standard alphabet, `=`
    padding, no line breaks), as commons-codec's `Base64.encodeBase64(byte[])`
    produces it, and a strict decoder that accepts exactly the canonical
    encodings. */
module Base64 {
  import opened Wrappers
  import opened Utf8

  /** The character that stands for the 6-bit value `i` (RFC 4648, Table 1). */
  function Symbol(i: int): (c: char)
    requires 0 <= i < 64
  {
    if i < 26 then ('A' as int + i) as char
    else if i < 52 then ('a' as int + (i - 26)) as char
    else if i < 62 then ('0' as int + (i - 52)) as char
    else if i == 62 then '+'
    else '/'
  }

  predicate IsSymbol(c: char) {
    'A' <= c <= 'Z' || 'a' <= c <= 'z' || '0' <= c <= '9' || c == '+' || c == '/'
  }

  /** The 6-bit value a character of the alphabet stands for. */
  function SymbolValue(c: char): (i: int)
    requires IsSymbol(c)
    ensures 0 <= i < 64 && Symbol(i) == c
  {
    if 'A' <= c <= 'Z' then c as int - 'A' as int
    else if 'a' <= c <= 'z' then c as int - 'a' as int + 26
    else if '0' <= c <= '9' then c as int - '0' as int + 52
    else if c == '+' then 62
    else 63
  }

  lemma SymbolValueOfSymbol(i: int)
    requires 0 <= i < 64
    ensures IsSymbol(Symbol(i)) && SymbolValue(Symbol(i)) == i
  {
  }

  /** Four symbols for three bytes. */
  function EncodeTriple(b0: uint8, b1: uint8, b2: uint8): string {
    [Symbol(b0 / 4), Symbol((b0 % 4) * 16 + b1 / 16), Symbol((b1 % 16) * 4 + b2 / 64), Symbol(b2 % 64)]
  }

  function Encode(bs: seq<uint8>): (s: string)
    ensures |s| == 4 * ((|bs| + 2) / 3)
  {
    if |bs| == 0 then ""
    else if |bs| == 1 then [Symbol(bs[0] / 4), Symbol((bs[0] % 4) * 16), '=', '=']
    else if |bs| == 2 then [Symbol(bs[0] / 4), Symbol((bs[0] % 4) * 16 + bs[1] / 16), Symbol((bs[1] % 16) * 4), '=']
    else EncodeTriple(bs[0], bs[1], bs[2]) + Encode(bs[3..])
  }

  /** Three bytes from four symbols. */
  function DecodeQuad(q: string): (r: Option<seq<uint8>>)
    requires |q| == 4
    ensures r.Some? ==> |r.value| == 3
  {
    if IsSymbol(q[0]) && IsSymbol(q[1]) && IsSymbol(q[2]) && IsSymbol(q[3]) then
      var v0, v1, v2, v3 := SymbolValue(q[0]), SymbolValue(q[1]), SymbolValue(q[2]), SymbolValue(q[3]);
      Some([v0 * 4 + v1 / 16, (v1 % 16) * 16 + v2 / 4, (v2 % 4) * 64 + v3])
    else None
  }

  /** The last quantum, which may carry one or two `=`; the bits the padding
      discards must be zero. */
  function DecodeLast(q: string): Option<seq<uint8>>
    requires |q| == 4
  {
    if q[3] != '=' then DecodeQuad(q)
    else if q[2] == '=' then
      if IsSymbol(q[0]) && IsSymbol(q[1]) && SymbolValue(q[1]) % 16 == 0 then
        Some([SymbolValue(q[0]) * 4 + SymbolValue(q[1]) / 16])
      else None
    else if IsSymbol(q[0]) && IsSymbol(q[1]) && IsSymbol(q[2]) && SymbolValue(q[2]) % 4 == 0 then
      var v0, v1, v2 := SymbolValue(q[0]), SymbolValue(q[1]), SymbolValue(q[2]);
      Some([v0 * 4 + v1 / 16, (v1 % 16) * 16 + v2 / 4])
    else None
  }

  function Decode(s: string): Option<seq<uint8>>
    decreases |s|
  {
    if |s| == 0 then Some([])
    else if |s| < 4 then None
    else if |s| == 4 then DecodeLast(s)
    else
      match DecodeQuad(s[..4])
      case None => None
      case Some(head) =>
        match Decode(s[4..])
        case None => None
        case Some(tail) => Some(head + tail)
  }

  lemma DecodeTriple(b0: uint8, b1: uint8, b2: uint8)
    ensures DecodeQuad(EncodeTriple(b0, b1, b2)) == Some([b0, b1, b2])
  {
    var c0, c1, c2, c3 := b0 / 4, (b0 % 4) * 16 + b1 / 16, (b1 % 16) * 4 + b2 / 64, b2 % 64;
    var q := EncodeTriple(b0, b1, b2);
    SymbolValueOfSymbol(c0);
    SymbolValueOfSymbol(c1);
    SymbolValueOfSymbol(c2);
    SymbolValueOfSymbol(c3);
    assert IsSymbol(q[0]) && SymbolValue(q[0]) == c0;
    assert IsSymbol(q[1]) && SymbolValue(q[1]) == c1;
    assert IsSymbol(q[2]) && SymbolValue(q[2]) == c2;
    assert IsSymbol(q[3]) && SymbolValue(q[3]) == c3;
    Join16(b0 % 4, b1 / 16);
    Join4(b1 % 16, b2 / 64);
    assert c0 * 4 + c1 / 16 == b0;
    assert (c1 % 16) * 16 + c2 / 4 == b1;
    assert (c2 % 4) * 64 + c3 == b2;
  }

  lemma DecodeSingle(b0: uint8)
    ensures Decode(Encode([b0])) == Some([b0])
  {
    SymbolValueOfSymbol(b0 / 4);
    SymbolValueOfSymbol((b0 % 4) * 16);
  }

  lemma DecodePair(b0: uint8, b1: uint8)
    ensures Decode(Encode([b0, b1])) == Some([b0, b1])
  {
    var c1, c2 := (b0 % 4) * 16 + b1 / 16, (b1 % 16) * 4;
    SymbolValueOfSymbol(b0 / 4);
    SymbolValueOfSymbol(c1);
    SymbolValueOfSymbol(c2);
    assert c1 / 16 == b0 % 4 && c1 % 16 == b1 / 16;
    assert c2 / 4 == b1 % 16 && c2 % 4 == 0;
  }

  lemma DecodeThree(b0: uint8, b1: uint8, b2: uint8)
    ensures Decode(Encode([b0, b1, b2])) == Some([b0, b1, b2])
  {
    var q := EncodeTriple(b0, b1, b2);
    DecodeTriple(b0, b1, b2);
    assert Encode([b0, b1, b2]) == q + Encode([]) == q;
    assert q[3] == Symbol(b2 % 64) != '=';
    assert Decode(q) == DecodeLast(q) == DecodeQuad(q);
  }

  lemma {:induction false} DecodeEncodeShort(bs: seq<uint8>)
    requires |bs| <= 3
    ensures Decode(Encode(bs)) == Some(bs)
  {
    if |bs| == 1 {
      DecodeSingle(bs[0]);
      assert bs == [bs[0]];
    } else if |bs| == 2 {
      DecodePair(bs[0], bs[1]);
      assert bs == [bs[0], bs[1]];
    } else if |bs| == 3 {
      DecodeThree(bs[0], bs[1], bs[2]);
      assert bs == [bs[0], bs[1], bs[2]];
    }
  }

  /** Decoding undoes encoding. */
  lemma {:induction false} DecodeEncode(bs: seq<uint8>)
    ensures Decode(Encode(bs)) == Some(bs)
    decreases |bs|, 1
  {
    if |bs| <= 3 {
      DecodeEncodeShort(bs);
    } else {
      DecodeEncodeLong(bs);
    }
  }

  lemma {:induction false} DecodeEncodeLong(bs: seq<uint8>)
    requires |bs| > 3
    ensures Decode(Encode(bs)) == Some(bs)
    decreases |bs|, 0
  {
    var head := EncodeTriple(bs[0], bs[1], bs[2]);
    assert Encode(bs) == head + Encode(bs[3..]);
    DecodeTriple(bs[0], bs[1], bs[2]);
    DecodeEncode(bs[3..]);
    DecodeCons(head, Encode(bs[3..]));
    SplitThree(bs);
  }

  lemma SplitThree(bs: seq<uint8>)
    requires |bs| >= 3
    ensures [bs[0], bs[1], bs[2]] + bs[3..] == bs
  {
  }

  /** A full quantum in front of a further non-empty encoding decodes on its own. */
  lemma DecodeCons(head: string, tail: string)
    requires |head| == 4 && |tail| > 0
    ensures Decode(head + tail) ==
      match DecodeQuad(head)
      case None => None
      case Some(h) => (match Decode(tail) case None => None case Some(t) => Some(h + t))
  {
    var s := head + tail;
    assert s[..4] == head && s[4..] == tail;
  }

  lemma EncodeQuad(q: string)
    requires |q| == 4 && DecodeQuad(q).Some?
    ensures var b := DecodeQuad(q).value; EncodeTriple(b[0], b[1], b[2]) == q
  {
    var v0, v1, v2, v3 := SymbolValue(q[0]), SymbolValue(q[1]), SymbolValue(q[2]), SymbolValue(q[3]);
    var b0, b1, b2 := v0 * 4 + v1 / 16, (v1 % 16) * 16 + v2 / 4, (v2 % 4) * 64 + v3;
    assert DecodeQuad(q).value == [b0, b1, b2];
    Join4(v0, v1 / 16);
    Join16(v1 % 16, v2 / 4);
    Join64(v2 % 4, v3);
    assert b0 / 4 == v0;
    assert (b0 % 4) * 16 + b1 / 16 == v1;
    assert (b1 % 16) * 4 + b2 / 64 == v2;
    assert b2 % 64 == v3;
    assert EncodeTriple(b0, b1, b2) == [Symbol(v0), Symbol(v1), Symbol(v2), Symbol(v3)];
  }

  lemma Join4(hi: int, lo: int)
    requires 0 <= lo < 4
    ensures (hi * 4 + lo) / 4 == hi && (hi * 4 + lo) % 4 == lo
  {
  }

  lemma Join16(hi: int, lo: int)
    requires 0 <= lo < 16
    ensures (hi * 16 + lo) / 16 == hi && (hi * 16 + lo) % 16 == lo
  {
  }

  lemma Join64(hi: int, lo: int)
    requires 0 <= lo < 64
    ensures (hi * 64 + lo) / 64 == hi && (hi * 64 + lo) % 64 == lo
  {
  }

  lemma EncodeOnePadded(q: string)
    requires |q| == 4 && q[3] == '=' && q[2] == '=' && DecodeLast(q).Some?
    ensures Encode(DecodeLast(q).value) == q
  {
    var v0, v1 := SymbolValue(q[0]), SymbolValue(q[1]);
    var b0 := v0 * 4 + v1 / 16;
    assert DecodeLast(q).value == [b0];
    assert b0 / 4 == v0 && (b0 % 4) * 16 == v1;
  }

  lemma EncodeTwoPadded(q: string)
    requires |q| == 4 && q[3] == '=' && q[2] != '=' && DecodeLast(q).Some?
    ensures Encode(DecodeLast(q).value) == q
  {
    var v0, v1, v2 := SymbolValue(q[0]), SymbolValue(q[1]), SymbolValue(q[2]);
    var b0, b1 := v0 * 4 + v1 / 16, (v1 % 16) * 16 + v2 / 4;
    assert DecodeLast(q).value == [b0, b1];
    assert b0 / 4 == v0 && b0 % 4 == v1 / 16;
    assert b1 / 16 == v1 % 16 && (b1 % 16) * 4 == v2;
  }

  /** Only canonical encodings decode: whatever decodes is the encoding of
      what it decodes to. */
  lemma {:induction false} EncodeDecode(s: string)
    requires Decode(s).Some?
    ensures Encode(Decode(s).value) == s
  {
    if |s| == 4 {
      if s[3] != '=' {
        EncodeQuad(s);
      } else if s[2] == '=' {
        EncodeOnePadded(s);
      } else {
        EncodeTwoPadded(s);
      }
    } else if |s| > 4 {
      var head := DecodeQuad(s[..4]).value;
      var tail := Decode(s[4..]).value;
      EncodeQuad(s[..4]);
      EncodeDecode(s[4..]);
      var bs := head + tail;
      assert bs[3..] == tail;
      assert |tail| > 0;
      assert s == s[..4] + s[4..];
    }
  }

  /** The edges of each range of the alphabet of Table 1 of RFC 4648. */
  lemma AlphabetTable()
    ensures Symbol(0) == 'A' && Symbol(25) == 'Z' && Symbol(26) == 'a' && Symbol(51) == 'z'
    ensures Symbol(52) == '0' && Symbol(61) == '9' && Symbol(62) == '+' && Symbol(63) == '/'
  {
  }

  /** The test vectors of section 10 of RFC 4648: "f", "fo" and "foobar". */
  lemma EncodeTestVectors()
    ensures Encode([102]) == "Zg=="
    ensures Encode([102, 111]) == "Zm8="
    ensures Encode([102, 111, 111, 98, 97, 114]) == "Zm9vYmFy"
  {
    EncodeFoo();
    EncodeBar();
    var bs: seq<uint8> := [102, 111, 111, 98, 97, 114];
    assert bs[3..] == [98, 97, 114] && bs[3..][3..] == [];
    assert Encode(bs) == EncodeTriple(102, 111, 111) + Encode(bs[3..]);
  }

  lemma EncodeFoo()
    ensures EncodeTriple(102, 111, 111) == "Zm9v"
  {
    assert Symbol(25) == 'Z' && Symbol(38) == 'm' && Symbol(61) == '9' && Symbol(47) == 'v';
  }

  lemma EncodeBar()
    ensures Encode([98, 97, 114]) == "YmFy"
  {
    var bs: seq<uint8> := [98, 97, 114];
    assert bs[3..] == [];
    assert Symbol(24) == 'Y' && Symbol(38) == 'm' && Symbol(5) == 'F' && Symbol(50) == 'y';
    assert EncodeTriple(98, 97, 114) == "YmFy";
  }
}
