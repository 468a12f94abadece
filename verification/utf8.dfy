/** The bytes `String.getBytes()` produces, taking UTF-8 as the platform's
    default charset, and a strict decoder that inverts them. */
module Utf8 {
  import opened Wrappers

  type uint8 = x: int | 0 <= x < 0x100

  /** The integers that are Unicode scalar values, i.e. the values of `char`. */
  predicate IsScalar(v: int) {
    0 <= v < 0xD800 || 0xE000 <= v < 0x11_0000
  }

  predicate IsContinuation(b: uint8) {
    0x80 <= b < 0xC0
  }

  /** The one to four bytes that encode a single character. */
  function EncodeChar(c: char): (bs: seq<uint8>)
    ensures 1 <= |bs| <= 4
    ensures c as int < 0x80 ==> bs == [c as int]
    ensures c as int >= 0x80 ==> forall i :: 0 <= i < |bs| ==> bs[i] >= 0x80
  {
    var v := c as int;
    if v < 0x80 then [v]
    else if v < 0x800 then [0xC0 + v / 0x40, 0x80 + v % 0x40]
    else if v < 0x1_0000 then [0xE0 + v / 0x1000, 0x80 + (v / 0x40) % 0x40, 0x80 + v % 0x40]
    else [0xF0 + v / 0x4_0000, 0x80 + (v / 0x1000) % 0x40, 0x80 + (v / 0x40) % 0x40, 0x80 + v % 0x40]
  }

  function Encode(s: string): (bs: seq<uint8>)
    ensures |s| <= |bs| <= 4 * |s|
  {
    if |s| == 0 then [] else EncodeChar(s[0]) + Encode(s[1..])
  }

  /** Reads one character off the front of `bs`, with the number of bytes it took. */
  function DecodeChar(bs: seq<uint8>): (r: Option<(char, nat)>)
    ensures r.Some? ==> 1 <= r.value.1 <= |bs|
  {
    if |bs| == 0 then None
    else if bs[0] < 0x80 then Some((bs[0] as char, 1))
    else if bs[0] < 0xC0 then None
    else if bs[0] < 0xE0 then
      if |bs| < 2 || !IsContinuation(bs[1]) then None
      else
        var v: int := (bs[0] as int - 0xC0) * 0x40 + (bs[1] as int - 0x80);
        if v < 0x80 then None else Some((v as char, 2))
    else if bs[0] < 0xF0 then
      if |bs| < 3 || !IsContinuation(bs[1]) || !IsContinuation(bs[2]) then None
      else
        var v: int := (bs[0] as int - 0xE0) * 0x1000 + (bs[1] as int - 0x80) * 0x40 + (bs[2] as int - 0x80);
        if v < 0x800 || !IsScalar(v) then None else Some((v as char, 3))
    else if bs[0] < 0xF8 then
      if |bs| < 4 || !IsContinuation(bs[1]) || !IsContinuation(bs[2]) || !IsContinuation(bs[3]) then None
      else
        var v: int := (bs[0] as int - 0xF0) * 0x4_0000 + (bs[1] as int - 0x80) * 0x1000
          + (bs[2] as int - 0x80) * 0x40 + (bs[3] as int - 0x80);
        if v < 0x1_0000 || !IsScalar(v) then None else Some((v as char, 4))
    else None
  }

  /** Strict UTF-8 decoding; `None` for any malformed input. */
  function Decode(bs: seq<uint8>): Option<string>
    decreases |bs|
  {
    if |bs| == 0 then Some([])
    else
      match DecodeChar(bs)
      case None => None
      case Some((c, n)) =>
        match Decode(bs[n..])
        case None => None
        case Some(rest) => Some([c] + rest)
  }

  lemma DivMod64(v: nat)
    ensures v == (v / 0x40) * 0x40 + v % 0x40
    ensures (v / 0x40) / 0x40 == v / 0x1000
    ensures (v / 0x1000) / 0x40 == v / 0x4_0000
  {
  }

  lemma DecodeEncodedChar(c: char, rest: seq<uint8>)
    ensures DecodeChar(EncodeChar(c) + rest) == Some((c, |EncodeChar(c)|))
  {
    var v := c as int;
    var bs := EncodeChar(c) + rest;
    if v < 0x80 {
    } else if v < 0x800 {
      DivMod64(v);
      assert bs[0] == 0xC0 + v / 0x40 && bs[1] == 0x80 + v % 0x40;
    } else if v < 0x1_0000 {
      DivMod64(v);
      DivMod64(v / 0x40);
      assert bs[0] == 0xE0 + v / 0x1000 && bs[1] == 0x80 + (v / 0x40) % 0x40 && bs[2] == 0x80 + v % 0x40;
    } else {
      DivMod64(v);
      DivMod64(v / 0x40);
      DivMod64(v / 0x1000);
      assert bs[0] == 0xF0 + v / 0x4_0000 && bs[1] == 0x80 + (v / 0x1000) % 0x40;
      assert bs[2] == 0x80 + (v / 0x40) % 0x40 && bs[3] == 0x80 + v % 0x40;
    }
  }

  /** Decoding undoes `getBytes()`. */
  lemma {:induction false} DecodeEncode(s: string)
    ensures Decode(Encode(s)) == Some(s)
  {
    if |s| > 0 {
      var head := EncodeChar(s[0]);
      var tail := Encode(s[1..]);
      DecodeEncodedChar(s[0], tail);
      assert (head + tail)[|head|..] == tail;
      DecodeEncode(s[1..]);
      assert [s[0]] + s[1..] == s;
    }
  }
}
