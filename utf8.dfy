/**
 * UTF-8 as section 3 of RFC 3629 defines it, over Dafny's `char` (a Unicode scalar value).
 * `EncodeString` is the byte encoding that the upload framing writes for the server's prefix
 * and suffix; its length is the byte length the framing reserves for them.
 * `DecodeSequence` is the check decodeURIComponent applies to a group of escaped octets.
 */
module Utf8 {
  import opened Wrappers

  type byte = b: int | 0 <= b < 0x100

  predicate IsScalar(v: int) {
    0 <= v < 0xD800 || 0xE000 <= v < 0x11_0000
  }

  predicate IsContinuation(b: byte) {
    0x80 <= b < 0xC0
  }

  /** Number of octets RFC 3629 uses for code point `v`. */
  function Width(v: int): int {
    if v < 0x80 then 1 else if v < 0x800 then 2 else if v < 0x1_0000 then 3 else 4
  }

  /** Number of octets announced by a leading octet; 0 for an octet that cannot lead. */
  function SequenceLength(b: byte): nat {
    if b < 0x80 then 1
    else if b < 0xC0 then 0
    else if b < 0xE0 then 2
    else if b < 0xF0 then 3
    else if b < 0xF8 then 4
    else 0
  }

  function EncodeChar(c: char): (bs: seq<byte>)
    ensures |bs| == Width(c as int)
    ensures SequenceLength(bs[0]) == |bs|
    ensures forall i :: 1 <= i < |bs| ==> IsContinuation(bs[i])
  {
    var v := c as int;
    if v < 0x80 then [v]
    else if v < 0x800 then [0xC0 + v / 0x40, 0x80 + v % 0x40]
    else if v < 0x1_0000 then [0xE0 + v / 0x1000, 0x80 + v / 0x40 % 0x40, 0x80 + v % 0x40]
    else [0xF0 + v / 0x4_0000, 0x80 + v / 0x1000 % 0x40, 0x80 + v / 0x40 % 0x40, 0x80 + v % 0x40]
  }

  function EncodeString(s: string): (bs: seq<byte>)
  {
    if s == [] then [] else EncodeChar(s[0]) + EncodeString(s[1..])
  }

  /** The code point carried by a complete sequence whose lead and continuations are well formed. */
  function CodePoint(bs: seq<byte>): int
    requires 1 <= |bs| <= 4
  {
    var b0 := bs[0] as int;
    if |bs| == 1 then b0
    else if |bs| == 2 then (b0 - 0xC0) * 0x40 + (bs[1] as int - 0x80)
    else if |bs| == 3 then (b0 - 0xE0) * 0x1000 + (bs[1] as int - 0x80) * 0x40 + (bs[2] as int - 0x80)
    else (b0 - 0xF0) * 0x4_0000 + (bs[1] as int - 0x80) * 0x1000 + (bs[2] as int - 0x80) * 0x40 + (bs[3] as int - 0x80)
  }

  /**
   * Decodes one complete octet sequence: the lead must announce exactly |bs| octets, the others
   * must be continuations, and the value must be a scalar value not encoded overlong.
   */
  function DecodeSequence(bs: seq<byte>): Option<char>
  {
    if |bs| == 0 || SequenceLength(bs[0]) != |bs| then None
    else if exists i :: 1 <= i < |bs| && !IsContinuation(bs[i]) then None
    else
      var v := CodePoint(bs);
      if Width(v) == |bs| && IsScalar(v) then Some(v as char) else None
  }

  /** Decoding the encoding of a character gives the character back. */
  lemma DecodeEncodeChar(c: char)
    ensures DecodeSequence(EncodeChar(c)) == Some(c)
  {
    var v := c as int;
    var bs := EncodeChar(c);
    assert forall i :: 1 <= i < |bs| ==> IsContinuation(bs[i]);
    if v < 0x80 {
    } else if v < 0x800 {
      var q, r := v / 0x40, v % 0x40;
      assert v == q * 0x40 + r;
      assert bs == [0xC0 + q, 0x80 + r];
      assert CodePoint(bs) == v;
    } else if v < 0x1_0000 {
      var q, r := v / 0x40, v % 0x40;
      var q2, r2 := q / 0x40, q % 0x40;
      assert v == q * 0x40 + r && q == q2 * 0x40 + r2;
      assert v / 0x1000 == q2;
      assert bs == [0xE0 + q2, 0x80 + r2, 0x80 + r];
      assert CodePoint(bs) == v;
    } else {
      var q, r := v / 0x40, v % 0x40;
      var q2, r2 := q / 0x40, q % 0x40;
      var q3, r3 := q2 / 0x40, q2 % 0x40;
      assert v == q * 0x40 + r && q == q2 * 0x40 + r2 && q2 == q3 * 0x40 + r3;
      assert v / 0x1000 == q2 && v / 0x4_0000 == q3;
      assert bs == [0xF0 + q3, 0x80 + r3, 0x80 + r2, 0x80 + r];
      assert CodePoint(bs) == v;
    }
  }

  /** Every sequence the decoder accepts is the encoding of what it decodes to. */
  lemma EncodeDecodeSequence(bs: seq<byte>)
    requires DecodeSequence(bs).Some?
    ensures EncodeChar(DecodeSequence(bs).value) == bs
  {
    if |bs| == 2 {
      EncodeDecodeTwo(bs);
    } else if |bs| == 3 {
      EncodeDecodeThree(bs);
    } else if |bs| == 4 {
      EncodeDecodeFour(bs);
    }
  }

  lemma EncodeDecodeTwo(bs: seq<byte>)
    requires |bs| == 2 && DecodeSequence(bs).Some?
    ensures EncodeChar(DecodeSequence(bs).value) == bs
  {
    var v := CodePoint(bs);
    assert IsContinuation(bs[1]);
    var a, b := bs[0] as int - 0xC0, bs[1] as int - 0x80;
    assert 0 <= b < 0x40 && v == a * 0x40 + b;
    assert v / 0x40 == a && v % 0x40 == b;
  }

  lemma EncodeDecodeThree(bs: seq<byte>)
    requires |bs| == 3 && DecodeSequence(bs).Some?
    ensures EncodeChar(DecodeSequence(bs).value) == bs
  {
    var v := CodePoint(bs);
    assert IsContinuation(bs[1]) && IsContinuation(bs[2]);
    var a, b, c := bs[0] as int - 0xE0, bs[1] as int - 0x80, bs[2] as int - 0x80;
    var q := a * 0x40 + b;
    assert 0 <= b < 0x40 && 0 <= c < 0x40 && v == q * 0x40 + c;
    assert v / 0x40 == q && v % 0x40 == c;
    assert q / 0x40 == a && q % 0x40 == b;
    assert v / 0x1000 == a;
  }

  lemma EncodeDecodeFour(bs: seq<byte>)
    requires |bs| == 4 && DecodeSequence(bs).Some?
    ensures EncodeChar(DecodeSequence(bs).value) == bs
  {
    var v := CodePoint(bs);
    assert IsContinuation(bs[1]) && IsContinuation(bs[2]) && IsContinuation(bs[3]);
    var a, b, c, d := bs[0] as int - 0xF0, bs[1] as int - 0x80, bs[2] as int - 0x80, bs[3] as int - 0x80;
    var q2 := a * 0x40 + b;
    var q := q2 * 0x40 + c;
    assert 0 <= b < 0x40 && 0 <= c < 0x40 && 0 <= d < 0x40 && v == q * 0x40 + d;
    assert v / 0x40 == q && v % 0x40 == d;
    assert q / 0x40 == q2 && q % 0x40 == c;
    assert q2 / 0x40 == a && q2 % 0x40 == b;
    assert v / 0x1000 == q2 && v / 0x4_0000 == a;
  }
}
