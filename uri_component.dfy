/**
 * encodeURIComponent and decodeURIComponent as section 19.2.6 of ECMA-262 defines them, over
 * strings of Unicode scalar values. Decoding reports every URIError as `None`.
 */
module UriComponent {
  import opened Wrappers
  import opened Utf8

  /** The characters encodeURIComponent leaves as they are: letters, digits and -_.!~*'(). */
  predicate Unreserved(ch: char) {
    ('a' <= ch <= 'z') || ('A' <= ch <= 'Z') || ('0' <= ch <= '9') || ch in "-_.!~*'()"
  }

  function HexValue(ch: char): Option<int> {
    if '0' <= ch <= '9' then Some(ch as int - '0' as int)
    else if 'A' <= ch <= 'F' then Some(ch as int - 'A' as int + 10)
    else if 'a' <= ch <= 'f' then Some(ch as int - 'a' as int + 10)
    else None
  }

  /** The upper-case hexadecimal digit encodeURIComponent writes. */
  function HexDigit(d: int): (ch: char)
    requires 0 <= d < 16
    ensures HexValue(ch) == Some(d) && Unreserved(ch)
  {
    if d < 10 then ('0' as int + d) as char else ('A' as int + d - 10) as char
  }

  function Escape(b: byte): string {
    ['%', HexDigit(b / 16), HexDigit(b % 16)]
  }

  function EscapeAll(bs: seq<byte>): (s: string)
    ensures |s| == 3 * |bs|
  {
    if bs == [] then [] else Escape(bs[0]) + EscapeAll(bs[1..])
  }

  /** The characters encodeURIComponent writes for one character. */
  function EncodeUnit(ch: char): string {
    if Unreserved(ch) then [ch] else EscapeAll(EncodeChar(ch))
  }

  /** encodeURIComponent: unreserved characters stay, every other one becomes its escaped UTF-8 octets. */
  function PercentEncode(s: string): (r: string)
    ensures |r| >= |s|
    ensures (forall i :: 0 <= i < |s| ==> Unreserved(s[i])) ==> r == s
  {
    if s == [] then [] else EncodeUnit(s[0]) + PercentEncode(s[1..])
  }

  /** The octet written as "%XY" at the start of `s`, if `s` starts with such an escape. */
  function EscapedByte(s: string): (r: Option<byte>)
    ensures r.Some? ==> |s| >= 3 && s[0] == '%'
  {
    if |s| >= 3 && s[0] == '%' && HexValue(s[1]).Some? && HexValue(s[2]).Some? then
      Some(HexValue(s[1]).value * 16 + HexValue(s[2]).value)
    else None
  }

  /** `count` escaped continuation octets at the start of `s`. */
  function Continuations(s: string, count: nat): (r: Option<seq<byte>>)
    ensures r.Some? ==> |r.value| == count && |s| >= 3 * count
    ensures r.Some? ==> forall i :: 0 <= i < count ==> IsContinuation(r.value[i])
  {
    if count == 0 then Some([])
    else match EscapedByte(s)
      case None => None
      case Some(b) =>
        if !IsContinuation(b) then None
        else match Continuations(s[3..], count - 1)
          case None => None
          case Some(rest) => Some([b] + rest)
  }

  function Prepend(c: char, r: Option<string>): Option<string> {
    match r
    case None => None
    case Some(t) => Some([c] + t)
  }

  /**
   * decodeURIComponent: a character other than '%' is kept; an escape below 0x80 is that
   * character; an escape of a leading octet must be followed by the escapes of its continuation
   * octets, and together they must form a valid UTF-8 sequence.
   */
  function PercentDecode(s: string): (r: Option<string>)
    ensures r.Some? ==> |r.value| <= |s|
    ensures |s| >= 1 && s[0] == '%' && EscapedByte(s).None? ==> r == None
    decreases |s|
  {
    if s == [] then Some([])
    else if s[0] != '%' then Prepend(s[0], PercentDecode(s[1..]))
    else match EscapedByte(s)
      case None => None
      case Some(b) =>
        if b < 0x80 then Prepend(b as char, PercentDecode(s[3..]))
        else
          var n := SequenceLength(b);
          if n == 0 then None
          else match Continuations(s[3..], n - 1)
            case None => None
            case Some(cont) =>
              match DecodeSequence([b] + cont)
              case None => None
              case Some(c) => Prepend(c, PercentDecode(s[3 * n..]))
  }

  lemma EscapedByteOfEscape(b: byte, rest: string)
    ensures EscapedByte(Escape(b) + rest) == Some(b)
  {
    var s := Escape(b) + rest;
    assert s[0] == '%' && s[1] == HexDigit(b / 16) && s[2] == HexDigit(b % 16);
  }

  /** One step of `Continuations`: an escaped continuation octet, then the rest. */
  lemma ContinuationsStep(s: string, b: byte, count: nat, tail: seq<byte>)
    requires count >= 1 && EscapedByte(s) == Some(b) && IsContinuation(b)
    requires Continuations(s[3..], count - 1) == Some(tail)
    ensures Continuations(s, count) == Some([b] + tail)
  {
  }

  lemma {:induction false} ContinuationsOfEscapes(bs: seq<byte>, rest: string)
    requires forall i :: 0 <= i < |bs| ==> IsContinuation(bs[i])
    ensures Continuations(EscapeAll(bs) + rest, |bs|) == Some(bs)
  {
    if bs != [] {
      var t := EscapeAll(bs[1..]) + rest;
      var s := EscapeAll(bs) + rest;
      assert s == Escape(bs[0]) + t;
      EscapedByteOfEscape(bs[0], t);
      assert s[3..] == t;
      ContinuationsOfEscapes(bs[1..], rest);
      ContinuationsStep(s, bs[0], |bs|, bs[1..]);
      assert [bs[0]] + bs[1..] == bs;
    }
  }

  /** An escape below 0x80 decodes to that character. */
  lemma DecodeAsciiEscape(s: string, b: byte)
    requires EscapedByte(s) == Some(b) && b < 0x80
    ensures PercentDecode(s) == Prepend(b as char, PercentDecode(s[3..]))
  {
  }

  /** An escaped lead octet with its escaped continuations decodes to the character they encode. */
  lemma DecodeSequenceEscape(s: string, b: byte, cont: seq<byte>, c: char)
    requires EscapedByte(s) == Some(b) && 0x80 <= b && SequenceLength(b) > 0
    requires Continuations(s[3..], SequenceLength(b) - 1) == Some(cont)
    requires DecodeSequence([b] + cont) == Some(c)
    ensures PercentDecode(s) == Prepend(c, PercentDecode(s[3 * SequenceLength(b)..]))
  {
  }

  /** The escapes of a character's UTF-8 bytes, then anything, decode to that character first. */
  lemma DecodeEscapedChar(ch: char, rest: string)
    ensures PercentDecode(EscapeAll(EncodeChar(ch)) + rest) == Prepend(ch, PercentDecode(rest))
  {
    var bs := EncodeChar(ch);
    var t := EscapeAll(bs[1..]) + rest;
    var s := EscapeAll(bs) + rest;
    assert s == Escape(bs[0]) + t;
    EscapedByteOfEscape(bs[0], t);
    assert s[3..] == t;
    DecodeEncodeChar(ch);
    if |bs| == 1 {
      DecodeEscapedAscii(ch, s, rest);
    } else {
      ContinuationsOfEscapes(bs[1..], rest);
      assert [bs[0]] + bs[1..] == bs;
      DecodeSequenceEscape(s, bs[0], bs[1..], ch);
      assert s[3 * |bs|..] == rest;
    }
  }

  lemma DecodeEscapedAscii(ch: char, s: string, rest: string)
    requires |EncodeChar(ch)| == 1 && EscapedByte(s) == Some(EncodeChar(ch)[0]) && s[3..] == rest
    ensures PercentDecode(s) == Prepend(ch, PercentDecode(rest))
  {
    var b := EncodeChar(ch)[0];
    assert b == ch as int && b < 0x80;
    DecodeAsciiEscape(s, b);
  }

  /** Decoding what encodeURIComponent wrote for one character, then anything, yields that character first. */
  lemma DecodeUnit(ch: char, rest: string)
    ensures PercentDecode(EncodeUnit(ch) + rest) == Prepend(ch, PercentDecode(rest))
  {
    if Unreserved(ch) {
      var s := EncodeUnit(ch) + rest;
      assert s[0] == ch && s[1..] == rest;
    } else {
      DecodeEscapedChar(ch, rest);
    }
  }

  /** decodeURIComponent undoes encodeURIComponent. */
  lemma {:induction false} DecodeEncode(s: string)
    ensures PercentDecode(PercentEncode(s)) == Some(s)
  {
    if s != [] {
      DecodeUnit(s[0], PercentEncode(s[1..]));
      DecodeEncode(s[1..]);
      assert [s[0]] + s[1..] == s;
    }
  }

  /** encodeURIComponent writes only unreserved characters and '%'. */
  lemma {:induction false} EncodedAlphabet(s: string)
    ensures forall i :: 0 <= i < |PercentEncode(s)| ==>
      Unreserved(PercentEncode(s)[i]) || PercentEncode(s)[i] == '%'
  {
    if s != [] {
      EncodedAlphabet(s[1..]);
      var u := EncodeUnit(s[0]);
      if !Unreserved(s[0]) {
        EscapesAlphabet(EncodeChar(s[0]));
      }
      assert PercentEncode(s) == u + PercentEncode(s[1..]);
    }
  }

  lemma {:induction false} EscapesAlphabet(bs: seq<byte>)
    ensures forall i :: 0 <= i < |EscapeAll(bs)| ==> Unreserved(EscapeAll(bs)[i]) || EscapeAll(bs)[i] == '%'
  {
    if bs != [] {
      EscapesAlphabet(bs[1..]);
      assert EscapeAll(bs) == Escape(bs[0]) + EscapeAll(bs[1..]);
    }
  }

  /** Text without '%' passes through decodeURIComponent unchanged. */
  lemma {:induction false} DecodePlain(s: string)
    requires '%' !in s
    ensures PercentDecode(s) == Some(s)
  {
    if s != [] {
      assert '%' !in s[1..];
      DecodePlain(s[1..]);
      assert [s[0]] + s[1..] == s;
    }
  }

  /** A '%' that does not start a "%XY" escape makes decodeURIComponent throw, whatever plain text precedes it. */
  lemma {:induction false} MalformedEscapeFails(plain: string, rest: string)
    requires '%' !in plain
    requires |rest| >= 1 && rest[0] == '%' && EscapedByte(rest).None?
    ensures PercentDecode(plain + rest) == None
    decreases |plain|
  {
    if plain == [] {
      assert plain + rest == rest;
    } else {
      assert (plain + rest)[1..] == plain[1..] + rest;
      MalformedEscapeFails(plain[1..], rest);
    }
  }
}
