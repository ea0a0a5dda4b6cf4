/**
 * The simplified application/x-www-form-urlencoded codec of src/common/api.js (section 5.1 of
 * the WHATWG URL Standard is what it approximates): `_decodeFormData` and the body builder of
 * uploadAttachment.
 */
module FormCodec {
  import opened Wrappers
  import opened UriComponent

  /** String.prototype.indexOf for one character. */
  function IndexOf(s: string, ch: char): (r: Option<nat>)
    ensures r.None? <==> ch !in s
    ensures r.Some? ==> r.value < |s| && s[r.value] == ch && ch !in s[..r.value]
  {
    if s == [] then None
    else if s[0] == ch then Some(0)
    else match IndexOf(s[1..], ch)
      case None => None
      case Some(i) =>
        assert s[..i + 1] == [s[0]] + s[1..][..i];
        Some(i + 1)
  }

  /** String.prototype.split with a one-character separator: never empty. */
  function Split(s: string, sep: char): (parts: seq<string>)
    ensures |parts| >= 1
    ensures forall i :: 0 <= i < |parts| ==> sep !in parts[i]
    decreases |s|
  {
    match IndexOf(s, sep)
    case None => [s]
    case Some(i) => [s[..i]] + Split(s[i + 1..], sep)
  }

  /** Array.prototype.join. */
  function Join(parts: seq<string>, sep: char): string
  {
    if |parts| == 0 then ""
    else if |parts| == 1 then parts[0]
    else parts[0] + [sep] + Join(parts[1..], sep)
  }

  /** `.replace(/\+/g, "%20")`. */
  function EscapePlus(s: string): string {
    if s == [] then [] else (if s[0] == '+' then "%20" else [s[0]]) + EscapePlus(s[1..])
  }

  function PlusToSpace(s: string): string {
    if s == [] then [] else [if s[0] == '+' then ' ' else s[0]] + PlusToSpace(s[1..])
  }

  /** The raw key and value of one segment: split at the first '='; without '=', key "" and the whole segment. */
  function RawPair(segment: string): (string, string) {
    match IndexOf(segment, '=')
    case None => ("", segment)
    case Some(i) => (segment[..i], segment[i + 1..])
  }

  /** One segment decoded: the key as it is, the value with '+' read as a space; None for a URIError. */
  function DecodeSegment(segment: string): Option<(string, string)> {
    var (rawKey, rawValue) := RawPair(segment);
    match PercentDecode(rawKey)
    case None => None
    case Some(key) =>
      match PercentDecode(EscapePlus(rawValue))
      case None => None
      case Some(value) => Some((key, value))
  }

  /** Property assignment on a plain object: assigning a string to "__proto__" has no effect. */
  function Assign(m: map<string, string>, key: string, value: string): map<string, string> {
    if key == "__proto__" then m else m[key := value]
  }

  function DecodeSegments(m: map<string, string>, segments: seq<string>): Option<map<string, string>>
    decreases |segments|
  {
    if segments == [] then Some(m)
    else match DecodeSegment(segments[0])
      case None => None
      case Some(kv) => DecodeSegments(Assign(m, kv.0, kv.1), segments[1..])
  }

  /** Reading a property of the decoded object: absent names read as undefined. */
  function Property(data: map<string, string>, name: string): (r: Option<string>)
    ensures r.Some? <==> name in data
    ensures r.Some? ==> r.value == data[name]
  {
    if name in data then Some(data[name]) else None
  }

  /** What `_decodeFormData(body)` returns, or None where it throws a URIError. */
  function DecodeForm(body: string): Option<map<string, string>> {
    DecodeSegments(map[], Split(body, '&'))
  }

  /** `_decodeFormData`: the loop that fills the decoded object segment by segment. */
  method DecodeFormData(body: string) returns (decoded: Option<map<string, string>>)
    ensures decoded == DecodeForm(body)
  {
    var segments := Split(body, '&');
    var m: map<string, string> := map[];
    var i := 0;
    while i < |segments|
      invariant 0 <= i <= |segments|
      invariant DecodeSegments(m, segments[i..]) == DecodeForm(body)
    {
      assert segments[i..][1..] == segments[i + 1..];
      var (rawKey, rawValue) := RawPair(segments[i]);
      var key := PercentDecode(rawKey);
      var value := PercentDecode(EscapePlus(rawValue));
      if key.None? || value.None? {
        return None;
      }
      m := Assign(m, key.value, value.value);
      i := i + 1;
    }
    return Some(m);
  }

  /** "key=" followed by encodeURIComponent(value). */
  function Segment(field: (string, string)): string {
    field.0 + "=" + PercentEncode(field.1)
  }

  function Segments(fields: seq<(string, string)>): (segments: seq<string>)
    ensures |segments| == |fields|
  {
    if fields == [] then [] else [Segment(fields[0])] + Segments(fields[1..])
  }

  /** The form body built from ordered fields. */
  function FormEncode(fields: seq<(string, string)>): string {
    Join(Segments(fields), '&')
  }

  /** The encoding loop of uploadAttachment: push each "key=value" segment, then join with '&'. */
  method EncodeFields(fields: seq<(string, string)>) returns (body: string)
    ensures body == FormEncode(fields)
  {
    var segments: seq<string> := [];
    for i := 0 to |fields|
      invariant segments == Segments(fields[..i])
    {
      SegmentsAppend(fields[..i], fields[i]);
      assert fields[..i + 1] == fields[..i] + [fields[i]];
      segments := segments + [fields[i].0 + "=" + PercentEncode(fields[i].1)];
    }
    assert fields[..|fields|] == fields;
    body := Join(segments, '&');
  }

  lemma {:induction false} SegmentsAppend(fields: seq<(string, string)>, field: (string, string))
    ensures Segments(fields + [field]) == Segments(fields) + [Segment(field)]
  {
    if fields != [] {
      assert (fields + [field])[1..] == fields[1..] + [field];
      SegmentsAppend(fields[1..], field);
    } else {
      assert fields + [field] == [field];
    }
  }

  // ----- properties -----

  /** A key that the decoder reads back as it was written. */
  predicate PlainKey(key: string) {
    '%' !in key && '=' !in key && '&' !in key && key != "__proto__"
  }

  /** The names of the fields, in order. */
  function Keys(fields: seq<(string, string)>): (keys: seq<string>)
    ensures |keys| == |fields| && forall i :: 0 <= i < |fields| ==> keys[i] == fields[i].0
  {
    if fields == [] then [] else [fields[0].0] + Keys(fields[1..])
  }

  /** The object the fields describe: later fields overwrite earlier ones. */
  function FieldMap(m: map<string, string>, fields: seq<(string, string)>): map<string, string>
    decreases |fields|
  {
    if fields == [] then m else FieldMap(m[fields[0].0 := fields[0].1], fields[1..])
  }

  lemma {:induction false} SplitJoin(parts: seq<string>, sep: char)
    requires |parts| >= 1
    requires forall i :: 0 <= i < |parts| ==> sep !in parts[i]
    ensures Split(Join(parts, sep), sep) == parts
  {
    var s := Join(parts, sep);
    if |parts| == 1 {
    } else {
      assert s == parts[0] + [sep] + Join(parts[1..], sep);
      assert s[|parts[0]|] == sep && s[..|parts[0]|] == parts[0];
      assert IndexOf(s, sep) == Some(|parts[0]|);
      assert s[|parts[0]| + 1..] == Join(parts[1..], sep);
      SplitJoin(parts[1..], sep);
    }
  }

  lemma {:induction false} DecodePlusEscapes(s: string)
    requires '%' !in s
    ensures PercentDecode(EscapePlus(s)) == Some(PlusToSpace(s))
  {
    if s != [] {
      assert '%' !in s[1..];
      DecodePlusEscapes(s[1..]);
      var rest := EscapePlus(s[1..]);
      if s[0] == '+' {
        assert EscapePlus(s) == "%20" + rest;
        assert EscapedByte(EscapePlus(s)) == Some(0x20);
        assert EscapePlus(s)[3..] == rest;
      } else {
        assert EscapePlus(s) == [s[0]] + rest;
      }
    }
  }

  /**
   * On a segment without escapes: split at the first '=' (or key "" and the whole segment),
   * the key keeps its '+' characters and the value reads each '+' as a space.
   */
  lemma DecodeSegmentPlain(segment: string)
    requires '%' !in segment
    ensures DecodeSegment(segment) ==
      match IndexOf(segment, '=')
      case None => Some(("", PlusToSpace(segment)))
      case Some(i) => Some((segment[..i], PlusToSpace(segment[i + 1..])))
  {
    match IndexOf(segment, '=')
    case None =>
      assert RawPair(segment) == ("", segment);
      DecodePlainPair("", segment);
    case Some(i) =>
      var rawKey, rawValue := segment[..i], segment[i + 1..];
      assert RawPair(segment) == (rawKey, rawValue);
      assert forall k :: 0 <= k < |rawKey| ==> rawKey[k] == segment[k];
      assert forall k :: 0 <= k < |rawValue| ==> rawValue[k] == segment[i + 1 + k];
      DecodePlainPair(rawKey, rawValue);
  }

  /** Without escapes, a raw key decodes to itself and a raw value with '+' read as a space. */
  lemma DecodePlainPair(rawKey: string, rawValue: string)
    requires '%' !in rawKey && '%' !in rawValue
    ensures PercentDecode(rawKey) == Some(rawKey)
    ensures PercentDecode(EscapePlus(rawValue)) == Some(PlusToSpace(rawValue))
  {
    DecodePlain(rawKey);
    DecodePlusEscapes(rawValue);
  }

  lemma {:induction false} DecodeSegmentsAppend(m: map<string, string>, segments: seq<string>, last: string)
    decreases |segments|
    ensures DecodeSegments(m, segments + [last]) ==
      match DecodeSegments(m, segments)
      case None => None
      case Some(m') =>
        match DecodeSegment(last)
        case None => None
        case Some(kv) => Some(Assign(m', kv.0, kv.1))
  {
    if segments == [] {
      assert segments + [last] == [last];
    } else {
      assert (segments + [last])[1..] == segments[1..] + [last];
      match DecodeSegment(segments[0])
      case None =>
      case Some(kv) => DecodeSegmentsAppend(Assign(m, kv.0, kv.1), segments[1..], last);
    }
  }

  /** A later segment with the same key overwrites what earlier segments stored. */
  lemma LaterDuplicateWins(body: string, last: string, key: string, value: string)
    requires '&' !in last
    requires DecodeForm(body).Some?
    requires DecodeSegment(last) == Some((key, value)) && key != "__proto__"
    ensures DecodeForm(body + "&" + last).Some?
    ensures DecodeForm(body + "&" + last).value == DecodeForm(body).value[key := value]
  {
    var parts := Split(body, '&');
    SplitJoinOf(body, '&');
    SplitJoin(parts + [last], '&');
    JoinAppend(parts, last, '&');
    DecodeSegmentsAppend(map[], parts, last);
  }

  lemma {:induction false} SplitJoinOf(s: string, sep: char)
    ensures Join(Split(s, sep), sep) == s
    decreases |s|
  {
    match IndexOf(s, sep)
    case None =>
    case Some(i) =>
      var rest := Split(s[i + 1..], sep);
      SplitJoinOf(s[i + 1..], sep);
      assert Split(s, sep) == [s[..i]] + rest;
      assert ([s[..i]] + rest)[1..] == rest;
      assert Join(Split(s, sep), sep) == s[..i] + [sep] + Join(rest, sep);
      assert s == s[..i] + [sep] + s[i + 1..];
  }

  lemma {:induction false} JoinAppend(parts: seq<string>, last: string, sep: char)
    requires |parts| >= 1
    ensures Join(parts + [last], sep) == Join(parts, sep) + [sep] + last
  {
    if |parts| > 1 {
      assert (parts + [last])[1..] == parts[1..] + [last];
      JoinAppend(parts[1..], last, sep);
    }
  }

  lemma {:induction false} DecodeSegmentOfField(field: (string, string))
    requires PlainKey(field.0)
    ensures DecodeSegment(Segment(field)) == Some(field)
  {
    var (key, value) := field;
    var s := Segment(field);
    var enc := PercentEncode(value);
    assert s[|key|] == '=' && s[..|key|] == key;
    assert IndexOf(s, '=') == Some(|key|);
    assert s[|key| + 1..] == enc;
    DecodePlain(key);
    EncodedAlphabet(value);
    EscapePlusIdentity(enc);
    DecodeEncode(value);
  }

  lemma {:induction false} EscapePlusIdentity(s: string)
    requires '+' !in s
    ensures EscapePlus(s) == s
  {
    if s != [] {
      assert '+' !in s[1..];
      EscapePlusIdentity(s[1..]);
      assert [s[0]] + s[1..] == s;
    }
  }

  lemma {:induction false} DecodeSegmentsOfFields(m: map<string, string>, fields: seq<(string, string)>)
    requires forall i :: 0 <= i < |fields| ==> PlainKey(fields[i].0)
    ensures DecodeSegments(m, Segments(fields)) == Some(FieldMap(m, fields))
    decreases |fields|
  {
    if fields != [] {
      DecodeSegmentOfField(fields[0]);
      DecodeSegmentsOfFields(m[fields[0].0 := fields[0].1], fields[1..]);
    }
  }

  lemma {:induction false} SegmentHasNoAmpersand(field: (string, string))
    requires PlainKey(field.0)
    ensures '&' !in Segment(field)
  {
    EncodedAlphabet(field.1);
  }

  /** Decoding a non-empty encoded field list gives back the object those fields describe. */
  lemma DecodeFormEncode(fields: seq<(string, string)>)
    requires |fields| >= 1
    requires forall i :: 0 <= i < |fields| ==> PlainKey(fields[i].0)
    ensures DecodeForm(FormEncode(fields)) == Some(FieldMap(map[], fields))
  {
    var segments := Segments(fields);
    forall i | 0 <= i < |segments| ensures '&' !in segments[i] {
      SegmentAt(fields, i);
      SegmentHasNoAmpersand(fields[i]);
    }
    SplitJoin(segments, '&');
    DecodeSegmentsOfFields(map[], fields);
  }

  lemma {:induction false} SegmentAt(fields: seq<(string, string)>, i: nat)
    requires i < |fields|
    ensures Segments(fields)[i] == Segment(fields[i])
  {
    if i > 0 {
      SegmentAt(fields[1..], i - 1);
    }
  }
}
