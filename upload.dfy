/**
 * uploadAttachment: validation of the attachment, the form-encoded negotiate body, the
 * `exists` short-circuit, the in-place framing of the payload between the server's prefix and
 * suffix, and the registration of the upload.
 */
module Upload {
  import opened Wrappers
  import opened Utf8
  import opened Transport
  import opened UriComponent
  import opened FormCodec
  import opened Credentials

  /**
   * The attachment object. `data` is a typed array (present means truthy, even when empty); the
   * other members are strings that may be missing.
   */
  datatype Attachment = Attachment(
    data: Option<seq<byte>>,
    filename: Option<string>,
    key: Option<string>,
    md5: Option<string>,
    mimeType: Option<string>,
    charset: Option<string>)

  /** The parsed negotiate response; `alreadyStored` is the truthiness of its `exists` member. */
  datatype UploadGrant = UploadGrant(
    alreadyStored: bool,
    url: string,
    contentType: string,
    prefix: string,
    suffix: string,
    uploadKey: Option<string>)

  datatype UploadResult = Uploaded(attachment: Attachment) | UploadFailed(error: Error)

  const RequiredProperties: seq<string> := ["data", "key", "md5", "mimeType"]
  const InvalidKey := "Attachment key is invalid"
  const NoCredentials := "No authorization credentials available"
  const UnparsableResponse := "Error parsing JSON from server"

  function MissingMessage(property: string): string {
    "Required property \"" + property + "\" not defined"
  }

  /** `attachment[property]` is truthy. */
  predicate Defined(a: Attachment, property: string) {
    if property == "data" then a.data.Some?
    else if property == "key" then Truthy(a.key)
    else if property == "md5" then Truthy(a.md5)
    else if property == "mimeType" then Truthy(a.mimeType)
    else false
  }

  /** The first of `properties` the attachment lacks. */
  function FirstMissing(a: Attachment, properties: seq<string>): (r: Option<string>)
    ensures r.None? <==> forall i :: 0 <= i < |properties| ==> Defined(a, properties[i])
    ensures r.Some? ==> exists i :: (0 <= i < |properties| && properties[i] == r.value
      && !Defined(a, properties[i]) && forall j :: 0 <= j < i ==> Defined(a, properties[j]))
  {
    if properties == [] then None
    else if !Defined(a, properties[0]) then Some(properties[0])
    else
      var r := FirstMissing(a, properties[1..]);
      assert r.Some? ==> exists i :: (0 <= i < |properties| && properties[i] == r.value
        && !Defined(a, properties[i]) && forall j :: 0 <= j < i ==> Defined(a, properties[j])) by {
        if r.Some? {
          var i :| 0 <= i < |properties[1..]| && properties[1..][i] == r.value
            && !Defined(a, properties[1..][i]) && forall j :: 0 <= j < i ==> Defined(a, properties[1..][j]);
          assert properties[i + 1] == r.value;
        }
      }
      r
  }

  /** The loop over REQUIRED_PROPERTIES. */
  method MissingProperty(a: Attachment) returns (missing: Option<string>)
    ensures missing == FirstMissing(a, RequiredProperties)
  {
    for i := 0 to |RequiredProperties|
      invariant FirstMissing(a, RequiredProperties) == FirstMissing(a, RequiredProperties[i..])
    {
      assert RequiredProperties[i..][1..] == RequiredProperties[i + 1..];
      if !Defined(a, RequiredProperties[i]) {
        return Some(RequiredProperties[i]);
      }
    }
    return None;
  }

  predicate AsciiAlphanumeric(ch: char) {
    ('a' <= ch <= 'z') || ('A' <= ch <= 'Z') || ('0' <= ch <= '9')
  }

  /** `/[^a-zA-Z0-9]/.test(key)`. */
  function HasInvalidCharacter(key: string): (r: bool)
    ensures r <==> exists i :: 0 <= i < |key| && !AsciiAlphanumeric(key[i])
  {
    if key == [] then false
    else if !AsciiAlphanumeric(key[0]) then true
    else
      var r := HasInvalidCharacter(key[1..]);
      assert r ==> exists i :: 1 <= i < |key| && !AsciiAlphanumeric(key[i]) by {
        if r {
          var i :| 0 <= i < |key[1..]| && !AsciiAlphanumeric(key[1..][i]);
          assert key[i + 1] == key[1..][i];
        }
      }
      assert (exists i :: 1 <= i < |key| && !AsciiAlphanumeric(key[i])) ==> r by {
        if exists i :: 1 <= i < |key| && !AsciiAlphanumeric(key[i]) {
          var i :| 1 <= i < |key| && !AsciiAlphanumeric(key[i]);
          assert key[1..][i - 1] == key[i];
        }
      }
      r
  }

  /** An attachment that passes both checks, so no request is refused locally. */
  predicate PassesValidation(a: Attachment) {
    a.data.Some? && Truthy(a.key) && Truthy(a.md5) && Truthy(a.mimeType) && !HasInvalidCharacter(a.key.value)
  }

  function Digit(d: int): char
    requires 0 <= d < 10
  {
    ('0' as int + d) as char
  }

  /** The number a string of decimal digits denotes, most significant digit first. */
  function DigitsValue(s: string): nat
    requires forall i :: 0 <= i < |s| ==> '0' <= s[i] <= '9'
  {
    if s == [] then 0 else DigitsValue(s[..|s| - 1]) * 10 + (s[|s| - 1] as int - '0' as int)
  }

  /** A number as a JavaScript string: decimal digits that denote it, with no leading zero. */
  function Decimal(n: nat): (s: string)
    ensures |s| >= 1 && forall i :: 0 <= i < |s| ==> '0' <= s[i] <= '9'
    ensures DigitsValue(s) == n
    ensures |s| > 1 ==> s[0] != '0'
  {
    if n < 10 then [Digit(n)]
    else
      var s := Decimal(n / 10) + [Digit(n % 10)];
      assert s[..|s| - 1] == Decimal(n / 10);
      s
  }

  /** The negotiate fields, in insertion order, with `charset` last and only when truthy. */
  function NegotiateFields(a: Attachment, mtime: nat): (fields: seq<(string, string)>)
    requires a.data.Some?
    ensures Keys(fields) == ["md5", "filename", "filesize", "mtime", "contentType"]
                            + (if Truthy(a.charset) then ["charset"] else [])
  {
    [("md5", JsString(a.md5)), ("filename", JsString(a.filename)), ("filesize", Decimal(|a.data.value|)),
     ("mtime", Decimal(mtime)), ("contentType", JsString(a.mimeType))]
    + (if Truthy(a.charset) then [("charset", a.charset.value)] else [])
  }

  /** Every negotiate key is read back by the decoder as it was written. */
  lemma NegotiateKeysPlain(a: Attachment, mtime: nat)
    requires a.data.Some?
    ensures forall i :: 0 <= i < |NegotiateFields(a, mtime)| ==> PlainKey(NegotiateFields(a, mtime)[i].0)
  {
    var fields := NegotiateFields(a, mtime);
    forall i | 0 <= i < |fields| ensures PlainKey(fields[i].0) {
      assert fields[i].0 in {"md5", "filename", "filesize", "mtime", "contentType", "charset"};
    }
  }

  function NegotiateRequest(a: Attachment, mtime: nat, info: UserInfo): Request
    requires PassesValidation(a)
  {
    Request(Post, ItemFile(info.userID, a.key.value), Some(info.secret), Some(FormType), true,
            Text(FormEncode(NegotiateFields(a, mtime))))
  }

  /** The storage POST: the framed bytes, with the server's content type rather than the attachment's. */
  function StorageRequest(info: UserInfo, grant: UploadGrant, data: seq<byte>): Request {
    Request(Post, Storage(grant.url), Some(info.secret), Some(grant.contentType), false,
            Bytes(EncodeString(grant.prefix) + data + EncodeString(grant.suffix)))
  }

  function RegisterRequest(a: Attachment, info: UserInfo, grant: UploadGrant): Request
    requires PassesValidation(a)
  {
    Request(Post, ItemFile(info.userID, a.key.value), Some(info.secret), Some(FormType), true,
            Text("upload=" + JsString(grant.uploadKey)))
  }

  /** Writes `src` into `buf` from `offset` on, as stringToUTF8Array and Uint8Array.set do. */
  method WriteAt(buf: array<byte>, offset: nat, src: seq<byte>)
    requires offset + |src| <= buf.Length
    modifies buf
    ensures forall j :: 0 <= j < buf.Length ==>
      buf[j] == if offset <= j < offset + |src| then src[j - offset] else old(buf[j])
  {
    for i := 0 to |src|
      invariant forall j :: 0 <= j < buf.Length ==>
        buf[j] == if offset <= j < offset + i then src[j - offset] else old(buf[j])
    {
      buf[offset + i] := src[i];
    }
  }

  /**
   * The framing: a buffer of prefix length + data length + suffix length, the prefix's UTF-8 bytes
   * at 0, the data at the prefix length, the suffix's bytes after the data.
   */
  method Frame(prefix: string, data: seq<byte>, suffix: string) returns (buf: array<byte>)
    ensures buf.Length == |EncodeString(prefix)| + |data| + |EncodeString(suffix)|
    ensures buf[..|EncodeString(prefix)|] == EncodeString(prefix)
    ensures buf[|EncodeString(prefix)|..|EncodeString(prefix)| + |data|] == data
    ensures buf[|EncodeString(prefix)| + |data|..] == EncodeString(suffix)
  {
    var head := EncodeString(prefix);
    var tail := EncodeString(suffix);
    buf := new byte[|data| + |head| + |tail|];
    WriteAt(buf, 0, head);
    WriteAt(buf, |head|, data);
    WriteAt(buf, |data| + |head|, tail);
    assert buf[..|head|] == head;
    assert buf[|head|..|head| + |data|] == data;
    assert buf[|head| + |data|..] == tail;
  }

  /**
   * The requests of uploadAttachment once the attachment has passed validation and credentials
   * were found: the negotiate POST, then, unless the file is already stored, the storage POST of
   * the framed bytes and the registration POST. `grant` is the parsed negotiate response (None
   * when it does not parse); the registration accepts any status.
   */
  method Transfer(a: Attachment, mtime: nat, user: UserInfo, negotiateReply: Reply,
                  grant: Option<UploadGrant>, storageReply: Reply, registerReply: Reply)
    returns (r: UploadResult, sent: seq<Request>)
    requires PassesValidation(a)
    ensures |sent| >= 1 && sent[0] == NegotiateRequest(a, mtime, user)
    ensures !Succeeded(negotiateReply) ==> r == UploadFailed(Failure(negotiateReply)) && |sent| == 1
    ensures Succeeded(negotiateReply) && grant.None? ==> r == UploadFailed(Error(UnparsableResponse)) && |sent| == 1
    ensures Succeeded(negotiateReply) && grant.Some? && grant.value.alreadyStored ==> r == Uploaded(a) && |sent| == 1
    ensures Succeeded(negotiateReply) && grant.Some? && !grant.value.alreadyStored ==>
      |sent| >= 2 && sent[1] == StorageRequest(user, grant.value, a.data.value)
      && (!Succeeded(storageReply) ==> r == UploadFailed(Failure(storageReply)) && |sent| == 2)
      && (Succeeded(storageReply) ==>
            sent[2..] == [RegisterRequest(a, user, grant.value)]
            && r == if registerReply.NoReply? then UploadFailed(Failure(NoReply)) else Uploaded(a))
  {
    var body := EncodeFields(NegotiateFields(a, mtime));
    sent := [Request(Post, ItemFile(user.userID, a.key.value), Some(user.secret), Some(FormType), true, Text(body))];
    if !Succeeded(negotiateReply) {
      return UploadFailed(Failure(negotiateReply)), sent;
    }
    if grant.None? {
      return UploadFailed(Error(UnparsableResponse)), sent;
    }
    var response := grant.value;
    if response.alreadyStored {
      return Uploaded(a), sent;
    }
    var delivered;
    r, delivered := Deliver(a, user, response, storageReply, registerReply);
    sent := sent + delivered;
  }

  /**
   * The upload proper, once the server has handed out a storage target: the framed bytes go to
   * the storage URL, then, if that succeeded, the upload key is registered.
   */
  method Deliver(a: Attachment, user: UserInfo, grant: UploadGrant, storageReply: Reply, registerReply: Reply)
    returns (r: UploadResult, sent: seq<Request>)
    requires PassesValidation(a)
    ensures |sent| >= 1 && sent[0] == StorageRequest(user, grant, a.data.value)
    ensures !Succeeded(storageReply) ==> r == UploadFailed(Failure(storageReply)) && |sent| == 1
    ensures Succeeded(storageReply) ==>
      sent[1..] == [RegisterRequest(a, user, grant)]
      && r == if registerReply.NoReply? then UploadFailed(Failure(NoReply)) else Uploaded(a)
  {
    var framed := Frame(grant.prefix, a.data.value, grant.suffix);
    assert framed[..] == EncodeString(grant.prefix) + a.data.value + EncodeString(grant.suffix);
    sent := [Request(Post, Storage(grant.url), Some(user.secret), Some(grant.contentType), false, Bytes(framed[..]))];
    if !Succeeded(storageReply) {
      return UploadFailed(Failure(storageReply)), sent;
    }
    sent := sent + [Request(Post, ItemFile(user.userID, a.key.value), Some(user.secret), Some(FormType), true,
                            Text("upload=" + JsString(grant.uploadKey)))];
    if registerReply.NoReply? {
      return UploadFailed(Failure(registerReply)), sent;
    }
    return Uploaded(a), sent;
  }

  /**
   * uploadAttachment. `info` is what getUserInfo gave; the rest is the environment of `Transfer`.
   * Validation comes first and refuses the attachment before credentials are read or anything is
   * sent.
   */
  method UploadAttachment(a: Attachment, mtime: nat, info: Option<UserInfo>, negotiateReply: Reply,
                          grant: Option<UploadGrant>, storageReply: Reply, registerReply: Reply)
    returns (r: UploadResult, sent: seq<Request>)
    ensures FirstMissing(a, RequiredProperties).Some? ==>
      r == UploadFailed(Error(MissingMessage(FirstMissing(a, RequiredProperties).value))) && sent == []
    ensures FirstMissing(a, RequiredProperties).None? && !PassesValidation(a) ==>
      r == UploadFailed(Error(InvalidKey)) && sent == []
    ensures PassesValidation(a) && info.None? ==> r == UploadFailed(Error(NoCredentials)) && sent == []
    ensures PassesValidation(a) && info.Some? ==> |sent| >= 1 && sent[0] == NegotiateRequest(a, mtime, info.value)
    ensures PassesValidation(a) && info.Some? && !Succeeded(negotiateReply) ==>
      r == UploadFailed(Failure(negotiateReply)) && |sent| == 1
    ensures PassesValidation(a) && info.Some? && Succeeded(negotiateReply) && grant.None? ==>
      r == UploadFailed(Error(UnparsableResponse)) && |sent| == 1
    ensures PassesValidation(a) && info.Some? && Succeeded(negotiateReply) && grant.Some? && grant.value.alreadyStored ==>
      r == Uploaded(a) && |sent| == 1
    ensures PassesValidation(a) && info.Some? && Succeeded(negotiateReply) && grant.Some? && !grant.value.alreadyStored ==>
      |sent| >= 2 && sent[1] == StorageRequest(info.value, grant.value, a.data.value)
      && (!Succeeded(storageReply) ==> r == UploadFailed(Failure(storageReply)) && |sent| == 2)
      && (Succeeded(storageReply) ==>
            sent[2..] == [RegisterRequest(a, info.value, grant.value)]
            && r == if registerReply.NoReply? then UploadFailed(Failure(NoReply)) else Uploaded(a))
  {
    var missing := MissingProperty(a);
    if missing.Some? {
      return UploadFailed(Error(MissingMessage(missing.value))), [];
    }
    assert Defined(a, RequiredProperties[0]) && Defined(a, RequiredProperties[1]);
    assert Defined(a, RequiredProperties[2]) && Defined(a, RequiredProperties[3]);
    if HasInvalidCharacter(a.key.value) {
      return UploadFailed(Error(InvalidKey)), [];
    }
    if info.None? {
      return UploadFailed(Error(NoCredentials)), [];
    }
    r, sent := Transfer(a, mtime, info.value, negotiateReply, grant, storageReply, registerReply);
  }

  // ----- properties -----

  /** A missing md5 is reported by name when data and key are present. */
  lemma MissingMd5Named(a: Attachment)
    requires a.data.Some? && Truthy(a.key) && !Truthy(a.md5)
    ensures FirstMissing(a, RequiredProperties) == Some("md5")
  {
    assert Defined(a, RequiredProperties[0]) && Defined(a, RequiredProperties[1]);
    assert RequiredProperties[2] == "md5" && !Defined(a, RequiredProperties[2]);
    var i :| 0 <= i < |RequiredProperties| && RequiredProperties[i] == FirstMissing(a, RequiredProperties).value
      && !Defined(a, RequiredProperties[i]) && forall j :: 0 <= j < i ==> Defined(a, RequiredProperties[j]);
  }

  /** The server decodes the negotiate body to exactly the negotiate fields. */
  lemma NegotiateBodyDecodes(a: Attachment, mtime: nat)
    requires a.data.Some?
    ensures DecodeForm(FormEncode(NegotiateFields(a, mtime))) == Some(
      var m := map["md5" := JsString(a.md5), "filename" := JsString(a.filename),
                   "filesize" := Decimal(|a.data.value|), "mtime" := Decimal(mtime),
                   "contentType" := JsString(a.mimeType)];
      if Truthy(a.charset) then m["charset" := a.charset.value] else m)
  {
    var fields := NegotiateFields(a, mtime);
    NegotiateKeysPlain(a, mtime);
    DecodeFormEncode(fields);
    var m1 := map["md5" := JsString(a.md5)];
    var m2 := m1["filename" := JsString(a.filename)];
    var m3 := m2["filesize" := Decimal(|a.data.value|)];
    var m4 := m3["mtime" := Decimal(mtime)];
    var m5 := m4["contentType" := JsString(a.mimeType)];
    assert FieldMap(map[], fields) == FieldMap(m1, fields[1..]);
    assert FieldMap(m1, fields[1..]) == FieldMap(m2, fields[2..]);
    assert FieldMap(m2, fields[2..]) == FieldMap(m3, fields[3..]);
    assert FieldMap(m3, fields[3..]) == FieldMap(m4, fields[4..]);
    assert FieldMap(m4, fields[4..]) == FieldMap(m5, fields[5..]);
    if Truthy(a.charset) {
      assert FieldMap(m5, fields[5..]) == FieldMap(m5["charset" := a.charset.value], fields[6..]);
    }
  }

  /**
   * The negotiate body splits into one "name=value" segment per negotiate field, in the fields'
   * order: md5, filename, filesize, mtime, contentType, then charset.
   */
  lemma NegotiateBodyOrder(a: Attachment, mtime: nat)
    requires a.data.Some?
    ensures Split(FormEncode(NegotiateFields(a, mtime)), '&') == Segments(NegotiateFields(a, mtime))
  {
    var fields := NegotiateFields(a, mtime);
    var segments := Segments(fields);
    NegotiateKeysPlain(a, mtime);
    forall i | 0 <= i < |segments| ensures '&' !in segments[i] {
      SegmentAt(fields, i);
      SegmentHasNoAmpersand(fields[i]);
    }
    SplitJoin(segments, '&');
  }
}
