/**
  The signed upload request of `TransloaditTask.postData`: the `params`
  object, its signature, the caller's fields and the file, framed as
  multipart/form-data, with the `Content-Type` and `Content-Length` headers.
  The boundary (`NSUUID().UUIDString`) and the `expires` text (the clock
  plus 120 minutes) are parameters; JSON serialisation and HMAC-SHA1 are
  function parameters.
 */
module TransloaditTask {
  import opened Bytes
  import opened Wrappers
  import opened Json
  import opened Multipart
  import Signing
  import Hex
  import Decimal

  /** The account: the public API key and the secret key that signs. */
  datatype Credentials = Credentials(apiKey: string, secretKey: string)

  /** One extra form field, name and value as their UTF-8 octets. */
  datatype Field = Field(name: seq<uint8>, value: seq<uint8>)

  /**
    One call's input. `fields` lists the dictionary's entries in its
    iteration order, None when the caller passes nil; the filename is its
    UTF-8 octets.
   */
  datatype Upload = Upload(fileData: seq<uint8>, filename: seq<uint8>, fields: Option<seq<Field>>, templateId: string)

  /** The POST as configured before it is sent. */
  datatype Request = Request(httpMethod: string, contentType: string, contentLength: string, body: seq<uint8>, timeout: real)

  /** `NSJSONSerialization.dataWithJSONObject`: the octets, or None when it throws. */
  type Serializer = Json -> Option<seq<uint8>>

  /** A digit `UUIDString` prints: unlike `%02x`, it uses uppercase A-F. */
  predicate IsUpperHexDigit(c: char) {
    '0' <= c <= '9' || 'A' <= c <= 'F'
  }

  /** The shape of `NSUUID().UUIDString`: 8-4-4-4-12 uppercase hex digits. */
  predicate IsUuidString(s: string) {
    |s| == 36 &&
    forall i :: 0 <= i < |s| ==>
      if i == 8 || i == 13 || i == 18 || i == 23 then s[i] == '-' else IsUpperHexDigit(s[i])
  }

  /** The field names of the two signed parts. */
  const ParamsName: seq<uint8> := Ascii("params")
  const SignatureName: seq<uint8> := Ascii("signature")

  /** The `params` object Transloadit requires: template, auth (expiry, key), blocking. */
  function SignedParams(templateId: string, expires: string, apiKey: string): Json {
    Object(map[
      "template_id" := Str(templateId),
      "auth" := Object(map["expires" := Str(expires), "key" := Str(apiKey)]),
      "blocking" := Str("true")])
  }

  /** The serialised params are ASCII whenever serialisation succeeds. */
  predicate SerializesToAscii(serialize: Serializer, params: Json) {
    serialize(params).Some? ==> IsAscii(serialize(params).value)
  }

  /**
    The inputs on which `postData` builds a request without trapping: the
    signing step, reached only when serialisation succeeds, forces both the
    secret key and the serialised params through
    `cStringUsingEncoding(NSASCIIStringEncoding)!`. A UUID-shaped boundary
    is ASCII, so its octets are its characters' codes.
   */
  predicate Admissible(creds: Credentials, serialize: Serializer, boundary: string, expires: string, upload: Upload) {
    && IsUuidString(boundary)
    && (serialize(SignedParams(upload.templateId, expires, creds.apiKey)).Some? ==> IsAsciiText(creds.secretKey))
    && SerializesToAscii(serialize, SignedParams(upload.templateId, expires, creds.apiKey))
  }

  /** The `params` and `signature` parts, or none when serialisation threw. */
  function SignedParts(hmac: Signing.Hmac, secretKey: string, params: Option<seq<uint8>>): seq<FormPart>
    requires params.Some? ==> IsAsciiText(secretKey) && IsAscii(params.value)
  {
    match params
    case None => []
    case Some(p) =>
      [FormPart(ParamsName, None, p),
       FormPart(SignatureName, None, Ascii(Signing.Sign(hmac, secretKey, p)))]
  }

  /** One part per extra field, in iteration order. */
  function FieldParts(fields: seq<Field>): seq<FormPart> {
    seq(|fields|, i requires 0 <= i < |fields| => FormPart(fields[i].name, None, fields[i].value))
  }

  lemma FieldPartsSnoc(fields: seq<Field>, i: nat)
    requires i < |fields|
    ensures FieldParts(fields[..i + 1]) == FieldParts(fields[..i]) + [FormPart(fields[i].name, None, fields[i].value)]
  {
    var l, r := FieldParts(fields[..i + 1]), FieldParts(fields[..i]) + [FormPart(fields[i].name, None, fields[i].value)];
    assert |l| == |r|;
    forall k | 0 <= k < |l| ensures l[k] == r[k] {
      assert fields[..i + 1][k] == fields[k];
    }
  }

  /** The file part: the filename is both its field name and its filename. */
  function FilePart(filename: seq<uint8>, fileData: seq<uint8>): FormPart {
    FormPart(filename, Some(filename), fileData)
  }

  /** All parts of the body in the order they are written. */
  function RequestParts(hmac: Signing.Hmac, secretKey: string, params: Option<seq<uint8>>,
                        fields: Option<seq<Field>>, filename: seq<uint8>, fileData: seq<uint8>): seq<FormPart>
    requires params.Some? ==> IsAsciiText(secretKey) && IsAscii(params.value)
  {
    SignedParts(hmac, secretKey, params) + FieldParts(fields.GetOr([])) + [FilePart(filename, fileData)]
  }

  /** The parts of the request `postData` builds for this call. */
  function UploadParts(creds: Credentials, hmac: Signing.Hmac, serialize: Serializer,
                       boundary: string, expires: string, upload: Upload): seq<FormPart>
    requires Admissible(creds, serialize, boundary, expires, upload)
  {
    RequestParts(hmac, creds.secretKey, serialize(SignedParams(upload.templateId, expires, creds.apiKey)),
                 upload.fields, upload.filename, upload.fileData)
  }

  /**
    The request `postData` sends to the worker's `/assemblies` endpoint:
    a POST with the client's `defaultTimeoutValue` as its timeout, whose `Content-Type` names the boundary
    and whose `Content-Length` is the decimal length of the body.
   */
  function BuildRequest(creds: Credentials, hmac: Signing.Hmac, serialize: Serializer,
                        boundary: string, expires: string, upload: Upload, timeout: real): (r: Request)
    requires Admissible(creds, serialize, boundary, expires, upload)
    ensures r.httpMethod == "POST" && r.timeout == timeout
    ensures r.contentType == "multipart/form-data; boundary=" + boundary
    ensures Decimal.Parse(r.contentLength) == Some(|r.body|)
    ensures Decimal.IsCanonical(r.contentLength)
  {
    var body := Body(Ascii(boundary), UploadParts(creds, hmac, serialize, boundary, expires, upload));
    Decimal.ParseEncode(|body|);
    Request("POST", "multipart/form-data; boundary=" + boundary, Decimal.Encode(|body|), body, timeout)
  }

  /** The field loop of `postData`: appends one framed part per field to `body`. */
  method AppendFields(boundary: seq<uint8>, fields: seq<Field>, body: seq<uint8>) returns (out: seq<uint8>)
    ensures out == body + Parts(boundary, FieldParts(fields))
  {
    out := body;
    for i := 0 to |fields|
      invariant out == body + Parts(boundary, FieldParts(fields[..i]))
    {
      var part := FormPart(fields[i].name, None, fields[i].value);
      FieldPartsSnoc(fields, i);
      PartsAppend(boundary, FieldParts(fields[..i]), [part]);
      out := out + Encapsulation(boundary, part);
    }
    assert fields[..|fields|] == fields;
  }

  /** A part appended in three steps, header, content and line break, is its framing. */
  lemma AppendedInPieces(boundary: seq<uint8>, prefix: seq<uint8>, p: FormPart)
    ensures prefix + Header(boundary, p) + p.content + CRLF == prefix + Parts(boundary, [p])
  {
  }

  /**
    The do-block of `postData`: the params header, the params octets and a
    line break, then the signature part; nothing when serialisation threw.
   */
  method AppendSignedParts(hmac: Signing.Hmac, secretKey: string, boundary: seq<uint8>, params: Option<seq<uint8>>)
    returns (body: seq<uint8>)
    requires params.Some? ==> IsAsciiText(secretKey) && IsAscii(params.value)
    ensures body == Parts(boundary, SignedParts(hmac, secretKey, params))
  {
    body := [];
    if params.Some? {
      var json := params.value;
      var signed := SignedParts(hmac, secretKey, params);
      body := body + Header(boundary, FormPart(ParamsName, None, json));
      body := body + json;
      body := body + CRLF;
      AppendedInPieces(boundary, [], signed[0]);
      var sig := Signing.Sign(hmac, secretKey, json);
      body := body + Encapsulation(boundary, FormPart(SignatureName, None, Ascii(sig)));
      assert signed == [signed[0]] + [signed[1]];
      PartsAppend(boundary, [signed[0]], [signed[1]]);
    }
  }

  /** The tail of `postData`'s body: the file header, the file octets, a line break, the closing line. */
  method AppendFilePart(boundary: seq<uint8>, body: seq<uint8>, filename: seq<uint8>, fileData: seq<uint8>)
    returns (out: seq<uint8>)
    ensures out == body + Parts(boundary, [FilePart(filename, fileData)]) + CloseDelimiter(boundary)
  {
    var file := FilePart(filename, fileData);
    out := body + Header(boundary, file);
    out := out + fileData;
    out := out + CRLF;
    AppendedInPieces(boundary, body, file);
    out := out + CloseDelimiter(boundary);
  }

  /**
    The body as `postData` appends it, statement by statement: the params
    header, the params octets and a line break; the signature part; one
    part per field; the file header, the file octets and a line break; the
    closing delimiter.
   */
  method AppendBody(hmac: Signing.Hmac, secretKey: string, boundaryString: string, params: Option<seq<uint8>>,
                    fields: Option<seq<Field>>, filename: seq<uint8>, fileData: seq<uint8>)
    returns (body: seq<uint8>)
    requires IsAsciiText(boundaryString)
    requires params.Some? ==> IsAsciiText(secretKey) && IsAscii(params.value)
    ensures body == Body(Ascii(boundaryString), RequestParts(hmac, secretKey, params, fields, filename, fileData))
  {
    var b := Ascii(boundaryString);
    var signed := AppendSignedParts(hmac, secretKey, b, params);
    var fs := fields.GetOr([]);
    var withFields := signed;
    if fields.Some? {
      withFields := AppendFields(b, fs, signed);
    }
    body := AppendFilePart(b, withFields, filename, fileData);
    var sp := SignedParts(hmac, secretKey, params);
    PartsAppend(b, sp, FieldParts(fs));
    PartsAppend(b, sp + FieldParts(fs), [FilePart(filename, fileData)]);
  }

  /** The header block of a named, non-file part, spelled out from the format string. */
  function SimpleHeader(boundaryString: string, name: seq<uint8>): seq<uint8>
    requires IsAsciiText(boundaryString)
  {
    Dashes + Ascii(boundaryString) + CRLF + DispositionStart + name + Quote + CRLF + CRLF
  }

  /** The header block of the file part, spelled out from its format string. */
  function FileHeader(boundaryString: string, filename: seq<uint8>): seq<uint8>
    requires IsAsciiText(boundaryString)
  {
    Dashes + Ascii(boundaryString) + CRLF + DispositionStart + filename + Quote
      + FilenameStart + filename + Quote + CRLF + CRLF
  }

  lemma SimpleHeaderIsHeader(boundary: string, name: seq<uint8>, content: seq<uint8>)
    requires IsAsciiText(boundary)
    ensures Header(Ascii(boundary), FormPart(name, None, content)) == SimpleHeader(boundary, name)
  {
    assert Disposition(FormPart(name, None, content)) == DispositionStart + name + Quote;
  }

  lemma FileHeaderIsHeader(boundary: string, filename: seq<uint8>, content: seq<uint8>)
    requires IsAsciiText(boundary)
    ensures Header(Ascii(boundary), FilePart(filename, content)) == FileHeader(boundary, filename)
  {
    assert Disposition(FilePart(filename, content))
        == DispositionStart + filename + Quote + (FilenameStart + filename + Quote);
  }

  /** The parts of a request, in order: params and signature when serialisation succeeds, the fields, the file. */
  lemma PartsInOrder(creds: Credentials, hmac: Signing.Hmac, serialize: Serializer,
                     boundary: string, expires: string, upload: Upload)
    requires Admissible(creds, serialize, boundary, expires, upload)
    ensures var ps := UploadParts(creds, hmac, serialize, boundary, expires, upload);
            var params := serialize(SignedParams(upload.templateId, expires, creds.apiKey));
            var fs := upload.fields.GetOr([]);
            var s := if params.Some? then 2 else 0;
            && |ps| == s + |fs| + 1
            && (params.Some? ==>
                  && ps[0] == FormPart(ParamsName, None, params.value)
                  && ps[1] == FormPart(SignatureName, None,
                                       Ascii(Signing.Sign(hmac, creds.secretKey, params.value))))
            && (forall i :: 0 <= i < |fs| ==> ps[s + i] == FormPart(fs[i].name, None, fs[i].value))
            && ps[s + |fs|] == FormPart(upload.filename, Some(upload.filename), upload.fileData)
  {
  }

  /**
    With params serialised to `p`, the body opens with the `params` part:
    `--boundary`, its `Content-Disposition` line, an empty line, `p` verbatim
    and a line break.
   */
  lemma BodyBeginsWithParams(creds: Credentials, hmac: Signing.Hmac, serialize: Serializer,
                             boundary: string, expires: string, upload: Upload, timeout: real, p: seq<uint8>)
    requires Admissible(creds, serialize, boundary, expires, upload)
    requires serialize(SignedParams(upload.templateId, expires, creds.apiKey)) == Some(p)
    ensures var body := BuildRequest(creds, hmac, serialize, boundary, expires, upload, timeout).body;
            var h := SimpleHeader(boundary, ParamsName);
            && |h| + |p| + 2 <= |body|
            && body[..|h|] == h
            && body[|h|..|h| + |p|] == p
            && body[|h| + |p|..|h| + |p| + 2] == CRLF
  {
    var b := Ascii(boundary);
    var ps := UploadParts(creds, hmac, serialize, boundary, expires, upload);
    var body := Body(b, ps);
    PartsInOrder(creds, hmac, serialize, boundary, expires, upload);
    FirstPart(b, ps);
  }

  /**
    The signature part follows the params part directly; its value is the
    40-digit lowercase hex of HMAC-SHA1 of the params octets under the
    secret key.
   */
  lemma SignatureFollowsParams(creds: Credentials, hmac: Signing.Hmac, serialize: Serializer,
                               boundary: string, expires: string, upload: Upload, timeout: real, p: seq<uint8>)
    requires Admissible(creds, serialize, boundary, expires, upload)
    requires serialize(SignedParams(upload.templateId, expires, creds.apiKey)) == Some(p)
    ensures var body := BuildRequest(creds, hmac, serialize, boundary, expires, upload, timeout).body;
            var k := |SimpleHeader(boundary, ParamsName)| + |p| + 2;
            var sig := Signing.Sign(hmac, creds.secretKey, p);
            var part := SimpleHeader(boundary, SignatureName) + Ascii(sig) + CRLF;
            && k + |part| <= |body|
            && body[k..k + |part|] == part
            && |sig| == 40
            && Hex.IsLowerHex(sig)
            && Hex.Decode(sig) == Some(hmac(Ascii(creds.secretKey), p))
  {
    var b := Ascii(boundary);
    var ps := UploadParts(creds, hmac, serialize, boundary, expires, upload);
    PartsInOrder(creds, hmac, serialize, boundary, expires, upload);
    var sig := Signing.Sign(hmac, creds.secretKey, p);
    SimpleHeaderIsHeader(boundary, ParamsName, p);
    SimpleHeaderIsHeader(boundary, SignatureName, Ascii(sig));
    SecondPart(b, ps);
  }

  /**
    When serialising the params throws, neither the params part nor the
    signature part is written: the body opens with the first field part, or
    with the file part when there are no fields, and holds one part per
    field plus the file part.
   */
  lemma SerializationFailureSkipsSignedParts(creds: Credentials, hmac: Signing.Hmac, serialize: Serializer,
                                             boundary: string, expires: string, upload: Upload, timeout: real)
    requires Admissible(creds, serialize, boundary, expires, upload)
    requires serialize(SignedParams(upload.templateId, expires, creds.apiKey)).None?
    ensures var body := BuildRequest(creds, hmac, serialize, boundary, expires, upload, timeout).body;
            var fs := upload.fields.GetOr([]);
            var first := if |fs| > 0 then SimpleHeader(boundary, fs[0].name) + fs[0].value + CRLF
                         else FileHeader(boundary, upload.filename) + upload.fileData + CRLF;
            && |UploadParts(creds, hmac, serialize, boundary, expires, upload)| == |fs| + 1
            && |first| <= |body| && body[..|first|] == first
  {
    var b := Ascii(boundary);
    var ps := UploadParts(creds, hmac, serialize, boundary, expires, upload);
    PartsInOrder(creds, hmac, serialize, boundary, expires, upload);
    FirstPart(b, ps);
    var fs := upload.fields.GetOr([]);
    if |fs| > 0 {
      SimpleHeaderIsHeader(boundary, fs[0].name, fs[0].value);
    } else {
      FileHeaderIsHeader(boundary, upload.filename, upload.fileData);
    }
  }

  /**
    Field `i` is written as one part, `--boundary`, a `Content-Disposition`
    line naming it, an empty line, its value verbatim and a line break, at
    the offset after the signed parts and the fields before it.
   */
  lemma FieldPartsFramed(creds: Credentials, hmac: Signing.Hmac, serialize: Serializer,
                         boundary: string, expires: string, upload: Upload, timeout: real, i: nat)
    requires Admissible(creds, serialize, boundary, expires, upload)
    requires i < |upload.fields.GetOr([])|
    ensures var body := BuildRequest(creds, hmac, serialize, boundary, expires, upload, timeout).body;
            var ps := UploadParts(creds, hmac, serialize, boundary, expires, upload);
            var s := if serialize(SignedParams(upload.templateId, expires, creds.apiKey)).Some? then 2 else 0;
            var f := upload.fields.GetOr([])[i];
            var part := SimpleHeader(boundary, f.name) + f.value + CRLF;
            var o := Offset(Ascii(boundary), ps, s + i);
            s + i < |ps| && o + |part| <= |body| && body[o..o + |part|] == part
  {
    var b := Ascii(boundary);
    var ps := UploadParts(creds, hmac, serialize, boundary, expires, upload);
    var s := if serialize(SignedParams(upload.templateId, expires, creds.apiKey)).Some? then 2 else 0;
    PartsInOrder(creds, hmac, serialize, boundary, expires, upload);
    var f := upload.fields.GetOr([])[i];
    assert ps[s + i] == FormPart(f.name, None, f.value);
    SimpleHeaderIsHeader(boundary, f.name, f.value);
    PartAt(b, ps, s + i);
  }

  /**
    The file part carries the filename as both `name` and `filename`, then
    the file octets verbatim and a line break; what follows it, the last
    octets of the body, is exactly `--boundary--` and a line break.
   */
  lemma FilePartThenClose(creds: Credentials, hmac: Signing.Hmac, serialize: Serializer,
                          boundary: string, expires: string, upload: Upload, timeout: real)
    requires Admissible(creds, serialize, boundary, expires, upload)
    ensures var body := BuildRequest(creds, hmac, serialize, boundary, expires, upload, timeout).body;
            var ps := UploadParts(creds, hmac, serialize, boundary, expires, upload);
            var o := Offset(Ascii(boundary), ps, |ps| - 1);
            var h := FileHeader(boundary, upload.filename);
            var d := upload.fileData;
            && o + |h| + |d| + 2 <= |body|
            && body[o..o + |h|] == h
            && body[o + |h|..o + |h| + |d|] == d
            && body[o + |h| + |d|..o + |h| + |d| + 2] == CRLF
            && body[o + |h| + |d| + 2..] == Dashes + Ascii(boundary) + Dashes + CRLF
  {
    var b := Ascii(boundary);
    var ps := UploadParts(creds, hmac, serialize, boundary, expires, upload);
    var body := Body(b, ps);
    PartsInOrder(creds, hmac, serialize, boundary, expires, upload);
    var last := |ps| - 1;
    assert ps[last] == FilePart(upload.filename, upload.fileData);
    FileHeaderIsHeader(boundary, upload.filename, upload.fileData);
    ContentAt(b, ps, last);
    NextOffset(b, ps, last);
    CloseOffset(b, ps);
    EndsWithClose(b, ps);
  }

  /**
    One boundary throughout: the `Content-Type` header names it, every part
    opens with `--` and it, and the body closes with `--`, it and `--`.
   */
  lemma OneBoundaryThroughout(creds: Credentials, hmac: Signing.Hmac, serialize: Serializer,
                              boundary: string, expires: string, upload: Upload, timeout: real)
    requires Admissible(creds, serialize, boundary, expires, upload)
    ensures var r := BuildRequest(creds, hmac, serialize, boundary, expires, upload, timeout);
            var ps := UploadParts(creds, hmac, serialize, boundary, expires, upload);
            var d := Dashes + Ascii(boundary);
            var close := d + Dashes + CRLF;
            && r.contentType == "multipart/form-data; boundary=" + boundary
            && (forall i :: 0 <= i < |ps| ==>
                  Offset(Ascii(boundary), ps, i) + |d| <= |r.body|
                  && r.body[Offset(Ascii(boundary), ps, i)..Offset(Ascii(boundary), ps, i) + |d|] == d)
            && |close| <= |r.body| && r.body[|r.body| - |close|..] == close
  {
    var b := Ascii(boundary);
    var ps := UploadParts(creds, hmac, serialize, boundary, expires, upload);
    var body := Body(b, ps);
    var d := Dashes + Ascii(boundary);
    forall i | 0 <= i < |ps|
      ensures Offset(b, ps, i) + |d| <= |body| && body[Offset(b, ps, i)..Offset(b, ps, i) + |d|] == d
    {
      ContentAt(b, ps, i);
      var o := Offset(b, ps, i);
      var h := Header(b, ps[i]);
      assert h[..|d|] == d;
      SliceWithin(body, o, h, 0, |d|);
    }
    EndsWithClose(b, ps);
  }

  /** `Content-Length` is the body length counted part by part from the header literals. */
  lemma ContentLengthCounts(creds: Credentials, hmac: Signing.Hmac, serialize: Serializer,
                            boundary: string, expires: string, upload: Upload, timeout: real)
    requires Admissible(creds, serialize, boundary, expires, upload)
    ensures var r := BuildRequest(creds, hmac, serialize, boundary, expires, upload, timeout);
            Decimal.Parse(r.contentLength)
              == Some(BodyLength(Ascii(boundary), UploadParts(creds, hmac, serialize, boundary, expires, upload)))
  {
    BodyLengthCounts(Ascii(boundary), UploadParts(creds, hmac, serialize, boundary, expires, upload));
  }
}
