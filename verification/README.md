# TransloaditSwift upload client, modelled in Dafny

`TransloaditTask` uploads one file to the Transloadit API. It asks a discovery
server for a worker host. It then POSTs a signed multipart/form-data body to
that worker's `/assemblies` endpoint and keeps the `results` object of the JSON
reply for two accessors. This project models the pure parts of that class:

- the body builder inside `postData`: the `params` part, the `signature` part,
  one part per extra field, the file part and the closing delimiter, framed as
  multipart/form-data (section 4 of RFC 7578, with the delimiters of section
  5.1.1 of RFC 2046), together with the `Content-Type` and `Content-Length`
  header values, the method and the timeout;
- `sha1WithKey` and `hexStringWithData`: lowercase hex of the HMAC-SHA1 digest
  of the params octets;
- the upload completion handler: the update of the `result` slot and the
  completion callbacks it queues;
- `resultSteps` and `subscript(stepName:)`.

The foreign pieces are parameters:
- HMAC-SHA1 (`CCHmac`) is `Signing.Hmac`, a function returning 20 octets.
- `NSJSONSerialization` is `TransloaditTask.Serializer` (serialising) and
  `TaskResult.Parser` (parsing) over the `Json.Json` datatype.
- `NSUUID().UUIDString` is the `boundary` argument, constrained to the UUID
  shape.
- The `expires` timestamp is an opaque `expires` argument.

Modules, one file each:
- `Bytes`: octets and ASCII text.
- `Wrappers`: `Option`.
- `Hex`: `%02x` encoding and its decoder.
- `Decimal`: `%lu` printing of the Content-Length and its reader.
- `Json`: JSON values and the `as?` casts.
- `Multipart`: the framing, with offsets and lengths.
- `Signing`: `sha1WithKey`.
- `TransloaditTask`: the request builder.
- `TaskResult`: the response handler and the accessors.

The model follows the code where it is stricter or looser than one might expect:
- The signature step converts the secret key and the params text with
  `cStringUsingEncoding(NSASCIIStringEncoding)!`, which traps on non-ASCII
  text. That step runs only when serialising the params succeeds, so the
  model requires both to be ASCII in that case only; it does not accept
  arbitrary UTF-8 there.
- `resultSteps` returns the keys of a dictionary in no specified order. The
  model returns them as a set.
- On a transport error the handler queues the completion twice (see
  Findings), not once.

## Model

| member | source | states |
|---|---|---|
| Hex.Encode | TransloaditSwift/TransloaditTask.swift:182-188 | the hex text of n bytes has exactly 2n characters, all in 0-9a-f; byte i is at positions 2i and 2i+1, high nibble first |
| Hex.HexStringWithData | TransloaditSwift/TransloaditTask.swift:182-188 | the `%02x` loop over the first `ofLength` bytes yields 2·ofLength lowercase digits, byte i at 2i..2i+1, and decodes back to exactly those bytes |
| Hex.ByteHexValue | TransloaditSwift/TransloaditTask.swift:185 | the two characters `%02x` prints for a byte are lowercase hex digits whose values, high digit times 16 plus low digit, give back the byte |
| Hex.DecodeEncode | TransloaditSwift/TransloaditTask.swift:182-188 | decoding the hex text of any bytes gives those bytes back |
| Hex.EncodeDecode | TransloaditSwift/TransloaditTask.swift:182-188 | every decodable lowercase hex text is the encoding of what it decodes to |
| Hex.EncodeInjective | TransloaditSwift/TransloaditTask.swift:182-188 | distinct byte sequences never print as the same hex text |
| Signing.Sign | TransloaditSwift/TransloaditTask.swift:168-180 | with ASCII key and message, the signature is 40 lowercase hex characters that decode to HMAC-SHA1(key octets, message) |
| Signing.SignatureDeterminesDigest | TransloaditSwift/TransloaditTask.swift:168-180 | two messages get the same signature under a key if and only if their HMAC digests are equal |
| Decimal.Encode | TransloaditSwift/TransloaditTask.swift:102 | the `%lu` text of a count is canonical: a non-empty string of decimal digits with no leading zero except for zero itself |
| Decimal.ParseEncode | TransloaditSwift/TransloaditTask.swift:102 | reading back the `%lu` text of a count gives the count |
| Decimal.EncodeValue | TransloaditSwift/TransloaditTask.swift:102 | every canonical digit string is the `%lu` text of the number it denotes |
| Multipart.BodyLengthCounts | TransloaditSwift/TransloaditTask.swift:43-92 | the body length equals the sum over parts of boundary + name + content + 49 octets (+ filename + 13 for the file part), plus boundary + 6 for the closing line |
| Multipart.PartAt | TransloaditSwift/TransloaditTask.swift:43-92 | part i appears framed in the body at the offset given by the lengths of the parts before it |
| Multipart.ContentAt | TransloaditSwift/TransloaditTask.swift:58-89 | at its offset, part i is its header block, then its content verbatim, then CRLF |
| Multipart.NextOffset | TransloaditSwift/TransloaditTask.swift:43-92 | each part starts exactly where the previous one ends |
| Multipart.CloseOffset | TransloaditSwift/TransloaditTask.swift:89-92 | the closing delimiter starts right after the last part and runs to the end of the body |
| TransloaditTask.BuildRequest | TransloaditSwift/TransloaditTask.swift:95-103 | the request is a POST whose timeout is the client's `defaultTimeoutValue` (300.0 s unless the caller changed it), passed in; Content-Type is `multipart/form-data; boundary=` + the boundary; Content-Length is canonical decimal text that reads back as the body's length |
| TransloaditTask.AppendFields | TransloaditSwift/TransloaditTask.swift:73-78 | the field loop appends exactly one framed part per field, in iteration order |
| TransloaditTask.AppendSignedParts | TransloaditSwift/TransloaditTask.swift:55-70 | the do-block appends exactly the framed params part followed by the framed signature part when serialisation succeeds, and nothing when it throws |
| TransloaditTask.AppendFilePart | TransloaditSwift/TransloaditTask.swift:80-92 | appends exactly the framed file part, whose name and filename are both the filename and whose content is the file octets, followed by the close delimiter |
| TransloaditTask.AppendBody | TransloaditSwift/TransloaditTask.swift:43-92 | appending as the source does yields the multipart body of params, signature, fields and file, followed by the close delimiter |
| TransloaditTask.PartsInOrder | TransloaditSwift/TransloaditTask.swift:55-86 | the body has params and signature parts when serialisation succeeds (none otherwise), then exactly one part per field in order (none when fields is nil), then the file part |
| TransloaditTask.BodyBeginsWithParams | TransloaditSwift/TransloaditTask.swift:56-62 | when the params serialise to p, the body begins with `--boundary`, CRLF, `Content-Disposition: form-data; name="params"`, CRLF CRLF, then p verbatim, then CRLF |
| TransloaditTask.SignatureFollowsParams | TransloaditSwift/TransloaditTask.swift:64-67 | the signature part comes directly after the params part; its value has 40 lowercase hex digits that decode to HMAC(secret key, p) |
| TransloaditTask.SerializationFailureSkipsSignedParts | TransloaditSwift/TransloaditTask.swift:55-70 | when serialisation throws, for any secret key, there are no params or signature parts; the body opens with the first field part, or with the file part when there are no fields |
| TransloaditTask.FieldPartsFramed | TransloaditSwift/TransloaditTask.swift:73-78 | field i is framed as `--boundary` CRLF `Content-Disposition: form-data; name="k"` CRLF CRLF v CRLF, placed after the signed parts and the earlier fields |
| TransloaditTask.FilePartThenClose | TransloaditSwift/TransloaditTask.swift:80-92 | the file part names the filename as `name` and `filename`; the file octets follow verbatim, then CRLF; the body's final octets are exactly `--boundary--` CRLF |
| TransloaditTask.OneBoundaryThroughout | TransloaditSwift/TransloaditTask.swift:46-97 | the boundary in Content-Type is the one that opens every part and the closing line |
| TransloaditTask.ContentLengthCounts | TransloaditSwift/TransloaditTask.swift:102 | Content-Length reads back as the body length counted part by part |
| Json.AsObject | TransloaditSwift/TransloaditTask.swift:120 | the `as? [String:AnyObject]` cast succeeds exactly on a JSON object and yields that object |
| Json.AsObjectArray | TransloaditSwift/TransloaditTask.swift:156 | the `as? [[String:AnyObject]]` cast succeeds exactly on an array whose every element is an object, and yields those objects, one per element, in order |
| TaskResult.ParseObject | TransloaditSwift/TransloaditTask.swift:118-123 | the parsed body is an object exactly when parsing succeeds with a top-level object; a parse failure yields none |
| TaskResult.ResultsOf | TransloaditSwift/TransloaditTask.swift:126 | `json?["results"]` is present exactly when the object has a `results` key whose value is an object |
| TaskResult.UpdateSlot | TransloaditSwift/TransloaditTask.swift:111-126 | without data or an HTTP response the slot is unchanged; otherwise it holds a value exactly when the body parses to an object with a `results` object, and it holds that object |
| TaskResult.ResultSteps | TransloaditSwift/TransloaditTask.swift:147-152 | none exactly when the slot is none; otherwise exactly the slot's keys |
| TaskResult.StepResult | TransloaditSwift/TransloaditTask.swift:154-163 | a value exactly when the slot is set, the step is present, its value is a non-empty list of objects; the value is the first of them |
| TaskResult.Handle | TransloaditSwift/TransloaditTask.swift:105-131 | the handler as written sets the slot as UpdateSlot does and queues two completions after a transport error (the first without JSON), one otherwise, all carrying the response and the error; the last one carries the parsed body object when data and an HTTP response were delivered, and no JSON otherwise |
| TaskResult.HandleOnce | TransloaditSwift/TransloaditTask.swift:105-131 | the corrected handler queues exactly one completion; on a transport error that completion has no JSON and the slot is unchanged; without one it carries the parsed body object when data and an HTTP response were delivered, no JSON otherwise, and the slot is updated as UpdateSlot does |
| TaskResult.HandleOnceWithoutError | TransloaditSwift/TransloaditTask.swift:105-131 | without a transport error the corrected handler behaves exactly as the one written |
| TaskResult.DoubleCompletion | TransloaditSwift/TransloaditTask.swift:106-116 | an error that still delivers an HTTP response makes the handler as written queue two completions |
| TaskResult.DeliveredOverwrites | TransloaditSwift/TransloaditTask.swift:125-126 | after a delivered response the slot does not depend on what it held before |
| TaskResult.UpdateIdempotent | TransloaditSwift/TransloaditTask.swift:111-126 | handling the same response twice leaves the slot as handling it once |
| TaskResult.AccessorsReadResults | TransloaditSwift/TransloaditTask.swift:147-162 | after a response with a `results` object r, resultSteps gives r's keys, and a step's result is the first element of its list of objects, when there is one |
| TaskResult.CannedResponse | TransloaditSwift/TransloaditTask.swift:111-162 | when the body of a status-200 response without error parses to `{"results":{"original":[{"id":"abc"}]}}`, the handler sets the slot to `{"original":[{"id":"abc"}]}`, the steps are {"original"}, step "original" gives {"id":"abc"}, and step "missing" gives none |

## Left out

- The discovery request (lines 33-38, 139-144) is not modelled: it is networking. This covers the GET to the bored-instance URL, the `api2_host` lookup, the `http://…/assemblies` URL, and the silent return when discovery fails.
- The POST itself, `NSURLSession` tasks and `resume` are not modelled: they are I/O.
- `dispatch_async` to the main queue is not modelled as threads. Completions are a list of events in the order they are queued.
- An absent `completion` block (`completion?`) is not modelled: the events are recorded either way.
- `NSUUID` is not modelled: the boundary is a parameter of UUID shape.
- The `expires` timestamp is not modelled: `NSDate`, `NSDateFormatter`, the UTC/POSIX settings of `init` and the 120-minute offset are clock and locale calls. The `expires` text is an opaque parameter.
- The timeout is a `real`, not an IEEE double: `postData` only copies `defaultTimeoutValue` into the request, so no rounding arises. Changing the value is left to the caller, who passes it in.
- `NSJSONSerialization` is not modelled: serialising and parsing are parameters. JSON numbers are reals, and the Foundation-to-Swift bridging is reduced to the `as?` casts of `Json`.
- `CCHmac` (HMAC-SHA1) is not modelled: it is a parameter returning 20 octets.
- UTF-8 encoding of field names, values and the filename is not modelled: they are given as octets. `String(format:)` substitution is concatenation.
- `String(data:json, encoding:NSUTF8StringEncoding)!` is not modelled: on ASCII octets it yields the same text, and the ASCII precondition also excludes its trap.
- Field order is not modelled: Swift dictionary iteration order is unspecified, so the order is an input sequence. Distinct keys are not required.
- `hexStringWithData` reads a raw pointer: it is modelled as a sequence, and reading past the buffer is excluded by `ofLength <= |data|`.
- Integer width of `body.length` (`%lu` of an `NSUInteger`) is not modelled: the length is an unbounded `nat`, so bodies of 2^64 octets or more are not considered.
- `TransloaditSwift/ViewController.swift` is not modelled: it is UI only.

## Findings

| source | as written | input that shows it | evidently intended | confidence | as-written member | corrected member |
|---|---|---|---|---|---|---|
| TransloaditSwift/TransloaditTask.swift:106-116 | after queuing the error completion the handler does not return, so the guard below queues a second completion (and, with data and an HTTP response, overwrites the slot) | `uploadError` non-nil with response data and an HTTP 500 response | one completion per upload; on a transport error it carries no JSON and the slot is left alone | not executed | TaskResult.DoubleCompletion | TaskResult.HandleOnce |
