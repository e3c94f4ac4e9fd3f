/**
  The multipart/form-data framing the client writes (section 4 of RFC 7578,
  with the delimiters of section 5.1.1 of RFC 2046): each part is a
  delimiter line, one `Content-Disposition` header, an empty line, the
  content and a line break; the body ends with the close delimiter.
 */
module Multipart {
  import opened Bytes
  import opened Wrappers

  /** One form part: its field name, the filename of a file part, and its content. */
  datatype FormPart = FormPart(name: seq<uint8>, filename: Option<seq<uint8>>, content: seq<uint8>)

  /** `--`, which opens every delimiter and ends the close delimiter. */
  const Dashes: seq<uint8> := Ascii("--")

  /** The header text before a part's name. */
  const DispositionStart: seq<uint8> := Ascii("Content-Disposition: form-data; name=\"")

  /** The parameter text before a file part's filename. */
  const FilenameStart: seq<uint8> := Ascii("; filename=\"")

  const Quote: seq<uint8> := Ascii("\"")

  /** `--` followed by the boundary: the line that opens every part. */
  function Delimiter(boundary: seq<uint8>): (d: seq<uint8>)
    ensures |d| == |boundary| + 2
  {
    Dashes + boundary
  }

  /** The `Content-Disposition` header line of a part, without its line break. */
  function Disposition(p: FormPart): seq<uint8> {
    DispositionStart + p.name + Quote
      + match p.filename
        case None => []
        case Some(f) => FilenameStart + f + Quote
  }

  /** The octets of a part before its content: delimiter line, header line, empty line. */
  function Header(boundary: seq<uint8>, p: FormPart): seq<uint8> {
    Delimiter(boundary) + CRLF + Disposition(p) + CRLF + CRLF
  }

  /** The octets of one part, from its delimiter to the line break after its content. */
  function Encapsulation(boundary: seq<uint8>, p: FormPart): seq<uint8> {
    Header(boundary, p) + p.content + CRLF
  }

  /** `--boundary--` and a line break: the end of the body. */
  function CloseDelimiter(boundary: seq<uint8>): seq<uint8> {
    Delimiter(boundary) + Dashes + CRLF
  }

  /** The parts in order, each framed. */
  function Parts(boundary: seq<uint8>, ps: seq<FormPart>): seq<uint8> {
    if |ps| == 0 then [] else Encapsulation(boundary, ps[0]) + Parts(boundary, ps[1..])
  }

  /** The whole body: the parts, then the close delimiter. */
  function Body(boundary: seq<uint8>, ps: seq<FormPart>): seq<uint8> {
    Parts(boundary, ps) + CloseDelimiter(boundary)
  }

  /** Where part `i` starts in the body: the length of the parts before it. */
  function Offset(boundary: seq<uint8>, ps: seq<FormPart>, i: nat): nat
    requires i <= |ps|
  {
    |Parts(boundary, ps[..i])|
  }

  /** The octet count of one framed part, counted from the header literals. */
  function PartLength(boundary: seq<uint8>, p: FormPart): nat {
    |boundary| + |p.name| + |p.content| + 49
      + match p.filename
        case None => 0
        case Some(f) => |f| + 13
  }

  /** The octet count of a body, counted part by part. */
  function BodyLength(boundary: seq<uint8>, ps: seq<FormPart>): nat {
    if |ps| == 0 then |boundary| + 6 else PartLength(boundary, ps[0]) + BodyLength(boundary, ps[1..])
  }

  lemma EncapsulationLength(boundary: seq<uint8>, p: FormPart)
    ensures |Encapsulation(boundary, p)| == PartLength(boundary, p)
  {
  }

  /** The body is exactly as long as its parts and close delimiter add up to. */
  lemma {:induction false} BodyLengthCounts(boundary: seq<uint8>, ps: seq<FormPart>)
    ensures |Body(boundary, ps)| == BodyLength(boundary, ps)
  {
    if |ps| > 0 {
      EncapsulationLength(boundary, ps[0]);
      BodyLengthCounts(boundary, ps[1..]);
    }
  }

  /** Framing a list of parts distributes over concatenation of the list. */
  lemma {:induction false} PartsAppend(boundary: seq<uint8>, ps: seq<FormPart>, qs: seq<FormPart>)
    ensures Parts(boundary, ps + qs) == Parts(boundary, ps) + Parts(boundary, qs)
  {
    if |ps| == 0 {
      assert ps + qs == qs;
    } else {
      assert (ps + qs)[1..] == ps[1..] + qs;
      PartsAppend(boundary, ps[1..], qs);
    }
  }

  /** Part `i` sits, framed, at its offset in the body. */
  lemma PartAt(boundary: seq<uint8>, ps: seq<FormPart>, i: nat)
    requires i < |ps|
    ensures var o := Offset(boundary, ps, i);
            var e := Encapsulation(boundary, ps[i]);
            o + |e| <= |Body(boundary, ps)| && Body(boundary, ps)[o..o + |e|] == e
  {
    assert ps == ps[..i] + ([ps[i]] + ps[i + 1..]);
    PartsAppend(boundary, ps[..i], [ps[i]] + ps[i + 1..]);
    assert ([ps[i]] + ps[i + 1..])[1..] == ps[i + 1..];
  }

  /** The first body octets are the first part. */
  lemma FirstPart(boundary: seq<uint8>, ps: seq<FormPart>)
    requires |ps| > 0
    ensures var e := Encapsulation(boundary, ps[0]);
            |e| <= |Body(boundary, ps)| && Body(boundary, ps)[..|e|] == e
  {
  }

  /** The second part follows the first directly. */
  lemma SecondPart(boundary: seq<uint8>, ps: seq<FormPart>)
    requires |ps| >= 2
    ensures var k := |Encapsulation(boundary, ps[0])|;
            var e := Encapsulation(boundary, ps[1]);
            k + |e| <= |Body(boundary, ps)| && Body(boundary, ps)[k..k + |e|] == e
  {
    PartAt(boundary, ps, 1);
    NextOffset(boundary, ps, 0);
    assert ps[..0] == [];
  }

  /** The part after part `i` starts where part `i` ends. */
  lemma NextOffset(boundary: seq<uint8>, ps: seq<FormPart>, i: nat)
    requires i < |ps|
    ensures Offset(boundary, ps, i + 1) == Offset(boundary, ps, i) + |Encapsulation(boundary, ps[i])|
  {
    assert ps[..i + 1] == ps[..i] + [ps[i]];
    PartsAppend(boundary, ps[..i], [ps[i]]);
  }

  /** Part `i` is its header block, then its content verbatim, then a line break. */
  lemma ContentAt(boundary: seq<uint8>, ps: seq<FormPart>, i: nat)
    requires i < |ps|
    ensures var o := Offset(boundary, ps, i) + |Header(boundary, ps[i])|;
            o + |ps[i].content| + 2 <= |Body(boundary, ps)|
            && Body(boundary, ps)[Offset(boundary, ps, i)..o] == Header(boundary, ps[i])
            && Body(boundary, ps)[o..o + |ps[i].content|] == ps[i].content
            && Body(boundary, ps)[o + |ps[i].content|..o + |ps[i].content| + 2] == CRLF
  {
    PartAt(boundary, ps, i);
    var o := Offset(boundary, ps, i);
    var e := Encapsulation(boundary, ps[i]);
    var h := |Header(boundary, ps[i])|;
    var c := ps[i].content;
    var b := Body(boundary, ps);
    assert e[..h] == Header(boundary, ps[i]);
    assert e[h..h + |c|] == c;
    assert e[h + |c|..] == CRLF;
    SliceWithin(b, o, e, 0, h);
    SliceWithin(b, o, e, h, h + |c|);
    SliceWithin(b, o, e, h + |c|, |e|);
  }

  /** A slice of an embedded sequence is the same slice taken at the embedding offset. */
  lemma SliceWithin(b: seq<uint8>, o: nat, e: seq<uint8>, lo: nat, hi: nat)
    requires o + |e| <= |b| && b[o..o + |e|] == e
    requires lo <= hi <= |e|
    ensures b[o + lo..o + hi] == e[lo..hi]
  {
    forall k | 0 <= k < hi - lo ensures b[o + lo..o + hi][k] == e[lo..hi][k] {
      assert b[o + lo + k] == b[o..o + |e|][lo + k];
    }
  }

  /** The body's final octets are exactly the close delimiter. */
  lemma EndsWithClose(boundary: seq<uint8>, ps: seq<FormPart>)
    ensures var b := Body(boundary, ps);
            var c := CloseDelimiter(boundary);
            |c| <= |b| && b[|b| - |c|..] == c
  {
  }

  /** The parts end where the close delimiter begins. */
  lemma CloseOffset(boundary: seq<uint8>, ps: seq<FormPart>)
    ensures Offset(boundary, ps, |ps|) + |CloseDelimiter(boundary)| == |Body(boundary, ps)|
  {
    assert ps[..|ps|] == ps;
  }
}
