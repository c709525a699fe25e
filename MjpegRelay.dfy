/**
 * The shared-secret MJPEG relay (webcam_server.py): a POST endpoint that
 * validates one JPEG frame and keeps it as the latest frame, and a viewer
 * stream that sends the latest frame as one part of a
 * `multipart/x-mixed-replace` response.
 *
 * The lock, the wake-up event and the 30 fps throttle are not modelled: the
 * cache is single-threaded here, and the viewer loop is driven by the
 * sequence of cache values it happens to observe.
 */
module MjpegRelay {
  import opened Common
  import Decimal

  /** Token used when the VSTREAM_TOKEN environment variable is unset. */
  const DefaultIngestToken: string := "change-me"

  /** Largest accepted body: 2 MiB. */
  const MaxFrameBytes: nat := 2 * 1024 * 1024

  /** Boundary parameter of the multipart stream. */
  const Boundary: string := "frame"

  /** Media type announced by the stream response, with its boundary written out literally. */
  const StreamMediaType: string := "multipart/x-mixed-replace; boundary=frame"

  // HTTP status codes the ingest endpoint answers with
  const NoContent: int := 204
  const BadRequest: int := 400
  const Unauthorized: int := 401
  const PayloadTooLarge: int := 413
  const UnsupportedMediaType: int := 415

  // ---------------------------------------------------------------- ingest

  /** The `X-Token` header as read with a default: a missing header reads as "". */
  function PresentedToken(header: Option<string>): string
  {
    if header.Some? then header.value else ""
  }

  /** An empty configured token switches authentication off; otherwise the header must equal it. */
  predicate TokenAccepted(configured: string, header: Option<string>)
  {
    configured == [] || PresentedToken(header) == configured
  }

  /** Start-of-image `FF D8` first and end-of-image `FF D9` last (ITU-T T.81, Annex B, Table B.1). */
  predicate HasJpegMarkers(data: seq<byte>)
    ensures HasJpegMarkers(data) ==> |data| >= 4  // the two markers cannot overlap
  {
    && |data| >= 2
    && data[0] == 0xFF && data[1] == 0xD8
    && data[|data| - 2] == 0xFF && data[|data| - 1] == 0xD9
  }

  /** A body that passes every body check. */
  predicate AcceptableFrame(data: seq<byte>)
  {
    0 < |data| <= MaxFrameBytes && HasJpegMarkers(data)
  }

  /** The status the ingest endpoint answers: the first failing check decides. */
  function IngestStatus(configured: string, header: Option<string>, body: seq<byte>): (code: int)
    ensures code in {NoContent, BadRequest, Unauthorized, PayloadTooLarge, UnsupportedMediaType}
  {
    if !TokenAccepted(configured, header) then Unauthorized
    else if |body| == 0 then BadRequest
    else if |body| > MaxFrameBytes then PayloadTooLarge
    else if !HasJpegMarkers(body) then UnsupportedMediaType
    else NoContent
  }

  /**
   * Each status in terms of the checks: a check decides the answer exactly
   * when every earlier check passed and it fails.
   */
  lemma IngestStatusOrder(configured: string, header: Option<string>, body: seq<byte>)
    ensures IngestStatus(configured, header, body) == Unauthorized <==>
              (configured != [] && PresentedToken(header) != configured)
    ensures IngestStatus(configured, header, body) == BadRequest <==>
              (TokenAccepted(configured, header) && |body| == 0)
    ensures IngestStatus(configured, header, body) == PayloadTooLarge <==>
              (TokenAccepted(configured, header) && |body| > MaxFrameBytes)
    ensures IngestStatus(configured, header, body) == UnsupportedMediaType <==>
              (TokenAccepted(configured, header) && 0 < |body| <= MaxFrameBytes && !HasJpegMarkers(body))
    ensures IngestStatus(configured, header, body) == NoContent <==>
              (TokenAccepted(configured, header) && AcceptableFrame(body))
  {
  }

  /** A wrong or missing token is refused before anything about the body is looked at. */
  lemma TokenCheckComesFirst(configured: string, header: Option<string>, body: seq<byte>, other: seq<byte>)
    requires !TokenAccepted(configured, header)
    ensures IngestStatus(configured, header, body) == IngestStatus(configured, header, other) == Unauthorized
  {
  }

  /** With an empty configured token, no request is ever refused as unauthorized. */
  lemma EmptyTokenDisablesAuth(header: Option<string>, body: seq<byte>)
    ensures IngestStatus("", header, body) != Unauthorized
  {
  }

  /** A frame of exactly 2 MiB passes the size check; one byte more does not. */
  lemma SizeCapIsInclusive(configured: string, body: seq<byte>, extra: byte)
    requires |body| == MaxFrameBytes && HasJpegMarkers(body)
    ensures IngestStatus(configured, Some(configured), body) == NoContent
    ensures IngestStatus(configured, Some(configured), [extra] + body) == PayloadTooLarge
  {
  }

  /** Every accepted frame is between 4 bytes and 2 MiB long. */
  lemma AcceptedFrameBounds(configured: string, header: Option<string>, body: seq<byte>)
    requires IngestStatus(configured, header, body) == NoContent
    ensures 4 <= |body| <= MaxFrameBytes
  {
  }

  /** With the default token, a request that sends no `X-Token` header is refused. */
  lemma DefaultTokenRefusesMissingHeader(body: seq<byte>)
    ensures IngestStatus(DefaultIngestToken, None, body) == Unauthorized
  {
  }

  /** The single-slot cache of the most recent accepted frame. */
  class FrameRelay {
    /** The configured shared secret (VSTREAM_TOKEN). */
    const token: string
    /** The latest accepted frame; None until the first one arrives. */
    var latest: Option<seq<byte>>

    /** Only a frame that passed every check is ever cached. */
    ghost predicate Valid()
      reads this
    {
      latest.Some? ==> AcceptableFrame(latest.value)
    }

    constructor (token: string)
      ensures Valid()
      ensures this.token == token && latest == None
    {
      this.token := token;
      latest := None;
    }

    /** Handles one POST: checks in order, and caches the body only when all pass. */
    method Ingest(header: Option<string>, body: seq<byte>) returns (status: int)
      requires Valid()
      modifies this
      ensures Valid()
      ensures status == IngestStatus(token, header, body)
      ensures status == NoContent ==> latest == Some(body)
      ensures status != NoContent ==> latest == old(latest)
    {
      var presented := if header.Some? then header.value else "";
      if token != [] && presented != token {
        return Unauthorized;
      }
      if |body| == 0 {
        return BadRequest;
      }
      if |body| > MaxFrameBytes {
        return PayloadTooLarge;
      }
      if !(|body| >= 2 && body[..2] == [0xFF, 0xD8] && body[|body| - 2..] == [0xFF, 0xD9]) {
        return UnsupportedMediaType;
      }
      latest := Some(body);
      return NoContent;
    }

    /** One wake-up of the viewer loop: the part for the cached frame, or nothing while none is cached. */
    method NextPart() returns (part: Option<seq<byte>>)
      requires Valid()
      ensures latest.None? ==> part.None?
      ensures latest.Some? ==> part == Some(Part(latest.value)) && AcceptableFrame(latest.value)
      ensures latest.Some? ==> part.Some? && ParsePart(part.value) == latest
    {
      match latest
      case None =>
        part := None;
      case Some(frame) =>
        PartRoundTrip(frame);
        part := Some(Part(frame));
    }
  }

  // ---------------------------------------------------------------- stream framing

  const CRLF: string := "\r\n"

  /** Everything of a part's header that does not depend on the frame. */
  const PartPrefix: string := "--" + Boundary + "\r\nContent-Type: image/jpeg\r\nContent-Length: "

  /** A blank line (CRLF CRLF) ends a part's header. */
  const HeaderEnd: string := "\r\n\r\n"

  /** The ASCII header of the part that carries a frame of `length` bytes. */
  function PartHeader(length: nat): string
  {
    PartPrefix + Decimal.Digits(length) + HeaderEnd
  }

  /** One multipart part: the encoded header, the frame bytes untouched, then CRLF. */
  function Part(frame: seq<byte>): (r: seq<byte>)
    ensures |r| == |PartHeader(|frame|)| + |frame| + 2
    ensures r[|PartHeader(|frame|)|..|r| - 2] == frame
  {
    Ascii(PartHeader(|frame|)) + frame + Ascii(CRLF)
  }

  /** Number of leading bytes that are ASCII digits. */
  function DigitRun(s: seq<byte>): (k: nat)
    ensures k <= |s|
    ensures forall i :: 0 <= i < k ==> Decimal.IsDigit(s[i] as int as char)
    ensures k < |s| ==> !Decimal.IsDigit(s[k] as int as char)
  {
    if s == [] || !Decimal.IsDigit(s[0] as int as char) then 0 else 1 + DigitRun(s[1..])
  }

  /** Bytes read back as characters (the inverse of Ascii on ASCII text). */
  function Text(b: seq<byte>): (s: string)
    ensures |s| == |b|
    ensures forall i :: 0 <= i < |b| ==> s[i] as int == b[i] as int
  {
    seq(|b|, i requires 0 <= i < |b| => b[i] as int as char)
  }

  /**
   * A reader for one part, independent of Part: it checks the fixed header,
   * reads Content-Length, and takes exactly that many bytes before the final CRLF.
   */
  function ParsePart(p: seq<byte>): Option<seq<byte>>
  {
    var head := Ascii(PartPrefix);
    if |p| < |head| || p[..|head|] != head then None else ParseFromLength(p[|head|..])
  }

  /** Reads the decimal Content-Length value, then the body it announces. */
  function ParseFromLength(rest: seq<byte>): Option<seq<byte>>
  {
    var k := DigitRun(rest);
    if k == 0 then None else ParseBody(rest[k..], Decimal.Value(Text(rest[..k])))
  }

  /** Expects the blank line, exactly `n` frame bytes, and the closing CRLF. */
  function ParseBody(tail: seq<byte>, n: nat): Option<seq<byte>>
  {
    if |tail| != 4 + n + 2 || tail[..4] != Ascii(HeaderEnd) || tail[4 + n..] != Ascii(CRLF) then None
    else Some(tail[4..4 + n])
  }

  /** The part is exactly the ASCII encoding of the header text, the frame, and CRLF. */
  lemma PartLayout(frame: seq<byte>)
    ensures Part(frame)
         == Ascii(PartPrefix) + (Ascii(Decimal.Digits(|frame|)) + (Ascii(HeaderEnd) + frame + Ascii(CRLF)))
  {
    var pre, d, end := PartPrefix, Decimal.Digits(|frame|), HeaderEnd;
    AsciiConcat(pre, d);
    AsciiConcat(pre + d, end);
    var a, b, c, z := Ascii(pre), Ascii(d), Ascii(end), Ascii(CRLF);
    SeqAssoc(a, b, c, frame, z);
  }

  /** Regrouping five concatenated pieces. */
  lemma SeqAssoc(a: seq<byte>, b: seq<byte>, c: seq<byte>, f: seq<byte>, z: seq<byte>)
    ensures (a + b + c) + f + z == a + (b + (c + f + z))
  {
  }

  lemma BodyRoundTrip(frame: seq<byte>)
    ensures ParseBody(Ascii(HeaderEnd) + frame + Ascii(CRLF), |frame|) == Some(frame)
  {
    var tail := Ascii(HeaderEnd) + frame + Ascii(CRLF);
    assert tail[..4] == Ascii(HeaderEnd);
    assert tail[4 + |frame|..] == Ascii(CRLF);
    assert tail[4..4 + |frame|] == frame;
  }

  lemma LengthRoundTrip(frame: seq<byte>)
    ensures ParseFromLength(Ascii(Decimal.Digits(|frame|)) + (Ascii(HeaderEnd) + frame + Ascii(CRLF)))
         == Some(frame)
  {
    var d := Decimal.Digits(|frame|);
    var digits := Ascii(d);
    var tail := Ascii(HeaderEnd) + frame + Ascii(CRLF);
    DigitBytes(d);
    HeaderEndOpensWithCR();
    assert tail[0] == Ascii(HeaderEnd)[0];
    DigitRunOver(digits, tail);
    var rest := digits + tail;
    assert rest[..|digits|] == digits;
    assert rest[|digits|..] == tail;
    Decimal.ValueOfDigits(|frame|);
    BodyRoundTrip(frame);
  }

  /** The encoded digits of a rendering are digit bytes, and read back as the same text. */
  lemma DigitBytes(d: string)
    requires Decimal.AllDigits(d)
    ensures forall i :: 0 <= i < |d| ==> Decimal.IsDigit(Ascii(d)[i] as int as char)
    ensures Text(Ascii(d)) == d
  {
    assert IsAscii(d);
  }

  /** The blank line that ends a header opens with a carriage return, which is not a digit. */
  lemma HeaderEndOpensWithCR()
    ensures !Decimal.IsDigit(Ascii(HeaderEnd)[0] as int as char)
  {
    assert HeaderEnd[0] == '\r';
  }

  /** Reading a part back yields the frame it carries, byte for byte. */
  lemma PartRoundTrip(frame: seq<byte>)
    ensures ParsePart(Part(frame)) == Some(frame)
  {
    PartLayout(frame);
    var head := Ascii(PartPrefix);
    var rest := Ascii(Decimal.Digits(|frame|)) + (Ascii(HeaderEnd) + frame + Ascii(CRLF));
    assert (head + rest)[..|head|] == head;
    assert (head + rest)[|head|..] == rest;
    LengthRoundTrip(frame);
  }

  /** The digit run of a rendered number stops at the first non-digit after it. */
  lemma {:induction false} DigitRunOver(digits: seq<byte>, after: seq<byte>)
    requires forall i :: 0 <= i < |digits| ==> Decimal.IsDigit(digits[i] as int as char)
    requires after != [] && !Decimal.IsDigit(after[0] as int as char)
    ensures DigitRun(digits + after) == |digits|
  {
    if digits != [] {
      assert (digits + after)[1..] == digits[1..] + after;
      DigitRunOver(digits[1..], after);
    }
  }

  /** Every part opens with the dash-boundary and closes with CRLF. */
  lemma PartDelimiters(frame: seq<byte>)
    ensures Part(frame)[..2 + |Boundary|] == Ascii("--" + Boundary)
    ensures Part(frame)[|Part(frame)| - 2..] == Ascii(CRLF)
  {
    PartLayout(frame);
    AsciiConcat("--" + Boundary, "\r\nContent-Type: image/jpeg\r\nContent-Length: ");
    assert Part(frame)[..2 + |Boundary|] == Ascii(PartPrefix)[..2 + |Boundary|];
  }

  /**
   * Between two consecutive parts the stream carries CRLF "--" boundary: the
   * delimiter of section 5.1.1 of RFC 2046.
   */
  lemma ConsecutivePartsDelimited(a: seq<byte>, b: seq<byte>)
    ensures var s := Part(a) + Part(b);
            var k := |Part(a)| - 2;
            s[k..k + 4 + |Boundary|] == Ascii(CRLF + "--" + Boundary)
  {
    PartDelimiters(a);
    PartDelimiters(b);
    AsciiConcat(CRLF, "--" + Boundary);
    var s := Part(a) + Part(b);
    var k := |Part(a)| - 2;
    assert s[k..k + 4 + |Boundary|] == Part(a)[k..] + Part(b)[..2 + |Boundary|];
  }

  /** bcharsnospace of RFC 2046, section 5.1.1. */
  predicate IsBoundaryCharNoSpace(c: char)
  {
    || '0' <= c <= '9' || 'a' <= c <= 'z' || 'A' <= c <= 'Z'
    || c in "'()+_,-./:=?"
  }

  /** A boundary of 1 to 70 characters from bchars, not ending in a space (RFC 2046, section 5.1.1). */
  predicate ValidBoundary(b: string)
  {
    && 1 <= |b| <= 70
    && (forall i :: 0 <= i < |b| ==> IsBoundaryCharNoSpace(b[i]) || b[i] == ' ')
    && b[|b| - 1] != ' '
  }

  /**
   * The boundary is well formed and is the one the media type announces.
   * The relay writes the boundary twice, as two separate literals: once for
   * the part delimiters (webcam_server.py:54) and once inside the response
   * mimetype (webcam_server.py:85). `Boundary` and `StreamMediaType` mirror
   * those two literals, so the second clause checks that they agree.
   */
  lemma BoundaryAgreesWithMediaType()
    ensures ValidBoundary(Boundary)
    ensures StreamMediaType == "multipart/x-mixed-replace; boundary=" + Boundary
  {
  }

  // ---------------------------------------------------------------- the viewer loop

  /** The parts a viewer receives when its loop observes the cache values `observed`, in order. */
  function EmittedParts(observed: seq<Option<seq<byte>>>): seq<seq<byte>>
  {
    if observed == [] then []
    else
      var last := observed[|observed| - 1];
      EmittedParts(observed[..|observed| - 1]) + (if last.Some? then [Part(last.value)] else [])
  }

  /**
   * The generator loop: on each wake-up it reads the cache; an empty cache
   * emits nothing, a cached frame emits its part.
   */
  method Stream(observed: seq<Option<seq<byte>>>) returns (parts: seq<seq<byte>>)
    ensures parts == EmittedParts(observed)
  {
    parts := [];
    var i := 0;
    while i < |observed|
      invariant 0 <= i <= |observed|
      invariant parts == EmittedParts(observed[..i])
    {
      assert observed[..i + 1][..i] == observed[..i];
      var frame := observed[i];
      if frame.Some? {
        parts := parts + [Part(frame.value)];
      }
      i := i + 1;
    }
    assert observed[..i] == observed;
  }

  /** While no frame has ever been cached, a viewer receives no part. */
  lemma {:induction false} NoFrameNoPart(observed: seq<Option<seq<byte>>>)
    requires forall i :: 0 <= i < |observed| ==> observed[i].None?
    ensures EmittedParts(observed) == []
  {
    if observed != [] {
      NoFrameNoPart(observed[..|observed| - 1]);
    }
  }

  /** Every part a viewer receives reads back as a frame the loop observed in the cache. */
  lemma {:induction false} EmittedPartsCarryObservedFrames(observed: seq<Option<seq<byte>>>)
    ensures forall p :: p in EmittedParts(observed) ==> ParsePart(p).Some? && ParsePart(p) in observed
  {
    if observed != [] {
      var init := observed[..|observed| - 1];
      var last := observed[|observed| - 1];
      EmittedPartsCarryObservedFrames(init);
      forall p | p in EmittedParts(observed)
        ensures ParsePart(p).Some? && ParsePart(p) in observed
      {
        if p in EmittedParts(init) {
          assert ParsePart(p) in init;
        } else {
          assert last.Some? && p == Part(last.value);
          PartRoundTrip(last.value);
        }
      }
    }
  }

  /**
   * A viewer of a relay only ever receives acceptable frames: when every
   * observed cache value passed the ingest checks (as `FrameRelay.Valid`
   * guarantees), every part reads back as an acceptable frame.
   */
  lemma StreamCarriesAcceptableFrames(observed: seq<Option<seq<byte>>>)
    requires forall i :: 0 <= i < |observed| && observed[i].Some? ==> AcceptableFrame(observed[i].value)
    ensures forall p :: p in EmittedParts(observed) ==>
              ParsePart(p).Some? && AcceptableFrame(ParsePart(p).value)
  {
    EmittedPartsCarryObservedFrames(observed);
    forall p | p in EmittedParts(observed)
      ensures ParsePart(p).Some? && AcceptableFrame(ParsePart(p).value)
    {
      var k :| 0 <= k < |observed| && observed[k] == ParsePart(p);
    }
  }
}
