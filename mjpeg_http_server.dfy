/** The HTTP side: the frame-rate clamp of the server, the routing of
    `serve`, the byte layout of one multipart/x-mixed-replace part, and the
    pull stream `MultipartMjpegStream` that drains one part at a time
    through a cursor. */
module MjpegHttpServer {
  import opened Base
  import opened Text

  const MinFps: int := 1
  const MaxFps: int := 30

  /** The server's configuration after construction. */
  datatype Server = Server(port: int, fps: int)

  /** The constructor stores `fps` clamped into [1, 30]. */
  function NewServer(port: int, fps: int): (s: Server)
    ensures s.port == port
    ensures MinFps <= s.fps <= MaxFps
    ensures MinFps <= fps <= MaxFps ==> s.fps == fps
    ensures fps < MinFps ==> s.fps == MinFps
    ensures fps > MaxFps ==> s.fps == MaxFps
  {
    Server(port, Max(MinFps, Min(fps, MaxFps)))
  }

  /** The pause between parts, in milliseconds: `1000 / max(1, fps)`. */
  function FrameDelayMs(fps: int): (d: int)
    ensures 0 <= d <= 1000
    ensures d * Max(1, fps) <= 1000 < (d + 1) * Max(1, fps)
    ensures MinFps <= fps <= MaxFps ==> 33 <= d <= 1000
  {
    1000 / Max(1, fps)
  }

  /** Every server the constructor builds paces its streams at one part
      every 33 to 1000 milliseconds. */
  lemma FrameDelayOfServer(port: int, fps: int)
    ensures 33 <= FrameDelayMs(NewServer(port, fps).fps) <= 1000
  {
  }

  // ---------------------------------------------------------------------
  // Routing

  datatype Status = Ok | NotFound

  /** The body of a response: fixed text, or a fresh multipart stream with
      the given boundary and frame rate. */
  datatype Body = FixedText(text: string) | MjpegStream(boundary: string, fps: int)

  datatype Response = Response(status: Status, mimeType: string, body: Body,
                               headers: seq<(string, string)>)

  const StreamRoute: string := "/stream.mjpg"
  const Boundary: string := "--frame"
  const NoCacheHeaders: seq<(string, string)> :=
    [("Cache-Control", "no-cache, no-store, must-revalidate"),
     ("Pragma", "no-cache"),
     ("Connection", "close")]

  /** The viewer page: a single image element whose source is the stream. */
  const PageHead: string :=
    "<!doctype html><html><head><meta name='viewport' content='width=device-width,initial-scale=1'>"
    + "<title>LAN Screen Stream</title>"
    + "<style>body{margin:0;background:#111;display:flex;align-items:center;justify-content:center;height:100vh}"
    + "img{max-width:100vw;max-height:100vh}</style></head>"
    + "<body>"
  const ImageTag: string := "<img src='" + StreamRoute + "'"
  const PageTail: string := " alt='stream'></body></html>"
  const IndexHtml: string := PageHead + ImageTag + PageTail

  lemma IndexHtmlReferencesStream()
    ensures Contains(IndexHtml, ImageTag)
  {
    ContainsMiddle(PageHead, ImageTag, PageTail);
  }

  /** `serve`: the page at "/", the stream at "/stream.mjpg", 404 elsewhere. */
  function Serve(server: Server, uri: string): (r: Response)
    ensures uri == "/" ==>
      && r.status == Ok
      && r.mimeType == "text/html; charset=utf-8"
      && r.body.FixedText?
      && Contains(r.body.text, ImageTag)
      && r.headers == []
    ensures uri == StreamRoute ==>
      && r.status == Ok
      && r.mimeType == "multipart/x-mixed-replace; boundary=--frame"
      && r.body == MjpegStream("--frame", server.fps)
      && ("Cache-Control", "no-cache, no-store, must-revalidate") in r.headers
      && ("Pragma", "no-cache") in r.headers
      && ("Connection", "close") in r.headers
    ensures uri != "/" && uri != StreamRoute ==>
      r == Response(NotFound, "text/plain", FixedText("Not found"), [])
  {
    if uri == "/" then
      IndexHtmlReferencesStream();
      Response(Ok, "text/html; charset=utf-8", FixedText(IndexHtml), [])
    else if uri == StreamRoute then
      Response(Ok, "multipart/x-mixed-replace; boundary=" + Boundary,
               MjpegStream(Boundary, server.fps), NoCacheHeaders)
    else
      Response(NotFound, "text/plain", FixedText("Not found"), [])
  }

  // ---------------------------------------------------------------------
  // The layout of one part

  /** The text in front of the decimal length. */
  function LeadText(boundary: string): string
  {
    boundary + "\r\n" + "Content-Type: image/jpeg\r\n" + "Content-Length: "
  }

  /** The header of a part announcing `n` image bytes. */
  function PartHeader(boundary: string, n: nat): string
  {
    LeadText(boundary) + NatToString(n) + "\r\n\r\n"
  }

  const CR: int8 := 13
  const LF: int8 := 10

  /** One part as `buildNextChunk` lays it out: header, image bytes, CRLF. */
  function Part(boundary: string, jpeg: seq<int8>): seq<int8>
  {
    Ascii(PartHeader(boundary, |jpeg|)) + jpeg + Ascii("\r\n")
  }

  /** A part is as long as its header, its image and a CRLF together; the
      image sits right after the header and a CRLF ends the part. */
  lemma PartShape(boundary: string, jpeg: seq<int8>)
    ensures var h := |PartHeader(boundary, |jpeg|)|;
      && |Part(boundary, jpeg)| == h + |jpeg| + 2
      && Part(boundary, jpeg)[h..h + |jpeg|] == jpeg
      && Part(boundary, jpeg)[h + |jpeg|..] == [CR, LF]
  {
    var h := Ascii(PartHeader(boundary, |jpeg|));
    var crlf := Ascii("\r\n");
    assert crlf == [CR, LF];
    assert (h + jpeg + crlf)[|h|..|h| + |jpeg|] == jpeg;
    assert (h + jpeg + crlf)[|h| + |jpeg|..] == crlf;
  }

  /** The first line of every part is the boundary parameter itself (the
      route declares `boundary=--frame` and each part opens with `--frame`). */
  lemma PartStartsWithBoundaryLine(boundary: string, jpeg: seq<int8>)
    ensures Part(boundary, jpeg)[..|boundary| + 2] == Ascii(boundary + "\r\n")
  {
    var p := Part(boundary, jpeg);
    var h := PartHeader(boundary, |jpeg|);
    assert h == (boundary + "\r\n") + ("Content-Type: image/jpeg\r\n" + "Content-Length: " + NatToString(|jpeg|) + "\r\n\r\n");
    assert h[..|boundary| + 2] == boundary + "\r\n";
    assert p[..|boundary| + 2] == Ascii(h)[..|boundary| + 2];
  }

  predicate IsDigitByte(b: int8) { 48 <= b <= 57 }

  /** The number of leading ASCII digits. */
  function DigitRun(s: seq<int8>): (k: nat)
    ensures k <= |s|
    ensures forall i :: 0 <= i < k ==> IsDigitByte(s[i])
    ensures k < |s| ==> !IsDigitByte(s[k])
  {
    if s != [] && IsDigitByte(s[0]) then 1 + DigitRun(s[1..]) else 0
  }

  function DigitBytesValue(s: seq<int8>): nat
    requires forall i :: 0 <= i < |s| ==> IsDigitByte(s[i])
  {
    if s == [] then 0
    else
      assert IsDigitByte(s[|s| - 1]);
      DigitBytesValue(s[..|s| - 1]) * 10 + (s[|s| - 1] as int - 48)
  }

  /** Reads a part back: checks the header lines, takes the decimal
      `Content-Length`, and returns exactly that many bytes after the blank
      line, provided a final CRLF ends the part. */
  function ParsePart(boundary: string, chunk: seq<int8>): Option<seq<int8>>
  {
    var lead := Ascii(LeadText(boundary));
    if |chunk| < |lead| || chunk[..|lead|] != lead then None
    else ParseLength(chunk[|lead|..])
  }

  /** The part after the lead text: the decimal length, then the body. */
  function ParseLength(rest: seq<int8>): Option<seq<int8>>
  {
    var k := DigitRun(rest);
    if k == 0 then None
    else ParseBody(DigitBytesValue(rest[..k]), rest[k..])
  }

  /** A blank line, `n` image bytes and a final CRLF. */
  function ParseBody(n: nat, body: seq<int8>): Option<seq<int8>>
  {
    if |body| == 4 + n + 2 && body[..4] == [CR, LF, CR, LF] && body[4 + n..] == [CR, LF]
    then Some(body[4..4 + n])
    else None
  }

  lemma {:induction false} DigitBytesOfDigits(d: string)
    requires AllDigits(d)
    ensures forall i :: 0 <= i < |d| ==> IsDigitByte(Ascii(d)[i])
    ensures DigitBytesValue(Ascii(d)) == DigitsValue(d)
    decreases |d|
  {
    if d != [] {
      var init := d[..|d| - 1];
      assert Ascii(d)[..|d| - 1] == Ascii(init);
      DigitBytesOfDigits(init);
    }
  }

  lemma {:induction false} DigitRunOfDigits(d: seq<int8>, rest: seq<int8>)
    requires forall i :: 0 <= i < |d| ==> IsDigitByte(d[i])
    requires rest != [] && !IsDigitByte(rest[0])
    ensures DigitRun(d + rest) == |d|
    decreases |d|
  {
    if d != [] {
      assert (d + rest)[1..] == d[1..] + rest;
      DigitRunOfDigits(d[1..], rest);
    }
  }

  /** The bytes of a header with lead text `lead` and decimal length
      `digits`, followed by an image and the final CRLF. */
  lemma LayoutBytes(lead: string, digits: string, jpeg: seq<int8>)
    ensures Ascii(lead + digits + "\r\n\r\n") + jpeg + Ascii("\r\n")
      == Ascii(lead) + (Ascii(digits) + ([CR, LF, CR, LF] + jpeg + [CR, LF]))
  {
    AsciiConcat(lead + digits, "\r\n\r\n");
    AsciiConcat(lead, digits);
    assert Ascii("\r\n\r\n") == [CR, LF, CR, LF];
    assert Ascii("\r\n") == [CR, LF];
    SeqRegroup(Ascii(lead), Ascii(digits), [CR, LF, CR, LF], jpeg, [CR, LF]);
  }

  /** A part is the lead text, the decimal length, a blank line, the
      image and a final CRLF. */
  lemma PartLayout(boundary: string, jpeg: seq<int8>)
    ensures Part(boundary, jpeg)
      == Ascii(LeadText(boundary)) + (Ascii(NatToString(|jpeg|)) + ([CR, LF, CR, LF] + jpeg + [CR, LF]))
  {
    LayoutBytes(LeadText(boundary), NatToString(|jpeg|), jpeg);
  }

  lemma SeqRegroup<T>(a: seq<T>, d: seq<T>, b: seq<T>, j: seq<T>, c: seq<T>)
    ensures (a + d + b) + j + c == a + (d + (b + j + c))
  {
  }

  /** The parser accepts any decimal length that matches the image. */
  lemma ParseLayout(boundary: string, d: seq<int8>, jpeg: seq<int8>)
    requires d != [] && forall i :: 0 <= i < |d| ==> IsDigitByte(d[i])
    requires DigitBytesValue(d) == |jpeg|
    ensures ParsePart(boundary, Ascii(LeadText(boundary)) + (d + ([CR, LF, CR, LF] + jpeg + [CR, LF]))) == Some(jpeg)
  {
    var lead := Ascii(LeadText(boundary));
    var rest := d + ([CR, LF, CR, LF] + jpeg + [CR, LF]);
    var chunk := lead + rest;
    assert chunk[..|lead|] == lead;
    assert chunk[|lead|..] == rest;
    ParseLengthOfDigits(d, jpeg);
  }

  lemma ParseLengthOfDigits(d: seq<int8>, jpeg: seq<int8>)
    requires d != [] && forall i :: 0 <= i < |d| ==> IsDigitByte(d[i])
    requires DigitBytesValue(d) == |jpeg|
    ensures ParseLength(d + ([CR, LF, CR, LF] + jpeg + [CR, LF])) == Some(jpeg)
  {
    var body := [CR, LF, CR, LF] + jpeg + [CR, LF];
    DigitRunOfDigits(d, body);
    assert (d + body)[..|d|] == d;
    assert (d + body)[|d|..] == body;
    ParseBodyOf(jpeg);
  }

  lemma ParseBodyOf(jpeg: seq<int8>)
    ensures ParseBody(|jpeg|, [CR, LF, CR, LF] + jpeg + [CR, LF]) == Some(jpeg)
  {
    var body := [CR, LF, CR, LF] + jpeg + [CR, LF];
    var n := |jpeg|;
    assert body[..4] == [CR, LF, CR, LF];
    assert body[4 + n..] == [CR, LF];
    assert body[4..4 + n] == jpeg;
  }

  /** The `Content-Length` a part announces is exactly the number of image
      bytes between its blank line and its final CRLF: reading a built part
      back yields the image it was built from. */
  lemma PartRoundTrip(boundary: string, jpeg: seq<int8>)
    ensures ParsePart(boundary, Part(boundary, jpeg)) == Some(jpeg)
  {
    var digits := NatToString(|jpeg|);
    PartLayout(boundary, jpeg);
    DigitBytesOfDigits(digits);
    DigitsValueOfNatToString(|jpeg|);
    ParseLayout(boundary, Ascii(digits), jpeg);
  }

  // ---------------------------------------------------------------------
  // The pull stream

  /** `System.arraycopy` between two arrays of bytes; the block is read
      before it is written, so overlapping copies behave as the JDK says. */
  method ArrayCopy(src: array<int8>, srcPos: int, dst: array<int8>, dstPos: int, length: int)
    requires 0 <= srcPos && 0 <= dstPos && 0 <= length
    requires srcPos + length <= src.Length && dstPos + length <= dst.Length
    modifies dst
    ensures dst[dstPos..dstPos + length] == old(src[srcPos..srcPos + length])
    ensures dst[..dstPos] == old(dst[..dstPos]) && dst[dstPos + length..] == old(dst[dstPos + length..])
    ensures forall k :: 0 <= k < dst.Length && !(dstPos <= k < dstPos + length) ==> dst[k] == old(dst[k])
  {
    var block := src[srcPos..srcPos + length];
    forall k | 0 <= k < length {
      dst[dstPos + k] := block[k];
    }
  }

  /** The three `System.arraycopy` calls of `buildNextChunk`: a fresh array
      holding `head`, then `body`, then `tail`. */
  method Concat3(head: array<int8>, body: array<int8>, tail: array<int8>) returns (chunk: array<int8>)
    ensures fresh(chunk) && chunk[..] == head[..] + body[..] + tail[..]
  {
    var h, j := head.Length, body.Length;
    chunk := new int8[h + j + tail.Length];
    ArrayCopy(head, 0, chunk, 0, h);
    assert chunk[..h] == head[..];
    ArrayCopy(body, 0, chunk, h, j);
    assert chunk[..h + j] == head[..] + body[..] by {
      assert chunk[..h + j] == chunk[..h] + chunk[h..h + j];
    }
    ArrayCopy(tail, 0, chunk, h + j, tail.Length);
    assert chunk[..] == chunk[..h + j] + chunk[h + j..];
  }

  /** `String.getBytes(US_ASCII)`: a fresh array of the string's bytes. */
  method GetBytes(s: string) returns (a: array<int8>)
    ensures fresh(a) && a[..] == Ascii(s)
  {
    a := new int8[|s|](i => if 0 <= i < |s| then AsciiByte(s[i]) else 0);
  }

  /** The response body of one `/stream.mjpg` connection. `next` parameters
      stand for what the frame supplier returns when the stream asks it for
      the latest image (`null` before the first frame). */
  class MultipartMjpegStream {
    const boundary: string
    const frameDelayMs: int
    var currentChunk: array?<int8>
    var idx: int

    ghost predicate Valid()
      reads this
    {
      if currentChunk == null then idx == 0 else 0 <= idx <= currentChunk.Length
    }

    /** The bytes of the current part already handed out. */
    ghost function Sent(): seq<int8>
      reads this, currentChunk
      requires Valid()
    {
      if currentChunk == null then [] else currentChunk[..idx]
    }

    constructor (boundary: string, fps: int, first: array?<int8>)
      ensures Valid()
      ensures this.boundary == boundary && frameDelayMs == FrameDelayMs(fps)
      ensures first == null ==> currentChunk == null
      ensures first != null ==> fresh(currentChunk) && currentChunk[..] == Part(boundary, first[..]) && idx == 0
    {
      this.boundary := boundary;
      frameDelayMs := 1000 / Max(1, fps);
      currentChunk := null;
      idx := 0;
      new;
      BuildNextChunk(first);
    }

    /** `buildNextChunk`: with a frame, a fresh part replaces the current one
        and the cursor returns to its start; without one, nothing changes. */
    method BuildNextChunk(jpeg: array?<int8>)
      requires Valid()
      modifies this
      ensures Valid()
      ensures jpeg == null ==> currentChunk == old(currentChunk) && idx == old(idx)
      ensures jpeg != null ==>
        fresh(currentChunk) && currentChunk[..] == Part(boundary, jpeg[..]) && idx == 0
    {
      if jpeg == null {
        return;
      }
      var head := GetBytes(PartHeader(boundary, jpeg.Length));
      var tail := GetBytes("\r\n");
      var chunk := Concat3(head, jpeg, tail);
      currentChunk := chunk;
      idx := 0;
    }

    /** Whether a read with supplier answer `next` starts a new part: only
        when the current part is used up and the supplier has a frame. */
    ghost predicate Rebuilds(next: array?<int8>)
      reads this
      requires Valid()
    {
      currentChunk != null && idx >= currentChunk.Length && next != null
    }

    /** `read(byte[], int, int)`: copies `n = min(len, remaining)` bytes of
        the current part from the cursor into `b[off..off+n)`, leaves the rest
        of `b` alone and advances the cursor by `n`. Before the first frame
        it returns 0 (and tries to build a part); a used-up part is replaced
        first when the supplier has a frame. */
    method ReadInto(b: array<int8>, off: int, len: int, next: array?<int8>) returns (n: int)
      requires Valid()
      requires b != currentChunk
      requires currentChunk != null ==> 0 <= off && 0 <= len && off + len <= b.Length
      modifies this, b
      ensures Valid()
      ensures old(currentChunk) == null ==>
        && n == 0 && b[..] == old(b[..])
        && (next == null ==> currentChunk == null)
        && (next != null ==> fresh(currentChunk) && currentChunk[..] == Part(boundary, old(next[..])) && idx == 0)
      ensures old(Rebuilds(next)) ==>
        && fresh(currentChunk)
        && currentChunk[..] == Part(boundary, old(next[..]))
        && n == Min(len, currentChunk.Length) && idx == n
        && b[off..off + n] == currentChunk[..n]
        && Sent() == b[off..off + n]
      ensures old(currentChunk) != null && !old(Rebuilds(next)) ==>
        && currentChunk == old(currentChunk) && currentChunk[..] == old(currentChunk[..])
        && n == Min(len, currentChunk.Length - old(idx)) && idx == old(idx) + n
        && b[off..off + n] == currentChunk[old(idx)..old(idx) + n]
        && Sent() == old(Sent()) + b[off..off + n]
      ensures old(currentChunk) != null ==>
        && 0 <= n <= len
        && forall k :: 0 <= k < b.Length && !(off <= k < off + n) ==> b[k] == old(b[k])
    {
      if currentChunk == null {
        BuildNextChunk(next);
        return 0;
      }
      if idx >= currentChunk.Length {
        // the pause of frameDelayMs before asking for a new frame is not modelled
        BuildNextChunk(next);
      }
      n := CopyOut(b, off, len);
    }

    /** The copy at the end of `read(byte[], int, int)`: the next
        `min(len, remaining)` bytes of the current part go to `b[off..)`. */
    method CopyOut(b: array<int8>, off: int, len: int) returns (n: int)
      requires Valid() && currentChunk != null && b != currentChunk
      requires 0 <= off && 0 <= len && off + len <= b.Length
      modifies this`idx, b
      ensures Valid()
      ensures n == Min(len, currentChunk.Length - old(idx)) && idx == old(idx) + n
      ensures currentChunk[..] == old(currentChunk[..])
      ensures b[off..off + n] == currentChunk[old(idx)..old(idx) + n]
      ensures Sent() == old(Sent()) + b[off..off + n]
      ensures forall k :: 0 <= k < b.Length && !(off <= k < off + n) ==> b[k] == old(b[k])
    {
      n := Min(len, currentChunk.Length - idx);
      ArrayCopy(currentChunk, idx, b, off, n);
      idx := idx + n;
      assert currentChunk[..idx] == currentChunk[..old(idx)] + currentChunk[old(idx)..idx];
    }

    /** `read()`: the next byte of the current part as a value in [0, 255],
        or -1 before the first frame. A used-up part is replaced first when
        the supplier has a frame; when it has none, -1 is returned and the
        state is left as it was (see the finding on
        `ReadByteAsWritten`). */
    method Read(next: array?<int8>) returns (r: int)
      requires Valid()
      modifies this
      ensures Valid()
      ensures -1 <= r <= 255
      ensures old(currentChunk) == null ==>
        && r == -1
        && (next == null ==> currentChunk == null)
        && (next != null ==> fresh(currentChunk) && currentChunk[..] == Part(boundary, old(next[..])) && idx == 0)
      ensures old(Rebuilds(next)) ==>
        && fresh(currentChunk) && currentChunk[..] == Part(boundary, old(next[..]))
        && idx == 1 && r == Unsigned(currentChunk[0]) && Sent() == [currentChunk[0]]
      ensures old(currentChunk) != null && old(idx) < old(currentChunk.Length) ==>
        && currentChunk == old(currentChunk) && idx == old(idx) + 1
        && r == Unsigned(currentChunk[old(idx)]) && Sent() == old(Sent()) + [currentChunk[old(idx)]]
      ensures old(currentChunk) != null && old(idx) >= old(currentChunk.Length) && next == null ==>
        r == -1 && currentChunk == old(currentChunk) && idx == old(idx)
    {
      if currentChunk == null {
        BuildNextChunk(next);
        return -1;
      }
      if idx >= currentChunk.Length {
        BuildNextChunk(next);
        if idx >= currentChunk.Length {
          return -1;
        }
      }
      r := Unsigned(currentChunk[idx]);
      idx := idx + 1;
    }
  }

  // ---------------------------------------------------------------------
  // `read()` as written

  /** The cursor state of a stream: the current part (if any) and `idx`. */
  datatype StreamState = StreamState(chunk: Option<seq<int8>>, idx: int)

  datatype ReadOutcome = Byte(value: int) | EndOfStream | IndexOutOfBounds

  /** A step of `read()` exactly as the code reads: after the used-up part is
      kept (no frame), `currentChunk[idx++]` indexes one past its end, which
      in Java raises ArrayIndexOutOfBoundsException after `idx` has been
      incremented. */
  function ReadByteAsWritten(boundary: string, s: StreamState, next: Option<seq<int8>>): (res: (ReadOutcome, StreamState))
    requires s.chunk.Some? ==> 0 <= s.idx <= |s.chunk.value|
    ensures s.chunk.None? ==> res.0 == EndOfStream
    ensures res.0.Byte? ==> 0 <= res.0.value <= 255
  {
    match s.chunk
    case None =>
      (EndOfStream, match next case None => s case Some(j) => StreamState(Some(Part(boundary, j)), 0))
    case Some(c) =>
      var s' := if s.idx >= |c| then
                  (match next case None => s case Some(j) => StreamState(Some(Part(boundary, j)), 0))
                else s;
      var c' := s'.chunk.value;
      if s'.idx < |c'| then (Byte(Unsigned(c'[s'.idx])), StreamState(s'.chunk, s'.idx + 1))
      else (IndexOutOfBounds, StreamState(s'.chunk, s'.idx + 1))
  }

  /** The discrepancy: once a part has been read to its end and the supplier
      has no frame, `read()` fails with an index one past the part, and the
      cursor is left outside the part. */
  lemma ReadAfterUsedUpPartWithoutFrame(boundary: string, jpeg: seq<int8>)
    ensures var c := Part(boundary, jpeg);
      ReadByteAsWritten(boundary, StreamState(Some(c), |c|), None)
        == (IndexOutOfBounds, StreamState(Some(c), |c| + 1))
  {
  }
}
