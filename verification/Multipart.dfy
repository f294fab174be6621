/**
 * The incremental multipart parser of the device streams: a state object that is fed network chunks
 * and returns the parts each chunk completes.
 */
module Multipart {
  import opened Bytes
  import opened Search
  import opened Wrappers
  import opened PartHeaders

  const MAX_HEADER: nat := 65536

  // "application/octet-stream"
  const OCTET_STREAM: bytes :=
    [97, 112, 112, 108, 105, 99, 97, 116, 105, 111, 110, 47, 111, 99, 116, 101, 116, 45, 115, 116, 114, 101, 97, 109]

  datatype Part = Part(contentType: bytes, body: bytes)

  datatype Phase = SeekBoundary | ReadHeaders | ReadBody

  /** What matters of the parser's state: the residual buffer and, inside a body, the bytes taken so far. */
  datatype State =
    | Seek(buf: bytes)
    | Headers(buf: bytes)
    | Body(buf: bytes, contentType: Option<bytes>, length: nat, got: bytes)

  // ---------- the functions that specify the steps ----------

  /** Position after the boundary line: the first marker, an optional `--`, an optional CR, an optional LF. */
  function BoundaryLineEnd(buf: bytes, marker: bytes): (end: Option<nat>)
    ensures end.None? <==> !Occurs(buf, marker)
    ensures end.Some? ==> |marker| <= end.value <= |buf|
  {
    var i := IndexOf(buf, marker);
    if i == -1 then None else
      var afterDashes := Skip(Skip2(buf, i + |marker|), buf, CR);
      Some(Skip(afterDashes, buf, LF))
  }

  function Skip(at: nat, buf: bytes, b: byte): (r: nat)
    requires at <= |buf|
    ensures at <= r <= |buf|
  {
    if at < |buf| && buf[at] == b then at + 1 else at
  }

  function Skip2(buf: bytes, at: nat): (r: nat)
    requires at <= |buf|
    ensures at <= r <= |buf|
  {
    if at + 1 < |buf| && buf[at] == DASH && buf[at + 1] == DASH then at + 2 else at
  }

  /** Length of the header block and of the blank line that ends it; CR LF wins over bare LF. */
  function HeadersSeparator(buf: bytes): (sep: Option<(nat, nat)>)
    ensures sep.None? <==> !Occurs(buf, BLANK_LINE) && !Occurs(buf, BARE_BLANK_LINE)
    ensures sep.Some? ==> sep.value.1 == (if Occurs(buf, BLANK_LINE) then 4 else 2) && sep.value.0 + sep.value.1 <= |buf|
    ensures sep.Some? ==>
              var end := if Occurs(buf, BLANK_LINE) then BLANK_LINE else BARE_BLANK_LINE;
              MatchAt(buf, end, sep.value.0) && forall i :: i < sep.value.0 ==> !MatchAt(buf, end, i)
  {
    var crlf := IndexOf(buf, BLANK_LINE);
    if crlf != -1 then Some((crlf, 4)) else
      var lf := IndexOf(buf, BARE_BLANK_LINE);
      if lf != -1 then Some((lf, 2)) else None
  }

  function KeepLast(buf: bytes, n: nat): (r: bytes)
    ensures |r| <= n
  {
    if |buf| > n then buf[|buf| - n..] else buf
  }

  /** One turn of the parser's loop: the new state, the parts it completes and whether it has to wait for bytes. */
  function Turn(marker: bytes, s: State): (r: (State, seq<Part>, bool))
    requires marker != []
    ensures !r.2 ==> |r.0.buf| < |s.buf| || (|r.0.buf| == |s.buf| && s.Body? && !r.0.Body?)
  {
    match s
    case Seek(buf) =>
      (match BoundaryLineEnd(buf, marker)
       case None => (Seek(KeepLast(buf, |marker|)), [], true)
       case Some(end) => (Headers(buf[end..]), [], false))
    case Headers(buf) =>
      (match HeadersSeparator(buf)
       case None => (Headers(KeepLast(buf, MAX_HEADER)), [], true)
       case Some((headerLen, sepLen)) =>
         var fields := FieldsOf(SplitLines(buf[..headerLen]));
         var rest := buf[headerLen + sepLen..];
         if fields.contentLength.None? then (Seek(rest), [], false)
         else (Body(rest, fields.contentType, fields.contentLength.value, []), [], false))
    case Body(buf, contentType, length, got) =>
      if length <= |got| then (Seek(buf), [], false)
      else
        var need := length - |got|;
        if |buf| < need then (Body([], contentType, length, got + buf), [], true)
        else (Seek(buf[need..]), [Completed(contentType, got + buf[..need])], false)
  }

  /** Runs the parser until it has to wait for more bytes. */
  function Run(marker: bytes, s: State): (State, seq<Part>)
    requires marker != []
    decreases |s.buf|, if s.Body? then 1 else 0
  {
    var (now, out, waiting) := Turn(marker, s);
    if waiting then (now, out) else
      var (after, rest) := Run(marker, now);
      (after, out + rest)
  }

  function Completed(contentType: Option<bytes>, body: bytes): Part {
    Part(if contentType.Some? then contentType.value else OCTET_STREAM, body)
  }

  function Feed(marker: bytes, s: State, chunk: bytes): (State, seq<Part>)
    requires marker != []
  {
    Run(marker, s.(buf := s.buf + chunk))
  }

  /** Feeds chunks one after another. */
  function FeedAll(marker: bytes, s: State, chunks: seq<bytes>): (State, seq<Part>)
    requires marker != []
    decreases |chunks|
  {
    if chunks == [] then (s, []) else
      var (mid, first) := Feed(marker, s, chunks[0]);
      var (after, rest) := FeedAll(marker, mid, chunks[1..]);
      (after, first + rest)
  }

  // ---------- the parser itself ----------

  method ConsumeBoundaryLine(buf: bytes, marker: bytes) returns (after: Option<bytes>)
    ensures after == match BoundaryLineEnd(buf, marker) case None => None case Some(end) => Some(buf[end..])
  {
    hide MatchAt, IndexOf;
    var i := IndexOf(buf, marker);
    if i == -1 {
      return None;
    }
    var start := i + |marker|;
    if start + 1 < |buf| && buf[start] == DASH && buf[start + 1] == DASH {
      start := start + 2;
    }
    if start < |buf| && buf[start] == CR {
      start := start + 1;
    }
    if start < |buf| && buf[start] == LF {
      start := start + 1;
    }
    return Some(buf[start..]);
  }

  class MultipartAccumState {
    var phase: Phase
    var buf: bytes
    var contentType: Option<bytes>
    var contentLength: Option<nat>
    var bodyReceived: nat
    var bodyParts: seq<bytes>
    const boundaryMarker: bytes

    ghost predicate Valid()
      reads this
    {
      && boundaryMarker != []
      && (phase == ReadBody ==> contentLength.Some? && bodyReceived == |Flatten(bodyParts)|)
    }

    ghost function Abstract(): State
      requires Valid()
      reads this
    {
      match phase
      case SeekBoundary => Seek(buf)
      case ReadHeaders => Headers(buf)
      case ReadBody => Body(buf, contentType, contentLength.value, Flatten(bodyParts))
    }

    /** A parser for the given boundary parameter, with or without its leading dashes. */
    constructor (boundary: bytes)
      ensures Valid() && Abstract() == Seek([])
      ensures boundaryMarker == Marker(boundary)
    {
      phase, buf := SeekBoundary, [];
      contentType, contentLength := None, None;
      bodyReceived, bodyParts := 0, [];
      boundaryMarker := Marker(boundary);
    }

    method FeedMultipartStream(chunk: bytes) returns (completed: seq<Part>)
      requires Valid()
      modifies this
      ensures Valid()
      ensures (Abstract(), completed) == Feed(boundaryMarker, old(Abstract()), chunk)
    {
      buf := buf + chunk;
      completed := [];
      ghost var start := Abstract();
      var waiting := false;
      LeadsStart(boundaryMarker, start);
      assert start == old(Abstract()).(buf := old(Abstract()).buf + chunk);
      hide Leads, Run, Turn;
      while !waiting
        invariant Valid()
        invariant Leads(boundaryMarker, start, Abstract(), completed, waiting)
        decreases !waiting, |buf|, if phase == ReadBody then 1 else 0
      {
        LeadsOn(boundaryMarker, start, Abstract(), completed);
        if phase == SeekBoundary {
          waiting := SeekStep();
        } else if phase == ReadHeaders {
          waiting := HeadersStep();
        } else {
          var done: seq<Part>;
          waiting, done := BodyStep();
          completed := completed + done;
        }
      }
      LeadsDone(boundaryMarker, start, Abstract(), completed);
    }

    /** One turn of the loop while looking for a boundary line. */
    method SeekStep() returns (waiting: bool)
      requires Valid() && phase == SeekBoundary
      modifies this
      ensures Valid()
      ensures (Abstract(), [], waiting) == Turn(boundaryMarker, old(Abstract()))
    {
      var after := ConsumeBoundaryLine(buf, boundaryMarker);
      if after == None {
        // A marker further on would be kept from there, but the search has just found none.
        if |buf| > |boundaryMarker| {
          buf := buf[|buf| - |boundaryMarker|..];
        }
        return true;
      }
      buf := after.value;
      phase := ReadHeaders;
      contentType, contentLength := None, None;
      bodyReceived, bodyParts := 0, [];
      return false;
    }

    /** One turn of the loop inside a header block. */
    method HeadersStep() returns (waiting: bool)
      requires Valid() && phase == ReadHeaders
      modifies this
      ensures Valid()
      ensures (Abstract(), [], waiting) == Turn(boundaryMarker, old(Abstract()))
    {
      hide FieldsOf, HeadersSeparator;
      var sep := HeadersSeparator(buf);
      if sep == None {
        if |buf| > MAX_HEADER {
          buf := buf[|buf| - MAX_HEADER..];
        }
        return true;
      }
      var (headerLen, sepLen) := sep.value;
      contentType, contentLength := ParseHeadersText(buf[..headerLen]);
      buf := buf[headerLen + sepLen..];
      if contentLength == None {
        phase := SeekBoundary;
        return false;
      }
      phase := ReadBody;
      bodyReceived, bodyParts := 0, [];
      return false;
    }

    /** One turn of the loop inside a body. */
    method BodyStep() returns (waiting: bool, completed: seq<Part>)
      requires Valid() && phase == ReadBody
      modifies this
      ensures Valid()
      ensures (Abstract(), completed, waiting) == Turn(boundaryMarker, old(Abstract()))
    {
      completed := [];
      var need := contentLength.value - bodyReceived;
      if need <= 0 {
        phase := SeekBoundary;
        return false, [];
      }
      var take := if need < |buf| then need else |buf|;
      assert buf[..|buf|] == buf && Flatten(bodyParts) + [] == Flatten(bodyParts);
      if take > 0 {
        FlattenAppend(bodyParts, buf[..take]);
        bodyParts := bodyParts + [buf[..take]];
        buf := buf[take..];
        bodyReceived := bodyReceived + take;
      }
      if bodyReceived >= contentLength.value {
        var body := Flatten(bodyParts);
        completed := [Completed(contentType, body)];
        phase := SeekBoundary;
        bodyParts := [];
        return false, completed;
      }
      return true, [];
    }
  }

  /** Having emitted `out`, state `now` is on the run of `start`; when `waiting` it is the run's end. */
  ghost predicate Leads(marker: bytes, start: State, now: State, out: seq<Part>, waiting: bool)
    requires marker != []
  {
    Run(marker, start) == if waiting then (now, out) else (Run(marker, now).0, out + Run(marker, now).1)
  }

  lemma LeadsOn(marker: bytes, start: State, before: State, out: seq<Part>)
    requires marker != [] && Leads(marker, start, before, out, false)
    ensures var (now, done, waiting) := Turn(marker, before);
            Leads(marker, start, now, out + done, waiting) && (done == [] ==> Leads(marker, start, now, out, waiting))
  {
    hide Turn;
    var (now, done, waiting) := Turn(marker, before);
    assert waiting || (out + done) + Run(marker, now).1 == out + (done + Run(marker, now).1);
    assert out + [] == out;
  }

  lemma LeadsStart(marker: bytes, start: State)
    requires marker != []
    ensures Leads(marker, start, start, [], false)
  {
    assert [] + Run(marker, start).1 == Run(marker, start).1;
  }

  lemma LeadsDone(marker: bytes, start: State, now: State, out: seq<Part>)
    requires marker != [] && Leads(marker, start, now, out, true)
    ensures Run(marker, start) == (now, out)
  {
  }

  /** The delimiter of a boundary parameter: `--` and the parameter without a leading `--` of its own. */
  function Marker(boundary: bytes): (m: bytes)
    ensures |m| >= 2 && m[0] == DASH && m[1] == DASH
    ensures m[2..] == if [DASH, DASH] <= boundary then boundary[2..] else boundary
  {
    [DASH, DASH] + if [DASH, DASH] <= boundary then boundary[2..] else boundary
  }
}
