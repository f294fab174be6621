/**
 * What the parser promises over whole streams: the parts come out exactly and in order, however the
 * network cuts the stream, and the residual buffer stays small.
 */
module MultipartRoundTrip {
  import opened Bytes
  import opened Search
  import opened Wrappers
  import opened PartHeaders
  import opened Multipart

  // ---------- the residual buffer ----------

  /** A state in which the parser can only wait. */
  ghost predicate Settled(marker: bytes, s: State) {
    match s
    case Seek(buf) => |buf| <= |marker| && !Occurs(buf, marker)
    case Headers(buf) => |buf| <= MAX_HEADER && !Occurs(buf, BLANK_LINE) && !Occurs(buf, BARE_BLANK_LINE)
    case Body(buf, _, length, got) => buf == [] && |got| < length
  }

  lemma KeepLastQuiet(buf: bytes, n: nat, p: bytes)
    requires !Occurs(buf, p)
    ensures !Occurs(KeepLast(buf, n), p)
  {
    if |buf| > n {
      NoMatchInSuffix(buf, p, |buf| - n);
    }
  }

  /** Whatever the state and the chunk, feeding ends settled. */
  lemma {:induction false} RunSettles(marker: bytes, s: State)
    requires marker != []
    ensures Settled(marker, Run(marker, s).0)
    decreases |s.buf|, if s.Body? then 1 else 0
  {
    var (now, _, waiting) := Turn(marker, s);
    if waiting {
      match s
      case Seek(buf) => KeepLastQuiet(buf, |marker|, marker);
      case Headers(buf) =>
        KeepLastQuiet(buf, MAX_HEADER, BLANK_LINE);
        KeepLastQuiet(buf, MAX_HEADER, BARE_BLANK_LINE);
      case Body(_, _, _, _) =>
    } else {
      RunSettles(marker, now);
    }
  }

  // ---------- streams on the wire ----------

  /**
   * One part as it is sent: bytes before its delimiter line, whether that is a closing one, the header block
   * and the body. (The parser reads on after a closing delimiter.)
   */
  datatype Frame = Frame(gap: bytes, closing: bool, headers: bytes, body: bytes)

  /** What stands between the marker and the header block. */
  function LineEnd(f: Frame): bytes {
    if f.closing then CLOSE else CRLF
  }

  /** How a stream ends: with bytes that hold no delimiter, or with a close delimiter and an epilogue. */
  datatype Ending = Open(junk: bytes) | Closed(gap: bytes, epilogue: bytes)

  function FrameBytes(marker: bytes, f: Frame): bytes {
    f.gap + marker + LineEnd(f) + f.headers + BLANK_LINE + f.body
  }

  function EndingBytes(marker: bytes, e: Ending): bytes {
    match e
    case Open(junk) => junk
    case Closed(gap, epilogue) => gap + marker + (CLOSE + epilogue)
  }

  function Wire(marker: bytes, frames: seq<Frame>, e: Ending): bytes {
    if frames == [] then EndingBytes(marker, e) else FrameBytes(marker, frames[0]) + Wire(marker, frames[1..], e)
  }

  /** No delimiter starts inside the gap. */
  ghost predicate CleanGap(gap: bytes, marker: bytes) {
    forall i :: 0 <= i < |gap| ==> !MatchAt(gap + marker, marker, i)
  }

  ghost predicate Unseparated(s: bytes) {
    !Occurs(s, BLANK_LINE) && !Occurs(s, BARE_BLANK_LINE)
  }

  /** A header block without a blank line, not even together with the line ends around it. (So it is not empty.) */
  ghost predicate Separable(headers: bytes) {
    Unseparated(CRLF + headers + [CR, LF, CR])
  }

  /** What a header text says about the part: its length, if any, and its media type. */
  function Announces(text: bytes): (Option<nat>, bytes) {
    var fields := FieldsOf(SplitLines(text));
    (fields.contentLength, Completed(fields.contentType, []).contentType)
  }

  /**
   * Whatever the 64 KiB limit may cut off the front of a header block says nothing about the part. A block of
   * at most 65533 bytes loses nothing.
   */
  predicate Robust(headers: bytes) {
    forall d: nat :: d + MAX_HEADER <= |headers| + 3 ==> Announces(headers[d..]) == Announces(headers)
  }

  lemma ShortIsRobust(headers: bytes)
    requires |headers| + 3 <= MAX_HEADER
    ensures Robust(headers)
  {
    assert headers[0..] == headers;
  }

  /** A frame that announces its media type and the length of its body. */
  ghost predicate GoodFrame(marker: bytes, f: Frame) {
    && CleanGap(f.gap, marker)
    && Separable(f.headers) && Robust(f.headers)
    && Announces(f.headers).0 == Some(|f.body|)
  }

  ghost predicate GoodEnding(marker: bytes, e: Ending) {
    match e
    case Open(junk) => !Occurs(junk, marker)
    case Closed(gap, epilogue) => CleanGap(gap, marker) && Unseparated(CLOSE + epilogue)
  }

  ghost predicate GoodStream(marker: bytes, frames: seq<Frame>, e: Ending) {
    (forall f :: f in frames ==> GoodFrame(marker, f)) && GoodEnding(marker, e)
  }

  function PartOf(f: Frame): Part {
    Completed(FieldsOf(SplitLines(f.headers)).contentType, f.body)
  }

  /** The parts a stream carries. The parser drops parts with an empty body. */
  function Parts(frames: seq<Frame>): seq<Part> {
    if frames == [] then []
    else (if frames[0].body == [] then [] else [PartOf(frames[0])]) + Parts(frames[1..])
  }

  // ---------- the invariant between chunks ----------

  /** The parser in state `s`, with `rest` still to come, is about to see exactly `frames` and `e`. */
  ghost predicate Expects(marker: bytes, s: State, rest: bytes, frames: seq<Frame>, e: Ending) {
    && GoodStream(marker, frames, e)
    && match s
       case Seek(buf) => buf + rest == Wire(marker, frames, e)
       case Headers(buf) =>
         if frames == [] then Unseparated(buf + rest)
         else exists d :: InHeaders(marker, d, buf + rest, frames, e)
       case Body(buf, contentType, length, got) =>
         && frames != []
         && length == |frames[0].body|
         && (|got| < length || length == 0)
         && Completed(contentType, frames[0].body) == PartOf(frames[0])
         && got <= frames[0].body
         && got + (buf + rest) == frames[0].body + Wire(marker, frames[1..], e)
  }

  /** A closing delimiter's rest and the header block, the longest text that may come before a body. */
  function Lead(f: Frame): bytes {
    CLOSE + f.headers
  }

  /** How much of it may be gone: the delimiter's rest, and what the limit cuts off. */
  predicate MayBeGone(d: int, f: Frame) {
    0 <= d <= |Lead(f)| && (d <= 4 || d + MAX_HEADER <= |Lead(f)| + 3)
  }

  ghost predicate InHeaders(marker: bytes, d: int, coming: bytes, frames: seq<Frame>, e: Ending)
    requires frames != []
  {
    && MayBeGone(d, frames[0])
    && coming == Lead(frames[0])[d..] + BLANK_LINE + (frames[0].body + Wire(marker, frames[1..], e))
  }

  // ---------- seeking ----------

  /** In a stream that starts with a clean gap and a marker, the first marker seen is that one. */
  lemma FirstMarker(buf: bytes, rest: bytes, gap: bytes, marker: bytes, more: bytes)
    requires buf + rest == gap + marker + more && CleanGap(gap, marker)
    ensures IndexOf(buf, marker) == if |buf| < |gap| + |marker| then -1 else |gap|
  {
    var whole := gap + marker;
    forall i | 0 <= i < |gap| ensures !MatchAt(buf, marker, i) {
      if MatchAt(buf, marker, i) {
        MatchInPrefix(buf, rest, marker, i);
        MatchInPrefix(whole, more, marker, i);
      }
    }
    if |gap| + |marker| <= |buf| {
      assert buf[|gap|..|gap| + |marker|] == (buf + rest)[|gap|..|gap| + |marker|] == marker;
      FirstMatch(buf, marker, |gap|);
    }
  }

  /** Dropping the front of a clean gap leaves a clean gap. */
  lemma ShorterGap(gap: bytes, marker: bytes, d: nat)
    requires d <= |gap| && CleanGap(gap, marker)
    ensures CleanGap(gap[d..], marker)
  {
    forall i | 0 <= i < |gap| - d ensures !MatchAt(gap[d..] + marker, marker, i) {
      assert gap[d..] + marker == (gap + marker)[d..];
      MatchInSuffix(gap + marker, marker, d, i);
    }
  }

  /** While no marker is complete, keeping the last bytes only shortens the gap. */
  lemma GapKept(buf: bytes, rest: bytes, gap: bytes, marker: bytes, more: bytes) returns (shorter: bytes)
    requires buf + rest == gap + marker + more && CleanGap(gap, marker) && |buf| < |gap| + |marker|
    ensures KeepLast(buf, |marker|) + rest == shorter + marker + more && CleanGap(shorter, marker)
  {
    if |buf| > |marker| {
      var d := |buf| - |marker|;
      shorter := gap[d..];
      ShorterGap(gap, marker, d);
      assert buf[d..] + rest == (buf + rest)[d..] == gap[d..] + marker + more;
    } else {
      shorter := gap;
    }
  }

  /** Bytes of a delimiter's rest that the parser takes with the marker: a lone dash is left. */
  function Taken(seen: nat, closing: bool): nat {
    if closing then if seen < 2 then 0 else if seen < 4 then seen else 4 else if seen < 2 then seen else 2
  }

  lemma DelimiterLineEnd(buf: bytes, gap: bytes, marker: bytes, closing: bool)
    requires IndexOf(buf, marker) == |gap| && |gap| + |marker| <= |buf|
    requires var line := if closing then CLOSE else CRLF;
             forall i :: 0 <= i < |line| && |gap| + |marker| + i < |buf| ==> buf[|gap| + |marker| + i] == line[i]
    ensures BoundaryLineEnd(buf, marker) == Some(|gap| + |marker| + Taken(|buf| - |gap| - |marker|, closing))
  {
    hide IndexOf, MatchAt;
    var p, line := |gap| + |marker|, if closing then CLOSE else CRLF;
    assert p < |buf| ==> buf[p + 0] == line[0];
    assert p + 1 < |buf| ==> buf[p + 1] == line[1];
    if closing {
      assert p + 2 < |buf| ==> buf[p + 2] == line[2];
      assert p + 3 < |buf| ==> buf[p + 3] == line[3];
    }
  }

  /** After a delimiter, whatever of its line has not been taken stands before the headers. */
  lemma AfterDelimiter(buf: bytes, rest: bytes, gap: bytes, marker: bytes, closing: bool, more: bytes) returns (d: nat)
    requires buf + rest == gap + marker + ((if closing then CLOSE else CRLF) + more) && CleanGap(gap, marker)
    requires |gap| + |marker| <= |buf|
    ensures BoundaryLineEnd(buf, marker).Some?
    ensures d <= 4 && buf[BoundaryLineEnd(buf, marker).value..] + rest == CLOSE[d..] + more
    ensures BoundaryLineEnd(buf, marker).value == |gap| + |marker| + Taken(|buf| - |gap| - |marker|, closing)
  {
    hide MatchAt, IndexOf, BoundaryLineEnd, CleanGap, Taken;
    var line := if closing then CLOSE else CRLF;
    var p := |gap| + |marker|;
    var seen := buf[p..];
    FirstMarker(buf, rest, gap, marker, line + more);
    Split(buf, rest, gap + marker, line + more, p);
    LineSeen(buf, p, rest, line, more);
    DelimiterLineEnd(buf, gap, marker, closing);
    d := LineLeft(seen, rest, closing, more);
    assert buf[p + Taken(|seen|, closing)..] == seen[Taken(|seen|, closing)..];
  }

  lemma LineSeen(buf: bytes, p: nat, rest: bytes, line: bytes, more: bytes)
    requires p <= |buf| && buf[p..] + rest == line + more
    ensures forall i :: 0 <= i < |line| && p + i < |buf| ==> buf[p + i] == line[i]
  {
    var seen := buf[p..];
    forall i | 0 <= i < |line| && p + i < |buf| ensures buf[p + i] == line[i] {
      assert buf[p + i] == seen[i] == (seen + rest)[i] == (line + more)[i];
    }
  }

  lemma LineLeft(seen: bytes, rest: bytes, closing: bool, more: bytes) returns (d: nat)
    requires seen + rest == (if closing then CLOSE else CRLF) + more
    ensures d <= 4 && Taken(|seen|, closing) <= |seen|
    ensures seen[Taken(|seen|, closing)..] + rest == CLOSE[d..] + more
  {
    var line, n := if closing then CLOSE else CRLF, Taken(|seen|, closing);
    Split(seen, rest, line, more, n);
    d := 4 - |line| + n;
    assert line[n..] == CLOSE[d..];
  }

  /** Cutting `n` bytes off the front of one stream written in two ways. */
  lemma Split(a: bytes, b: bytes, c: bytes, d: bytes, n: nat)
    requires a + b == c + d && n <= |a| && n <= |c|
    ensures a[n..] + b == c[n..] + d
    ensures n == |c| ==> a[n..] + b == d
  {
    assert a[n..] + b == (a + b)[n..];
    assert c[n..] + d == (c + d)[n..];
  }

  lemma AfterClose(buf: bytes, rest: bytes, gap: bytes, marker: bytes, more: bytes)
    requires buf + rest == gap + marker + more && CleanGap(gap, marker)
    requires |gap| + |marker| <= |buf|
    requires Unseparated(more)
    ensures BoundaryLineEnd(buf, marker).Some?
    ensures Unseparated(buf[BoundaryLineEnd(buf, marker).value..] + rest)
  {
    hide MatchAt, Occurs, CleanGap, IndexOf;
    FirstMarker(buf, rest, gap, marker, more);
    var p := |gap| + |marker|;
    var end := BoundaryLineEnd(buf, marker).value;
    CutOut(gap, marker, more);
    assert buf[end..] + rest == (buf + rest)[end..] == more[end - p..];
    NoMatchInSuffix(more, BLANK_LINE, end - p);
    NoMatchInSuffix(more, BARE_BLANK_LINE, end - p);
  }

  lemma WireHead(marker: bytes, frames: seq<Frame>, e: Ending)
    requires frames != []
    ensures Wire(marker, frames, e)
         == frames[0].gap + marker + (LineEnd(frames[0]) + (frames[0].headers + BLANK_LINE + (frames[0].body + Wire(marker, frames[1..], e))))
  {
  }

  /** Replacing the gap of the first frame changes neither the parts nor the rest. */
  function WithGap(frames: seq<Frame>, gap: bytes): seq<Frame>
    requires frames != []
  {
    [frames[0].(gap := gap)] + frames[1..]
  }

  lemma PushIn(line: bytes, d: nat, b: bytes, c: bytes, e: bytes)
    requires d <= |line|
    ensures line[d..] + (b + c + e) == (line + b)[d..] + c + e
  {
    assert (line + b)[d..] == line[d..] + b;
  }

  lemma WithGapGood(marker: bytes, frames: seq<Frame>, gap: bytes, e: Ending)
    requires frames != [] && GoodStream(marker, frames, e) && CleanGap(gap, marker)
    ensures GoodStream(marker, WithGap(frames, gap), e) && Parts(WithGap(frames, gap)) == Parts(frames)
  {
    hide SplitLines, FieldsOf, Separable, Robust;
    var frames' := WithGap(frames, gap);
    assert GoodFrame(marker, frames[0]);
    assert GoodFrame(marker, frames'[0]);
    assert frames'[1..] == frames[1..];
    forall g | g in frames' ensures GoodFrame(marker, g) {
      assert g == frames'[0] || g in frames[1..];
    }
  }

  lemma SeekFrame(marker: bytes, buf: bytes, rest: bytes, frames: seq<Frame>, e: Ending) returns (frames': seq<Frame>)
    requires marker != [] && frames != [] && Expects(marker, Seek(buf), rest, frames, e)
    ensures Expects(marker, Turn(marker, Seek(buf)).0, rest, frames', e)
    ensures Parts(frames') == Parts(frames)
  {
    hide SplitLines, FieldsOf, Separable, Robust, Wire, Parts, MatchAt;
    var f := frames[0];
    assert GoodFrame(marker, f);
    var more := f.headers + BLANK_LINE + (f.body + Wire(marker, frames[1..], e));
    WireHead(marker, frames, e);
    FirstMarker(buf, rest, f.gap, marker, LineEnd(f) + more);
    if |buf| < |f.gap| + |marker| {
      var gap := GapKept(buf, rest, f.gap, marker, LineEnd(f) + more);
      frames' := WithGap(frames, gap);
      WithGapGood(marker, frames, gap, e);
      WireHead(marker, frames', e);
      assert frames'[1..] == frames[1..];
    } else {
      frames' := frames;
      var d := AfterDelimiter(buf, rest, f.gap, marker, f.closing, more);
      PushIn(CLOSE, d, f.headers, BLANK_LINE, f.body + Wire(marker, frames[1..], e));
      assert InHeaders(marker, d, buf[BoundaryLineEnd(buf, marker).value..] + rest, frames, e);
    }
  }

  lemma SeekEnd(marker: bytes, buf: bytes, rest: bytes, e: Ending) returns (e': Ending)
    requires marker != [] && Expects(marker, Seek(buf), rest, [], e)
    ensures Expects(marker, Turn(marker, Seek(buf)).0, rest, [], e')
  {
    e' := e;
    match e
    case Open(junk) =>
      NoMatchInPrefix(buf, rest, marker);
      if |buf| > |marker| {
        var d := |buf| - |marker|;
        assert buf[d..] + rest == (buf + rest)[d..];
        NoMatchInSuffix(buf + rest, marker, d);
        e' := Open(buf[d..] + rest);
      }
    case Closed(gap, epilogue) =>
      FirstMarker(buf, rest, gap, marker, CLOSE + epilogue);
      if |buf| < |gap| + |marker| {
        var shorter := GapKept(buf, rest, gap, marker, CLOSE + epilogue);
        e' := Closed(shorter, epilogue);
      } else {
        AfterClose(buf, rest, gap, marker, CLOSE + epilogue);
      }
  }

  // ---------- header blocks ----------

  lemma LeadUnseparated(f: Frame, d: nat)
    requires Separable(f.headers) && d <= |Lead(f)|
    ensures Unseparated(Lead(f)[d..] + [CR, LF, CR])
  {
    var short, padded := CRLF + f.headers + [CR, LF, CR], Lead(f) + [CR, LF, CR];
    assert padded[2..] == short;
    StillMissing(padded, short, BLANK_LINE);
    StillMissing(padded, short, BARE_BLANK_LINE);
    assert padded[d..] == Lead(f)[d..] + [CR, LF, CR];
    NoMatchInSuffix(padded, BLANK_LINE, d);
    NoMatchInSuffix(padded, BARE_BLANK_LINE, d);
  }

  lemma StillMissing(padded: bytes, short: bytes, p: bytes)
    requires |padded| >= 2 && padded[2..] == short && padded[0] == padded[1] == DASH
    requires p != [] && p[0] != DASH && !Occurs(short, p)
    ensures !Occurs(padded, p)
  {
    if Occurs(padded, p) {
      var i :| MatchAt(padded, p, i);
      assert padded[i] == padded[i..i + |p|][0];
      MatchInSuffix(padded, p, 2, i - 2);
    }
  }

  /** The first separator seen after a text without one is the one that follows it. */
  lemma FirstSeparator(buf: bytes, rest: bytes, text: bytes, more: bytes)
    requires Unseparated(text + [CR, LF, CR])
    requires buf + rest == text + BLANK_LINE + more
    ensures HeadersSeparator(buf) == if |buf| < |text| + 4 then None else Some((|text|, 4))
  {
    var k := |text|;
    var front := text + [CR, LF, CR];
    assert buf + rest == front + ([LF] + more);
    forall i | 0 <= i < |front| && i + 4 <= |front| ensures !MatchAt(buf, BLANK_LINE, i) {
      Earlier(buf, rest, front, [LF] + more, BLANK_LINE, i);
    }
    forall i | 0 <= i < |front| && i + 2 <= |front| ensures !MatchAt(buf, BARE_BLANK_LINE, i) {
      Earlier(buf, rest, front, [LF] + more, BARE_BLANK_LINE, i);
    }
    if |buf| >= k + 4 {
      assert buf[k..k + 4] == (buf + rest)[k..k + 4] == BLANK_LINE;
      FirstMatch(buf, BLANK_LINE, k);
    } else {
      assert !Occurs(buf, BLANK_LINE);
      assert !Occurs(buf, BARE_BLANK_LINE);
    }
  }

  lemma Earlier(buf: bytes, rest: bytes, front: bytes, more: bytes, p: bytes, i: nat)
    requires buf + rest == front + more && i + |p| <= |front| && !MatchAt(front, p, i)
    ensures !MatchAt(buf, p, i)
  {
    if MatchAt(buf, p, i) {
      MatchInPrefix(buf, rest, p, i);
      MatchInPrefix(front, more, p, i);
    }
  }

  lemma HeadersTurn(marker: bytes, buf: bytes, rest: bytes, frames: seq<Frame>, e: Ending)
    requires marker != [] && frames != [] && Expects(marker, Headers(buf), rest, frames, e)
    ensures Expects(marker, Turn(marker, Headers(buf)).0, rest, frames, e)
  {
    hide SplitLines, FieldsOf, Wire, MatchAt, Unseparated, HeadersSeparator, Separable, Robust, Lead;
    var f := frames[0];
    assert GoodFrame(marker, f);
    var d :| InHeaders(marker, d, buf + rest, frames, e);
    var text, more := Lead(f)[d..], f.body + Wire(marker, frames[1..], e);
    LeadUnseparated(f, d);
    FirstSeparator(buf, rest, text, more);
    if |buf| < |text| + 4 {
      var d' := HeadersKept(buf, rest, f, d, more);
      assert InHeaders(marker, d', KeepLast(buf, MAX_HEADER) + rest, frames, e);
    } else {
      HeadersComplete(buf, rest, text, more);
      SaysTheSame(f, d);
      var after := buf[|text| + 4..];
      assert [] + (after + rest) == more;
    }
  }

  /** What may be gone says nothing about the part. */
  lemma SaysTheSame(f: Frame, d: int)
    requires Robust(f.headers) && MayBeGone(d, f)
    ensures Announces(Lead(f)[d..]) == Announces(f.headers)
  {
    hide SplitLines, FieldsOf;
    if d <= 4 {
      LineEndRestIgnored(CLOSE[d..], f.headers);
      assert Lead(f)[d..] == CLOSE[d..] + f.headers;
    } else {
      assert Lead(f)[d..] == f.headers[d - 4..];
      assert (d - 4) + MAX_HEADER <= |f.headers| + 3;
    }
  }

  /** Keeping the last 64 KiB of an incomplete header block loses no more than may be gone. */
  lemma HeadersKept(buf: bytes, rest: bytes, f: Frame, d: int, more: bytes) returns (d': int)
    requires MayBeGone(d, f) && |buf| < |Lead(f)[d..]| + 4
    requires buf + rest == Lead(f)[d..] + BLANK_LINE + more
    ensures MayBeGone(d', f) && KeepLast(buf, MAX_HEADER) + rest == Lead(f)[d'..] + BLANK_LINE + more
  {
    d' := d;
    if |buf| > MAX_HEADER {
      var t := |buf| - MAX_HEADER;
      d' := d + t;
      var text := Lead(f)[d..];
      assert Lead(f)[d'..] == text[t..];
      assert buf[t..] + rest == (buf + rest)[t..] == text[t..] + BLANK_LINE + more;
    }
  }

  lemma HeadersComplete(buf: bytes, rest: bytes, text: bytes, more: bytes)
    requires buf + rest == text + BLANK_LINE + more && |text| + 4 <= |buf|
    ensures buf[..|text|] == text && buf[|text| + 4..] + rest == more
  {
    CutOut(text, BLANK_LINE, more);
    assert buf[..|text|] == (buf + rest)[..|text|];
    assert buf[|text| + 4..] + rest == (buf + rest)[|text| + 4..];
  }

  lemma CutOut(a: bytes, b: bytes, c: bytes)
    ensures (a + b + c)[..|a|] == a && (a + b + c)[|a| + |b|..] == c
  {
  }

  lemma HeadersAtEnd(marker: bytes, buf: bytes, rest: bytes, e: Ending)
    requires marker != [] && Expects(marker, Headers(buf), rest, [], e)
    ensures Expects(marker, Turn(marker, Headers(buf)).0, rest, [], e) && Turn(marker, Headers(buf)).2
  {
    NoMatchInPrefix(buf, rest, BLANK_LINE);
    NoMatchInPrefix(buf, rest, BARE_BLANK_LINE);
    if |buf| > MAX_HEADER {
      var d := |buf| - MAX_HEADER;
      assert buf[d..] + rest == (buf + rest)[d..];
      NoMatchInSuffix(buf + rest, BLANK_LINE, d);
      NoMatchInSuffix(buf + rest, BARE_BLANK_LINE, d);
    }
  }

  // ---------- bodies ----------

  lemma BodyTurn(marker: bytes, s: State, rest: bytes, frames: seq<Frame>, e: Ending) returns (frames': seq<Frame>)
    requires marker != [] && s.Body? && Expects(marker, s, rest, frames, e)
    ensures Expects(marker, Turn(marker, s).0, rest, frames', e)
    ensures Parts(frames) == Turn(marker, s).1 + Parts(frames')
  {
    hide SplitLines, FieldsOf, Wire, MatchAt, GoodFrame, GoodEnding;
    var Body(buf, contentType, length, got) := s;
    var body, tail := frames[0].body, Wire(marker, frames[1..], e);
    var need := length - |got|;
    if 0 < need && |buf| < need {
      frames' := frames;
      assert (got + buf) + ([] + rest) == got + (buf + rest) == body + tail;
      assert got + buf == (body + tail)[..|got + buf|] == body[..|got + buf|];
    } else {
      frames' := frames[1..];
      if 0 < need {
        assert got + buf[..need] == (got + (buf + rest))[..length] == body;
      }
      assert buf[need..] + rest == (got + (buf + rest))[length..] == tail;
      assert buf[0..] == buf;
    }
  }

  // ---------- whole runs ----------

  lemma OneTurn(marker: bytes, s: State, rest: bytes, frames: seq<Frame>, e: Ending)
    returns (frames': seq<Frame>, e': Ending)
    requires marker != [] && Expects(marker, s, rest, frames, e)
    ensures Expects(marker, Turn(marker, s).0, rest, frames', e')
    ensures Parts(frames) == Turn(marker, s).1 + Parts(frames')
  {
    hide Expects, Parts, Run;
    frames', e' := frames, e;
    match s
    case Seek(buf) =>
      if frames == [] {
        e' := SeekEnd(marker, buf, rest, e);
      } else {
        frames' := SeekFrame(marker, buf, rest, frames, e);
      }
      assert Parts(frames) == [] + Parts(frames');
    case Headers(buf) =>
      if frames == [] {
        HeadersAtEnd(marker, buf, rest, e);
      } else {
        HeadersTurn(marker, buf, rest, frames, e);
      }
      assert Parts(frames) == [] + Parts(frames');
    case Body(_, _, _, _) =>
      frames' := BodyTurn(marker, s, rest, frames, e);
  }

  lemma {:induction false} RunDelivers(marker: bytes, s: State, rest: bytes, frames: seq<Frame>, e: Ending)
    returns (frames': seq<Frame>, e': Ending)
    requires marker != [] && Expects(marker, s, rest, frames, e)
    ensures Expects(marker, Run(marker, s).0, rest, frames', e')
    ensures Parts(frames) == Run(marker, s).1 + Parts(frames')
    decreases |s.buf|, if s.Body? then 1 else 0
  {
    hide Expects, Parts, Turn;
    frames', e' := OneTurn(marker, s, rest, frames, e);
    var (now, out, waiting) := Turn(marker, s);
    if !waiting {
      var mid := frames';
      frames', e' := RunDelivers(marker, now, rest, mid, e');
      assert out + (Run(marker, now).1 + Parts(frames')) == (out + Run(marker, now).1) + Parts(frames');
    }
  }

  lemma {:induction false} ChunksDeliver(marker: bytes, s: State, chunks: seq<bytes>, frames: seq<Frame>, e: Ending)
    requires marker != [] && Expects(marker, s, Flatten(chunks), frames, e) && Settled(marker, s)
    ensures FeedAll(marker, s, chunks).1 == Parts(frames)
    decreases |chunks|
  {
    if chunks == [] {
      NothingLeft(marker, s, frames, e);
    } else {
      hide Parts, Turn, Settled;
      var rest := Flatten(chunks[1..]);
      var fed := s.(buf := s.buf + chunks[0]);
      ChunkArrives(marker, s, chunks[0], rest, frames, e);
      var frames', e' := RunDelivers(marker, fed, rest, frames, e);
      RunSettles(marker, fed);
      ChunksDeliver(marker, Run(marker, fed).0, chunks[1..], frames', e');
    }
  }

  lemma ChunkArrives(marker: bytes, s: State, chunk: bytes, rest: bytes, frames: seq<Frame>, e: Ending)
    requires Expects(marker, s, chunk + rest, frames, e)
    ensures Expects(marker, s.(buf := s.buf + chunk), rest, frames, e)
  {
    assert s.buf + (chunk + rest) == (s.buf + chunk) + rest;
  }

  lemma DelimiterInside(marker: bytes, frames: seq<Frame>, e: Ending)
    requires frames != []
    ensures Occurs(Wire(marker, frames, e), marker)
  {
    WireHead(marker, frames, e);
    assert MatchAt(Wire(marker, frames, e), marker, |frames[0].gap|);
  }

  lemma BlankLineInside(front: bytes, more: bytes)
    ensures Occurs(front + BLANK_LINE + more, BLANK_LINE)
  {
    assert MatchAt(front + BLANK_LINE + more, BLANK_LINE, |front|);
  }

  /** A settled parser at the end of the stream has delivered everything. */
  lemma NothingLeft(marker: bytes, s: State, frames: seq<Frame>, e: Ending)
    requires marker != [] && Expects(marker, s, [], frames, e) && Settled(marker, s)
    ensures Parts(frames) == []
  {
    assert s.buf + [] == s.buf;
    if frames != [] {
      match s
      case Seek(_) => DelimiterInside(marker, frames, e);
      case Headers(buf) =>
        var d :| InHeaders(marker, d, buf + [], frames, e);
        BlankLineInside(Lead(frames[0])[d..], frames[0].body + Wire(marker, frames[1..], e));
      case Body(_, _, _, _) =>
    }
  }

  /**
   * For every stream of well-formed frames and every way of cutting it into chunks, the parser returns
   * exactly the parts the stream carries, in order. Bodies are arbitrary and may contain the delimiter.
   */
  lemma StreamRoundTrip(marker: bytes, chunks: seq<bytes>, frames: seq<Frame>, e: Ending)
    requires marker != [] && GoodStream(marker, frames, e)
    requires Flatten(chunks) == Wire(marker, frames, e)
    ensures FeedAll(marker, Seek([]), chunks).1 == Parts(frames)
  {
    assert [] + Flatten(chunks) == Flatten(chunks);
    assert !Occurs([], marker);
    ChunksDeliver(marker, Seek([]), chunks, frames, e);
  }

  /** The same frames, up to which of their delimiter lines are closing ones. */
  ghost predicate SameButClosing(a: seq<Frame>, b: seq<Frame>) {
    |a| == |b| && forall i :: 0 <= i < |a| ==> b[i] == a[i].(closing := b[i].closing)
  }

  lemma {:induction false} SameParts(a: seq<Frame>, b: seq<Frame>)
    requires SameButClosing(a, b)
    ensures Parts(a) == Parts(b)
  {
    hide SplitLines, FieldsOf;
    if a != [] {
      assert b[0] == a[0].(closing := b[0].closing);
      SameParts(a[1..], b[1..]);
    }
  }

  /** A closing delimiter closes nothing: what follows it is read as after any other one. */
  lemma CloseIsNoEnd(marker: bytes, a: seq<Frame>, b: seq<Frame>, e: Ending, chunksA: seq<bytes>, chunksB: seq<bytes>)
    requires marker != [] && GoodStream(marker, a, e) && SameButClosing(a, b)
    requires Flatten(chunksA) == Wire(marker, a, e) && Flatten(chunksB) == Wire(marker, b, e)
    ensures FeedAll(marker, Seek([]), chunksA).1 == FeedAll(marker, Seek([]), chunksB).1
  {
    hide Parts, Announces, FeedAll, Flatten, Wire;
    forall f | f in b ensures GoodFrame(marker, f) {
      var i :| 0 <= i < |b| && b[i] == f;
      assert a[i] in a && GoodFrame(marker, a[i]);
    }
    StreamRoundTrip(marker, chunksA, a, e);
    StreamRoundTrip(marker, chunksB, b, e);
    SameParts(a, b);
  }

  // ---------- printed streams ----------

  /** A text whose lines are not empty: it neither begins nor ends with a line break, and none follows another. */
  ghost predicate Lined(t: bytes) {
    && t != [] && t[0] !in {CR, LF} && t[|t| - 1] !in {CR, LF}
    && forall i :: 0 <= i < |t| - 1 && t[i] == LF ==> t[i + 1] !in {CR, LF}
  }

  lemma LinedIsSeparable(t: bytes)
    requires Lined(t)
    ensures Separable(t)
  {
    var all := CRLF + t + [CR, LF, CR];
    forall i | 0 <= i < |all| - 1 && all[i] == LF ensures all[i + 1] !in {CR, LF} || i == |t| + 3 {
      if 2 <= i < |t| + 1 {
        assert all[i] == t[i - 2] && all[i + 1] == t[i - 1];
      }
    }
    assert all[|all| - 1] == CR;
    forall i | 0 <= i <= |all| - 2 ensures !MatchAt(all, BARE_BLANK_LINE, i) {
      assert all[i..i + 2][0] == all[i] && all[i..i + 2][1] == all[i + 1];
    }
    forall i | 0 <= i <= |all| - 4 ensures !MatchAt(all, BLANK_LINE, i) {
      assert all[i..i + 4][1] == all[i + 1] && all[i..i + 4][2] == all[i + 2];
    }
  }

  lemma LinedOne(t: bytes)
    requires t != [] && CR !in t && LF !in t
    ensures Lined(t)
  {
  }

  lemma LinedMore(first: bytes, crlf: bool, t: bytes)
    requires first != [] && CR !in first && LF !in first && Lined(t)
    ensures Lined(first + (if crlf then CRLF else [LF]) + t)
  {
    var end := if crlf then CRLF else [LF];
    var all, k := first + end + t, |first| + |end|;
    assert all[0] == first[0] && all[|all| - 1] == t[|t| - 1];
    assert forall i :: 0 <= i < |first| ==> all[i] == first[i] != LF;
    forall i | |first| <= i < |all| - 1 && all[i] == LF ensures all[i + 1] !in {CR, LF} {
      if i >= k {
        assert all[i] == t[i - k] && all[i + 1] == t[i - k + 1];
      } else {
        assert i == k - 1 && all[k] == t[0];
      }
    }
  }

  lemma {:induction false} PrintedIsLined(lines: seq<Line>)
    requires GoodLines(lines)
    ensures Lined(Printed(lines))
  {
    hide Lined, GoodField, FieldText;
    var head := lines[0];
    assert head in lines;
    FieldTextPlain(head.field);
    if |lines| == 1 {
      LinedOne(FieldText(head.field));
    } else {
      PrintedIsLined(lines[1..]);
      LinedMore(FieldText(head.field), head.crlf, Printed(lines[1..]));
    }
  }

  /**
   * A message the way a device sends it: on a line of its own or not, after an opening or a closing delimiter,
   * with header lines and a body.
   */
  datatype Message = Message(newLine: bool, closing: bool, lines: seq<Line>, body: bytes)

  function MessageFrame(m: Message): Frame {
    Frame(if m.newLine then CRLF else [], m.closing, Printed(m.lines), m.body)
  }

  function MessageFrames(messages: seq<Message>): seq<Frame> {
    seq(|messages|, i requires 0 <= i < |messages| => MessageFrame(messages[i]))
  }

  /** The length said last is that of the body. */
  predicate GoodMessage(m: Message) {
    GoodLines(m.lines) && Said(m.lines).contentLength == Some(|m.body|) && |Printed(m.lines)| + 3 <= MAX_HEADER
  }

  /** The messages the parser hands on, under the media type said last, or as plain bytes. */
  function Delivered(messages: seq<Message>): seq<Part> {
    if messages == [] then [] else
      var m, said := messages[0], Said(messages[0].lines);
      (if m.body == [] then [] else [Part(if said.contentType.Some? then said.contentType.value else OCTET_STREAM, m.body)])
      + Delivered(messages[1..])
  }

  lemma MessageIsGood(boundary: bytes, m: Message)
    requires GoodMessage(m)
    ensures GoodFrame(Marker(boundary), MessageFrame(m))
    ensures var said := Said(m.lines).contentType;
            PartOf(MessageFrame(m)) == Part(if said.Some? then said.value else OCTET_STREAM, m.body)
  {
    hide SplitLines, FieldsOf, GoodLines, Printed, Said, Lined, Separable, Robust;
    HeaderLinesRead(m.lines);
    PrintedIsLined(m.lines);
    LinedIsSeparable(Printed(m.lines));
    CrlfGapClean(Marker(boundary));
    ShortIsRobust(Printed(m.lines));
  }

  lemma CrlfGapClean(marker: bytes)
    requires marker != [] && marker[0] == DASH
    ensures CleanGap(CRLF, marker) && CleanGap([], marker)
  {
  }

  lemma {:induction false} PartsOfMessages(messages: seq<Message>)
    requires forall m :: m in messages ==> GoodMessage(m)
    ensures Parts(MessageFrames(messages)) == Delivered(messages)
  {
    hide GoodMessage, PartOf, GoodFrame, MessageFrame, Said;
    if messages != [] {
      MessageIsGood([], messages[0]);
      SameBody(messages[0]);
      assert MessageFrames(messages)[1..] == MessageFrames(messages[1..]);
      PartsOfMessages(messages[1..]);
    }
  }

  lemma SameBody(m: Message)
    ensures MessageFrame(m).body == m.body
  {
  }

  /**
   * Printed messages come back under their media types and in order, however the stream is cut; empty bodies
   * are dropped.
   */
  lemma MessagesRoundTrip(boundary: bytes, chunks: seq<bytes>, messages: seq<Message>, e: Ending)
    requires forall m :: m in messages ==> GoodMessage(m)
    requires GoodEnding(Marker(boundary), e)
    requires Flatten(chunks) == Wire(Marker(boundary), MessageFrames(messages), e)
    ensures FeedAll(Marker(boundary), Seek([]), chunks).1 == Delivered(messages)
  {
    GoodMessageFrames(boundary, messages);
    StreamRoundTrip(Marker(boundary), chunks, MessageFrames(messages), e);
    PartsOfMessages(messages);
  }

  lemma GoodMessageFrames(boundary: bytes, messages: seq<Message>)
    requires forall m :: m in messages ==> GoodMessage(m)
    ensures forall f :: f in MessageFrames(messages) ==> GoodFrame(Marker(boundary), f)
  {
    hide GoodMessage, GoodFrame, MessageFrame;
    forall f | f in MessageFrames(messages) ensures GoodFrame(Marker(boundary), f) {
      var i :| 0 <= i < |messages| && f == MessageFrames(messages)[i];
      assert messages[i] in messages;
      MessageIsGood(boundary, messages[i]);
    }
  }

  // "myboundary", the fixed boundary of the snapshot stream
  const SNAP_BOUNDARY: bytes := [109, 121, 98, 111, 117, 110, 100, 97, 114, 121]

  /** The snapshot parser is the same loop at the fixed marker `--myboundary`. */
  lemma SnapRoundTrip(chunks: seq<bytes>, frames: seq<Frame>, e: Ending)
    requires GoodStream(Marker(SNAP_BOUNDARY), frames, e)
    requires Flatten(chunks) == Wire(Marker(SNAP_BOUNDARY), frames, e)
    ensures FeedAll([45, 45] + SNAP_BOUNDARY, Seek([]), chunks).1 == Parts(frames)
  {
    StreamRoundTrip(Marker(SNAP_BOUNDARY), chunks, frames, e);
  }

  // ---------- header blocks over the limit ----------

  /** Bytes a part may come from. */
  function Reserve(s: State): int {
    match s
    case Seek(buf) => |buf| - 1
    case Headers(buf) => |buf|
    case Body(buf, _, _, got) => |buf| + |got|
  }

  /** A body is no longer than what the parser has seen of it, and shorter when a delimiter is still to come. */
  lemma {:induction false} BodiesFit(marker: bytes, s: State)
    requires marker != []
    ensures forall p :: p in Run(marker, s).1 ==> |p.body| <= Reserve(s)
    decreases |s.buf|, if s.Body? then 1 else 0
  {
    var (now, out, waiting) := Turn(marker, s);
    if !waiting {
      hide Run;
      BodiesFit(marker, now);
    }
  }

  /** A part that is announced differently is not delivered. */
  lemma OtherwiseAnnounced(marker: bytes, text: bytes, f: Frame)
    requires marker != [] && f.body != [] && Announces(f.headers).0 == Some(|f.body|)
    requires Separable(f.headers) && Unseparated(text + [CR, LF, CR]) && Announces(text) != Announces(f.headers)
    ensures Run(marker, Headers(text + BLANK_LINE + f.body)).1 != [PartOf(f)]
  {
    hide SplitLines, FieldsOf, Unseparated, HeadersSeparator;
    var buf, body := text + BLANK_LINE + f.body, f.body;
    FirstSeparator(buf, [], text, body);
    assert buf + [] == buf;
    HeadersComplete(buf, [], text, body);
    var fields := FieldsOf(SplitLines(text));
    assert buf[|text| + 4..] == body;
    if fields.contentLength.None? {
      assert Turn(marker, Headers(buf)) == (Seek(body), [], false);
      OnlyRest(marker, Headers(buf), Seek(body), f);
    } else {
      var s := Body(body, fields.contentType, fields.contentLength.value, []);
      assert Turn(marker, Headers(buf)) == (s, [], false);
      OtherBody(marker, s, f);
      RunOn(marker, Headers(buf), s);
    }
  }

  lemma RunOn(marker: bytes, s: State, now: State)
    requires marker != [] && Turn(marker, s) == (now, [], false)
    ensures Run(marker, s).1 == Run(marker, now).1
  {
    hide Turn;
    assert [] + Run(marker, now).1 == Run(marker, now).1;
  }

  /** The body's bytes alone hold no part as long as the body. */
  lemma OnlyRest(marker: bytes, s: State, now: State, f: Frame)
    requires marker != [] && Turn(marker, s) == (now, [], false) && now == Seek(f.body)
    ensures Run(marker, s).1 != [PartOf(f)]
  {
    hide Turn, Run;
    RunOn(marker, s, now);
    BodiesFit(marker, now);
    assert PartOf(f) in [PartOf(f)];
  }

  lemma OtherBody(marker: bytes, s: State, f: Frame)
    requires marker != [] && s.Body? && s.buf == f.body && f.body != [] && s.got == []
    requires (s.length, Completed(s.contentType, []).contentType) != (|f.body|, PartOf(f).contentType)
    ensures Run(marker, s).1 != [PartOf(f)]
  {
    var body, n := f.body, s.length;
    if n == 0 {
      OnlyRest(marker, s, Seek(body), f);
    } else if |body| < n {
      assert Run(marker, s).1 == [];
    } else {
      assert [] + body[..n] == body[..n];
      assert Turn(marker, s) == (Seek(body[n..]), [Completed(s.contentType, body[..n])], false);
      assert Run(marker, s).1 == [Completed(s.contentType, body[..n])] + Run(marker, Seek(body[n..])).1;
      assert Run(marker, s).1[0] == Completed(s.contentType, body[..n]) != PartOf(f);
    }
  }

  /** The last cut that leaves d bytes of a header block out: the first chunk ends d bytes after the limit. */
  lemma CutChunks(marker: bytes, f: Frame, d: nat) returns (chunks: seq<bytes>)
    requires marker != [] && CleanGap(f.gap, marker) && Separable(f.headers) && d + MAX_HEADER <= |f.headers| + 3
    ensures Flatten(chunks) == FrameBytes(marker, f)
    ensures FeedAll(marker, Seek([]), chunks).1 == Run(marker, Headers(f.headers[d..] + BLANK_LINE + f.body)).1
  {
    hide MatchAt, Turn, Run, BoundaryLineEnd, CleanGap, Unseparated, FeedAll, Feed;
    var text := f.headers + BLANK_LINE + f.body;
    var n := MAX_HEADER + d;
    var one, two := f.gap + marker + LineEnd(f) + text[..n], text[n..];
    chunks := [one, two];
    assert text[..n] + text[n..] == text;
    assert one + two == FrameBytes(marker, f);
    FlattenTwo(one, two);
    FirstChunk(marker, f, d, text, one, two);
    assert text[d..n] + two == text[d..] == f.headers[d..] + BLANK_LINE + f.body;
    FedTwice(marker, one, two, text[d..n]);
  }

  /** The first chunk leaves its last 64 KiB. */
  lemma FirstChunk(marker: bytes, f: Frame, d: nat, text: bytes, one: bytes, two: bytes)
    requires marker != [] && CleanGap(f.gap, marker) && Separable(f.headers) && d + MAX_HEADER <= |f.headers| + 3
    requires text == f.headers + BLANK_LINE + f.body
    requires one == f.gap + marker + LineEnd(f) + text[..MAX_HEADER + d] && two == text[MAX_HEADER + d..]
    ensures Feed(marker, Seek([]), one) == (Headers(text[d..MAX_HEADER + d]), [])
  {
    hide MatchAt, IndexOf, Run, Turn, BoundaryLineEnd, CleanGap, Unseparated, HeadersSeparator, Feed, FrameBytes, LineEnd;
    var n := MAX_HEADER + d;
    PastDelimiter(marker, f, text[..n], two);
    var front := f.headers + [CR, LF, CR];
    assert front == (CRLF + front)[2..] && CRLF + front == CRLF + f.headers + [CR, LF, CR];
    assert front[..n] == text[..n];
    Front(CRLF + front, n);
    Waits(marker, text[..n]);
    assert KeepLast(text[..n], MAX_HEADER) == text[d..n];
    FedOnce(marker, one, text[..n], text[d..n]);
  }

  lemma PastDelimiter(marker: bytes, f: Frame, text: bytes, two: bytes)
    requires marker != [] && CleanGap(f.gap, marker) && |text| >= 4
    ensures Turn(marker, Seek(f.gap + marker + LineEnd(f) + text)) == (Headers(text), [], false)
  {
    hide MatchAt, IndexOf, BoundaryLineEnd, CleanGap, HeadersSeparator;
    var one := f.gap + marker + LineEnd(f) + text;
    assert one + two == f.gap + marker + (LineEnd(f) + (text + two));
    var d := AfterDelimiter(one, two, f.gap, marker, f.closing, text + two);
    assert one[|f.gap| + |marker| + |LineEnd(f)|..] == text;
  }

  lemma Front(padded: bytes, n: nat)
    requires Unseparated(padded) && |padded| >= 2 + n
    ensures Unseparated(padded[2..][..n])
  {
    var s := padded[2..];
    NoMatchInSuffix(padded, BLANK_LINE, 2);
    NoMatchInSuffix(padded, BARE_BLANK_LINE, 2);
    assert s[..n] + s[n..] == s;
    NoMatchInPrefix(s[..n], s[n..], BLANK_LINE);
    NoMatchInPrefix(s[..n], s[n..], BARE_BLANK_LINE);
  }

  lemma Waits(marker: bytes, text: bytes)
    requires marker != [] && Unseparated(text)
    ensures Run(marker, Headers(text)) == (Headers(KeepLast(text, MAX_HEADER)), [])
  {
  }

  lemma FedOnce(marker: bytes, chunk: bytes, text: bytes, kept: bytes)
    requires marker != []
    requires Turn(marker, Seek(chunk)) == (Headers(text), [], false)
    requires Run(marker, Headers(text)) == (Headers(kept), [])
    ensures Feed(marker, Seek([]), chunk) == (Headers(kept), [])
  {
    hide Turn;
    var none: seq<Part> := [];
    assert none + none == none;
    assert Run(marker, Seek(chunk)) == (Headers(kept), none + none);
    assert [] + chunk == chunk;
  }

  lemma FedTwice(marker: bytes, one: bytes, two: bytes, kept: bytes)
    requires marker != [] && Feed(marker, Seek([]), one) == (Headers(kept), [])
    ensures FeedAll(marker, Seek([]), [one, two]).1 == Run(marker, Headers(kept + two)).1
  {
    assert [one, two][1..] == [two];
    var (s, out) := Feed(marker, Headers(kept), two);
    assert FeedAll(marker, s, []).1 == [];
    assert FeedAll(marker, Headers(kept), [two]).1 == out;
  }

  /**
   * A part with a body, at the end of a stream, is delivered for every cutting of the stream into chunks if and
   * only if what the limit may cut off the front of its header block says nothing about it.
   */
  lemma HeaderLimitIsExact(marker: bytes, f: Frame)
    requires marker != [] && CleanGap(f.gap, marker) && Separable(f.headers)
    requires f.body != [] && Announces(f.headers).0 == Some(|f.body|)
    ensures (forall chunks :: Flatten(chunks) == FrameBytes(marker, f) ==> FeedAll(marker, Seek([]), chunks).1 == [PartOf(f)])
       <==> Robust(f.headers)
  {
    hide SplitLines, FieldsOf, Flatten, FeedAll, CleanGap, Separable, Announces;
    if Robust(f.headers) {
      forall chunks | Flatten(chunks) == FrameBytes(marker, f) ensures FeedAll(marker, Seek([]), chunks).1 == [PartOf(f)] {
        OneFrame(marker, chunks, f);
      }
    } else {
      var d: nat :| d + MAX_HEADER <= |f.headers| + 3 && Announces(f.headers[d..]) != Announces(f.headers);
      var chunks := CutChunks(marker, f, d);
      SuffixUnseparated(f.headers, d);
      OtherwiseAnnounced(marker, f.headers[d..], f);
      assert FeedAll(marker, Seek([]), chunks).1 != [PartOf(f)];
    }
  }

  lemma SuffixUnseparated(headers: bytes, d: nat)
    requires Separable(headers) && d <= |headers|
    ensures Unseparated(headers[d..] + [CR, LF, CR])
  {
    var padded := CRLF + headers + [CR, LF, CR];
    assert padded[d + 2..] == headers[d..] + [CR, LF, CR];
    NoMatchInSuffix(padded, BLANK_LINE, d + 2);
    NoMatchInSuffix(padded, BARE_BLANK_LINE, d + 2);
  }

  lemma OneFrame(marker: bytes, chunks: seq<bytes>, f: Frame)
    requires marker != [] && GoodFrame(marker, f) && f.body != [] && Flatten(chunks) == FrameBytes(marker, f)
    ensures FeedAll(marker, Seek([]), chunks).1 == [PartOf(f)]
  {
    hide SplitLines, FieldsOf, Flatten, FeedAll, GoodFrame, Announces;
    assert [f][1..] == [];
    assert Wire(marker, [f], Open([])) == FrameBytes(marker, f) + [];
    assert !Occurs([], marker);
    StreamRoundTrip(marker, chunks, [f], Open([]));
    assert Parts([f]) == [PartOf(f)] + [];
  }

  /** The length in the first line is lost as soon as the block is one byte over the limit. */
  lemma LengthFirstIsLost(n: nat, other: bytes)
    requires LF !in other && ContentLengthOf(other) == None
    requires |LENGTH_PREFIX + Decimal(n) + CRLF + other| + 3 > MAX_HEADER
    ensures !Robust(LENGTH_PREFIX + Decimal(n) + CRLF + other)
  {
    hide SplitLines, FieldsOf, ContentLengthOf, Decimal;
    var first := LENGTH_PREFIX + Decimal(n);
    var headers := first + CRLF + other;
    LengthPrefixPlain(n);
    LengthLine(n);
    SplitTwoLines(first, other);
    FieldsOfLength(first, other);
    assert headers[1..] == first[1..] + CRLF + other;
    SplitTwoLines(first[1..], other);
    FieldsOfLength(first[1..], other);
    CutLengthIsLost(first);
    assert Announces(headers[1..]) != Announces(headers);
  }

  lemma CutLengthIsLost(line: bytes)
    requires |line| > 1 && line[1] == 111
    ensures ContentLengthOf(line[1..]) == None
  {
    assert line[1..][0] == 111;
  }

  lemma FieldsOfLength(first: bytes, second: bytes)
    requires ContentLengthOf(second) == None
    ensures FieldsOf([first, second]).contentLength == ContentLengthOf(first)
  {
    hide ContentTypeOf, ContentLengthOf;
    var one: seq<bytes> := [first];
    assert one[..0] == [];
    assert FieldsOf([]) == Fields(None, None);
    assert FieldsOf(one).contentLength == ContentLengthOf(first);
    assert [first, second][..1] == one;
  }

  /** A first line without a colon may be cut off anywhere: such a block is kept, whatever its length. */
  lemma JunkFirstIsKept(junk: bytes, headers: bytes)
    requires LF !in junk && COLON !in junk && |headers| + 3 <= MAX_HEADER
    ensures Robust(junk + CRLF + headers)
  {
    hide SplitLines, FieldsOf;
    var all := junk + CRLF + headers;
    forall d: nat | d + MAX_HEADER <= |all| + 3 ensures Announces(all[d..]) == Announces(headers) == Announces(all) {
      JunkDropped(junk, headers, 0);
      assert all[0..] == all;
      JunkDropped(junk, headers, d);
    }
  }

  lemma JunkDropped(junk: bytes, headers: bytes, d: nat)
    requires LF !in junk && COLON !in junk && d <= |junk| + 2
    ensures Announces((junk + CRLF + headers)[d..]) == Announces(headers)
  {
    hide SplitLines, FieldsOf;
    var line := junk + [CR];
    var rest := (junk + CRLF + headers)[d..];
    if d <= |line| {
      var left := line[d..];
      assert rest == left + [LF] + headers;
      NoColonNoField(WithoutFinalCr(left));
      NoFieldFirst(left, headers);
    } else {
      assert rest == headers;
    }
  }
}
