/** Width and height of a JPEG picture from its marker segments, without decoding it. */
module JpegHeader {
  import opened Bytes
  import opened Wrappers

  datatype Dimensions = Dimensions(width: nat, height: nat)

  function UInt16(buf: bytes, at: nat): (n: nat)
    requires at + 1 < |buf|
    ensures n < 65536
  {
    256 * (buf[at] as int) + buf[at + 1]
  }

  /** One move of the walk: a result, or a step forward. */
  datatype Move = Stop(found: Option<Dimensions>) | Forward(n: nat)

  function MoveAt(buf: bytes, offset: nat): (m: Move)
    requires offset + 9 < |buf|
    ensures m.Forward? ==> m.n > 0
  {
    var marker := buf[offset + 1];
    if buf[offset] != 0xff then Forward(1)
    else if marker == 0xd8 || marker == 0xd9 then Forward(2)
    else if UInt16(buf, offset + 2) < 2 then Stop(None)
    else if 0xc0 <= marker <= 0xc2 then Stop(SizeOf(UInt16(buf, offset + 7), UInt16(buf, offset + 5)))
    else Forward(2 + UInt16(buf, offset + 2))
  }

  /** A picture without extent has no dimensions. */
  function SizeOf(width: nat, height: nat): Option<Dimensions> {
    if width > 0 && height > 0 then Some(Dimensions(width, height)) else None
  }

  /** What the walk over the segments finds from an offset on. */
  function Walk(buf: bytes, offset: nat): Option<Dimensions>
    decreases |buf| - offset
  {
    if offset + 9 >= |buf| then None else
      match MoveAt(buf, offset)
      case Stop(found) => found
      case Forward(n) => Walk(buf, offset + n)
  }

  function Picture(buf: bytes): Option<Dimensions> {
    if |buf| < 4 || buf[0] != 0xff || buf[1] != 0xd8 then None else Walk(buf, 2)
  }

  method ParseJpegDimensions(buffer: bytes) returns (dimensions: Option<Dimensions>)
    ensures dimensions == Picture(buffer)
  {
    if |buffer| < 4 || buffer[0] != 0xff || buffer[1] != 0xd8 {
      return None;
    }
    var offset: nat := 2;
    while offset + 9 < |buffer|
      invariant Walk(buffer, offset) == Walk(buffer, 2)
      decreases |buffer| - offset
    {
      if buffer[offset] != 0xff {
        offset := offset + 1;
        continue;
      }
      var marker := buffer[offset + 1];
      if marker == 0xd8 || marker == 0xd9 {
        offset := offset + 2;
        continue;
      }
      var segmentLength := UInt16(buffer, offset + 2);
      if segmentLength < 2 {
        return None;
      }
      if marker >= 0xc0 && marker <= 0xc2 {
        var height := UInt16(buffer, offset + 5);
        var width := UInt16(buffer, offset + 7);
        if width > 0 && height > 0 {
          return Some(Dimensions(width, height));
        }
        return None;
      }
      offset := offset + 2 + segmentLength;
    }
    return None;
  }

  // ---------- pictures as they are written ----------

  const SOI: bytes := [0xff, 0xd8]

  /** A segment with a length, other than a baseline, extended or progressive frame header. */
  datatype Segment = Segment(marker: byte, payload: bytes)

  predicate GoodSegment(s: Segment) {
    !(0xc0 <= s.marker <= 0xc2) && s.marker != 0xd8 && s.marker != 0xd9 && |s.payload| + 2 < 65536
  }

  function Word(n: nat): bytes
    requires n < 65536
  {
    [n / 256, n % 256]
  }

  function SegmentBytes(s: Segment): bytes
    requires GoodSegment(s)
  {
    [0xff, s.marker] + Word(|s.payload| + 2) + s.payload
  }

  function SegmentsBytes(segments: seq<Segment>): bytes
    requires forall s :: s in segments ==> GoodSegment(s)
  {
    if segments == [] then [] else SegmentBytes(segments[0]) + SegmentsBytes(segments[1..])
  }

  /** A frame header: sample precision, height, width and the component parameters. */
  datatype Frame = Frame(marker: byte, precision: byte, height: nat, width: nat, components: bytes)

  predicate GoodFrame(f: Frame) {
    0xc0 <= f.marker <= 0xc2 && f.height < 65536 && f.width < 65536 && 0 < |f.components| && |f.components| + 7 < 65536
  }

  function FrameBytes(f: Frame): bytes
    requires GoodFrame(f)
  {
    [0xff, f.marker] + Word(|f.components| + 7) + [f.precision] + Word(f.height) + Word(f.width) + f.components
  }

  lemma MoveShifts(front: bytes, buf: bytes, offset: nat)
    requires offset + 9 < |buf|
    ensures MoveAt(front + buf, |front| + offset) == MoveAt(buf, offset)
  {
  }

  /** Bytes put in front of a buffer only shift the walk. */
  lemma {:induction false} WalkShifts(front: bytes, buf: bytes, offset: nat)
    ensures Walk(front + buf, |front| + offset) == Walk(buf, offset)
    decreases |buf| - offset
  {
    hide MoveAt;
    if offset + 9 < |buf| {
      MoveShifts(front, buf, offset);
      match MoveAt(buf, offset)
      case Stop(_) =>
      case Forward(n) =>
        assert |front| + (offset + n) == (|front| + offset) + n;
        WalkShifts(front, buf, offset + n);
    }
  }

  lemma MoveOverSegment(s: Segment, rest: bytes)
    requires GoodSegment(s) && |rest| >= 10
    ensures MoveAt(SegmentBytes(s) + rest, 0) == Forward(|SegmentBytes(s)|)
  {
  }

  /** The walk steps over a segment. */
  lemma OverSegment(s: Segment, rest: bytes)
    requires GoodSegment(s) && |rest| >= 10
    ensures Walk(SegmentBytes(s) + rest, 0) == Walk(rest, 0)
  {
    hide MoveAt, SegmentBytes;
    MoveOverSegment(s, rest);
    WalkShifts(SegmentBytes(s), rest, 0);
  }

  lemma AtFrame(f: Frame, rest: bytes)
    requires GoodFrame(f)
    ensures Walk(FrameBytes(f) + rest, 0) == SizeOf(f.width, f.height)
    ensures |FrameBytes(f) + rest| >= 10
  {
  }

  lemma {:induction false} OverSegments(segments: seq<Segment>, tail: bytes)
    requires (forall s :: s in segments ==> GoodSegment(s)) && |tail| >= 10
    ensures Walk(SegmentsBytes(segments) + tail, 0) == Walk(tail, 0)
  {
    hide Walk, SegmentBytes;
    if segments == [] {
      assert SegmentsBytes(segments) + tail == tail;
    } else {
      var more := SegmentsBytes(segments[1..]) + tail;
      OverSegments(segments[1..], tail);
      OverSegment(segments[0], more);
      assert SegmentsBytes(segments) + tail == SegmentBytes(segments[0]) + more;
    }
  }

  /** Past the start marker and any segments, the walk begins at what follows them. */
  lemma PictureAt(segments: seq<Segment>, tail: bytes)
    requires (forall s :: s in segments ==> GoodSegment(s)) && |tail| >= 10
    ensures Picture(SOI + SegmentsBytes(segments) + tail) == Walk(tail, 0)
  {
    hide Walk, SegmentsBytes;
    var body := SegmentsBytes(segments) + tail;
    assert SOI + SegmentsBytes(segments) + tail == SOI + body;
    WalkShifts(SOI, body, 0);
    OverSegments(segments, tail);
  }

  /**
   * In every picture of a start marker, any segments and a frame header, whatever follows, the dimensions
   * found are those of the frame header; none are found exactly when one of them is zero.
   */
  lemma DimensionsFound(segments: seq<Segment>, f: Frame, rest: bytes)
    requires (forall s :: s in segments ==> GoodSegment(s)) && GoodFrame(f)
    ensures Picture(SOI + SegmentsBytes(segments) + (FrameBytes(f) + rest))
         == if f.width > 0 && f.height > 0 then Some(Dimensions(f.width, f.height)) else None
  {
    hide Walk, FrameBytes, Picture;
    AtFrame(f, rest);
    PictureAt(segments, FrameBytes(f) + rest);
  }

  // ---------- fill bytes ----------

  /** Fill bytes, which may precede any marker. */
  function Fill(k: nat): (fill: bytes)
    ensures |fill| == k
  {
    seq(k, _ => 0xff)
  }

  /** How far the walk jumps at the first of some fill bytes: what follows the second byte is read as a length. */
  function Jump(k: nat, f: Frame): nat
    requires k > 0 && GoodFrame(f)
  {
    2 + if k == 1 then 256 * f.marker + (|f.components| + 7) / 256 else if k == 2 then 65280 + f.marker else 65535
  }

  lemma JumpAtFill(k: nat, f: Frame, rest: bytes)
    requires k > 0 && GoodFrame(f)
    ensures Walk(Fill(k) + (FrameBytes(f) + rest), 0) == Walk(Fill(k) + (FrameBytes(f) + rest), Jump(k, f))
  {
    var tail := Fill(k) + (FrameBytes(f) + rest);
    FrameStart(f, rest);
    assert tail[0] == 0xff && tail[1] == 0xff;
    if k == 1 {
      assert tail[2] == (FrameBytes(f) + rest)[1] && tail[3] == (FrameBytes(f) + rest)[2];
    } else if k == 2 {
      assert tail[2] == (FrameBytes(f) + rest)[0] && tail[3] == (FrameBytes(f) + rest)[1];
    } else if k == 3 {
      assert tail[2] == 0xff && tail[3] == (FrameBytes(f) + rest)[0];
    } else {
      assert tail[2] == 0xff && tail[3] == 0xff;
    }
    assert MoveAt(tail, 0) == Forward(Jump(k, f));
  }

  lemma FrameStart(f: Frame, rest: bytes)
    requires GoodFrame(f)
    ensures var tail := FrameBytes(f) + rest;
            |tail| >= 10 && tail[0] == 0xff && tail[1] == f.marker && tail[2] == (|f.components| + 7) / 256
  {
  }

  /** What the walk finds at fewer than 65537 fill bytes and a frame header. */
  function AtFill(j: nat, f: Frame, rest: bytes): Option<Dimensions>
    requires j < 65537 && GoodFrame(f)
  {
    if j == 0 then SizeOf(f.width, f.height)
    else
      JumpLands(j, f);
      Walk(FrameBytes(f) + rest, Jump(j, f) - j)
  }

  lemma FewFill(j: nat, f: Frame, rest: bytes)
    requires GoodFrame(f) && j < 65537
    ensures Walk(Fill(j) + (FrameBytes(f) + rest), 0) == AtFill(j, f, rest)
  {
    AtFrame(f, rest);
    hide Walk, FrameBytes, Fill, Jump;
    if j == 0 {
      NoFill(FrameBytes(f) + rest);
    } else {
      JumpAtFill(j, f, rest);
      JumpLands(j, f);
      AfterFill(j, FrameBytes(f) + rest, Jump(j, f) - j);
    }
  }

  lemma MuchFill(k: nat, f: Frame, rest: bytes)
    requires GoodFrame(f) && k >= 65537
    ensures Walk(Fill(k) + (FrameBytes(f) + rest), 0) == Walk(Fill(k - 65537) + (FrameBytes(f) + rest), 0)
  {
    hide Walk, FrameBytes, Fill, Jump;
    JumpAtFill(k, f, rest);
    JumpLands(k, f);
    FewerFill(k, FrameBytes(f) + rest);
  }

  /** 65537 fill bytes are jumped over as a whole; fewer lead somewhere behind them. */
  lemma {:induction false} OverFill(rounds: nat, j: nat, f: Frame, rest: bytes)
    requires GoodFrame(f) && j < 65537
    ensures Walk(Fill(65537 * rounds + j) + (FrameBytes(f) + rest), 0) == AtFill(j, f, rest)
    decreases rounds
  {
    hide Walk, FrameBytes, Fill, AtFill;
    if rounds == 0 {
      FewFill(j, f, rest);
    } else {
      MuchFill(65537 * rounds + j, f, rest);
      OverFill(rounds - 1, j, f, rest);
    }
  }

  lemma NoFill(tail: bytes)
    ensures Fill(0) + tail == tail
  {
  }

  lemma JumpLands(k: nat, f: Frame)
    requires k > 0 && GoodFrame(f)
    ensures if k < 65537 then Jump(k, f) > k else Jump(k, f) == 65537
  {
  }

  lemma AfterFill(k: nat, tail: bytes, offset: nat)
    ensures Walk(Fill(k) + tail, k + offset) == Walk(tail, offset)
  {
    hide Walk;
    WalkShifts(Fill(k), tail, offset);
  }

  lemma FewerFill(k: nat, tail: bytes)
    requires k >= 65537
    ensures Walk(Fill(k) + tail, 65537) == Walk(Fill(k - 65537) + tail, 0)
  {
    hide Walk;
    var more := Fill(k - 65537) + tail;
    WalkShifts(Fill(65537), more, 0);
    assert Fill(65537) + more == Fill(k) + tail;
  }

  /**
   * What fill bytes before the frame header do, exactly: their number modulo 65537 decides whether the header
   * is found or the walk goes on somewhere behind its start.
   */
  lemma FillBytesMislead(segments: seq<Segment>, k: nat, f: Frame, rest: bytes)
    requires (forall s :: s in segments ==> GoodSegment(s)) && GoodFrame(f)
    ensures Picture(SOI + SegmentsBytes(segments) + (Fill(k) + (FrameBytes(f) + rest)))
         == AtFill(k % 65537, f, rest)
  {
    hide Walk, FrameBytes, Picture, AtFill;
    AtFrame(f, rest);
    OverFill(k / 65537, k % 65537, f, rest);
    PictureAt(segments, Fill(k) + (FrameBytes(f) + rest));
  }

  /**
   * With at most 49163 bytes from the first fill byte on, dimensions are found exactly when there is no fill
   * byte and both sizes are positive, and they are those of the frame header.
   */
  lemma FoundIffNoFill(segments: seq<Segment>, k: nat, f: Frame, rest: bytes)
    requires (forall s :: s in segments ==> GoodSegment(s)) && GoodFrame(f)
    requires k + |FrameBytes(f) + rest| <= 49163
    ensures var found := Picture(SOI + SegmentsBytes(segments) + (Fill(k) + (FrameBytes(f) + rest)));
            && (found.Some? <==> k == 0 && f.width > 0 && f.height > 0)
            && (found.Some? ==> found.value == Dimensions(f.width, f.height))
  {
    FillBytesMislead(segments, k, f, rest);
  }
}
