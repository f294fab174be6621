/**
 * The snapshot stream of one reader connection: an event waits for the image that comes right after it, and
 * is recorded with the part of the image it names.
 */
module SnapPairing {
  import AlertPairing
  import opened Bytes
  import opened Wrappers
  import opened Multipart
  import opened MultipartRoundTrip

  /** Where in an image part the first picture lies. */
  datatype Slice = Slice(offset: int, length: int)

  /** What a part means: an event with the place of its picture, or an image. */
  datatype Message<E> = Report(event: E, slice: Option<Slice>) | Snap(image: bytes)

  datatype Access<E> = Access(event: E, picture: bytes)

  /** `decode` yields the event of a text part, if it has one. */
  function MessagesIn<E>(decode: bytes -> Option<(E, Option<Slice>)>, part: Part): seq<Message<E>> {
    var ct := AlertPairing.LowerCase(part.contentType);
    if AlertPairing.TEXT <= ct then
      var found := decode(part.body);
      if found.Some? then [Report(found.value.0, found.value.1)] else []
    else if AlertPairing.IMAGE <= ct then [Snap(part.body)]
    else []
  }

  function MessagesOf<E>(decode: bytes -> Option<(E, Option<Slice>)>, parts: seq<Part>): seq<Message<E>> {
    if parts == [] then [] else MessagesIn(decode, parts[0]) + MessagesOf(decode, parts[1..])
  }

  /** What a part means does not depend on the case of its media type; only text and image types mean something. */
  lemma PartMeans<E>(decode: bytes -> Option<(E, Option<Slice>)>, part: Part)
    ensures var ct := part.contentType;
            MessagesIn(decode, part)
            == if AlertPairing.Says(ct, AlertPairing.TEXT, 0) then
                 (if decode(part.body).Some? then [Report(decode(part.body).value.0, decode(part.body).value.1)] else [])
               else if AlertPairing.Says(ct, AlertPairing.IMAGE, 0) then [Snap(part.body)]
               else []
  {
    AlertPairing.PrefixSays(part.contentType, AlertPairing.TEXT);
    AlertPairing.PrefixSays(part.contentType, AlertPairing.IMAGE);
    hide AlertPairing.LowerCase, AlertPairing.Says;
  }

  /** The slice lies inside the image. */
  predicate Inside(slice: Slice, image: bytes) {
    slice.offset >= 0 && slice.length > 0 && slice.offset + slice.length <= |image|
  }

  /** The named piece if it lies inside the image, otherwise the whole image. */
  function SliceSnapJpeg(image: bytes, slice: Option<Slice>): (picture: bytes)
    ensures slice.Some? && Inside(slice.value, image) ==>
              |picture| == slice.value.length && forall k :: 0 <= k < |picture| ==> picture[k] == image[slice.value.offset + k]
    ensures slice.None? || !Inside(slice.value, image) ==> picture == image
  {
    if slice.Some? && slice.value.offset >= 0 && slice.value.length > 0
       && slice.value.offset + slice.value.length <= |image|
    then image[slice.value.offset..slice.value.offset + slice.value.length]
    else image
  }

  // ---------- pairing ----------

  datatype Desk<E> = Desk(recorded: seq<Access<E>>, pending: Option<Message<E>>)

  /** A new event replaces a waiting one; an image is recorded with the waiting event, if any. */
  function Step<E>(d: Desk<E>, m: Message<E>): Desk<E> {
    match m
    case Report(_, _) => d.(pending := Some(m))
    case Snap(image) =>
      if d.pending.Some? && d.pending.value.Report?
      then Desk(d.recorded + [Access(d.pending.value.event, SliceSnapJpeg(image, d.pending.value.slice))], None)
      else d
  }

  function Outcome<E>(messages: seq<Message<E>>): Desk<E> {
    if messages == [] then Desk([], None) else Step(Outcome(messages[..|messages| - 1]), messages[|messages| - 1])
  }

  /** The access that the message at a position completes: an image right after an event. */
  function CompletedAt<E>(messages: seq<Message<E>>, i: nat): seq<Access<E>>
    requires i < |messages|
  {
    if i > 0 && messages[i].Snap? && messages[i - 1].Report?
    then [Access(messages[i - 1].event, SliceSnapJpeg(messages[i].image, messages[i - 1].slice))]
    else []
  }

  /** Accesses completed from a position on. */
  function Completions<E>(messages: seq<Message<E>>, from: nat): seq<Access<E>>
    requires from <= |messages|
    decreases |messages| - from
  {
    if from == |messages| then [] else CompletedAt(messages, from) + Completions(messages, from + 1)
  }

  lemma {:induction false} CompletionsGrow<E>(messages: seq<Message<E>>, next: Message<E>, from: nat)
    requires from <= |messages|
    ensures Completions(messages + [next], from) == Completions(messages, from) + CompletedAt(messages + [next], |messages|)
    decreases |messages| - from
  {
    var all := messages + [next];
    if from == |messages| {
      assert Completions(all, from + 1) == [];
      hide CompletedAt;
    } else {
      assert CompletedAt(all, from) == CompletedAt(messages, from);
      hide CompletedAt;
      CompletionsGrow(messages, next, from + 1);
      assert (CompletedAt(messages, from) + Completions(messages, from + 1)) + CompletedAt(all, |messages|)
          == CompletedAt(messages, from) + (Completions(messages, from + 1) + CompletedAt(all, |messages|));
    }
  }

  /**
   * Recorded are exactly the events whose next message is an image, each with that image; an event followed by
   * another event is lost, and so is an image that follows an image.
   */
  lemma {:induction false} RecordedWithNextImage<E>(messages: seq<Message<E>>)
    ensures var d := Outcome(messages);
            && d.recorded == Completions(messages, 0)
            && d.pending == if messages != [] && messages[|messages| - 1].Report? then Some(messages[|messages| - 1]) else None
  {
    if messages != [] {
      var front, last := messages[..|messages| - 1], messages[|messages| - 1];
      RecordedWithNextImage(front);
      CompletionsGrow(front, last, 0);
      assert front + [last] == messages;
    }
  }

  // ---------- the connection ----------

  lemma MessagesHead<E>(decode: bytes -> Option<(E, Option<Slice>)>, a: seq<Part>, b: seq<Part>)
    requires a != []
    ensures MessagesOf(decode, a + b) == MessagesIn(decode, a[0]) + MessagesOf(decode, a[1..] + b)
  {
    hide MessagesIn;
    assert (a + b)[0] == a[0] && (a + b)[1..] == a[1..] + b;
  }

  lemma {:induction false} MessagesAppend<E>(decode: bytes -> Option<(E, Option<Slice>)>, a: seq<Part>, b: seq<Part>)
    ensures MessagesOf(decode, a + b) == MessagesOf(decode, a) + MessagesOf(decode, b)
  {
    hide MessagesIn;
    if a == [] {
      assert a + b == b;
    } else {
      MessagesAppend(decode, a[1..], b);
      var first, more, others := MessagesIn(decode, a[0]), MessagesOf(decode, a[1..]), MessagesOf(decode, b);
      MessagesHead(decode, a, b);
      hide MessagesOf;
      assert first + (more + others) == (first + more) + others;
    }
  }

  lemma MessagesGrow<E>(decode: bytes -> Option<(E, Option<Slice>)>, parts: seq<Part>, i: nat)
    requires i < |parts|
    ensures MessagesOf(decode, parts[..i + 1]) == MessagesOf(decode, parts[..i]) + MessagesIn(decode, parts[i])
  {
    hide MessagesIn;
    MessagesAppend(decode, parts[..i], [parts[i]]);
    assert parts[..i + 1] == parts[..i] + [parts[i]];
    assert [parts[i]][1..] == [];
    assert MessagesOf(decode, [parts[i]]) == MessagesIn(decode, parts[i]) + [];
  }

  lemma NoMessages<E>(decode: bytes -> Option<(E, Option<Slice>)>)
    ensures MessagesOf(decode, []) == []
  {
  }

  class SnapConnection<E(==)> {
    const decode: bytes -> Option<(E, Option<Slice>)>
    const parser: MultipartAccumState
    var pending: Option<Message<E>>
    /** Accesses handed to persistence, oldest first. */
    var recorded: seq<Access<E>>
    ghost var messages: seq<Message<E>>

    ghost predicate Valid()
      reads this, parser
    {
      parser.Valid() && (pending.Some? ==> pending.value.Report?) && Outcome(messages) == Desk(recorded, pending)
    }

    constructor (decode: bytes -> Option<(E, Option<Slice>)>)
      ensures Valid() && fresh(parser) && messages == [] && this.decode == decode
      ensures parser.Abstract() == Seek([]) && parser.boundaryMarker == Marker(SNAP_BOUNDARY)
    {
      this.decode := decode;
      parser := new MultipartAccumState(SNAP_BOUNDARY);
      pending, recorded, messages := None, [], [];
    }

    /** One completed part. */
    method ProcessPart(part: Part)
      requires Valid()
      modifies this
      ensures Valid() && messages == old(messages) + MessagesIn(decode, part)
      ensures parser.Abstract() == old(parser.Abstract())
    {
      var ct := AlertPairing.LowerCase(part.contentType);
      if AlertPairing.TEXT <= ct {
        var found := decode(part.body);
        if found.Some? {
          pending := Some(Report(found.value.0, found.value.1));
        }
      } else if AlertPairing.IMAGE <= ct {
        if pending.Some? {
          recorded := recorded + [Access(pending.value.event, SliceSnapJpeg(part.body, pending.value.slice))];
          pending := None;
        }
      }
      messages := messages + MessagesIn(decode, part);
      assert messages != old(messages) ==> messages[..|messages| - 1] == old(messages);
    }

    /** One chunk of the stream. */
    method ProcessSnapChunk(chunk: bytes)
      requires Valid()
      modifies this, parser
      ensures Valid()
      ensures var (after, parts) := Feed(parser.boundaryMarker, old(parser.Abstract()), chunk);
              parser.Abstract() == after && messages == old(messages) + MessagesOf(decode, parts)
    {
      hide Outcome, MessagesIn, Feed;
      var parts := parser.FeedMultipartStream(chunk);
      ghost var fed := parser.Abstract();
      assert parts[..0] == [];
      for i := 0 to |parts|
        invariant Valid() && parser.Abstract() == fed
        invariant messages == old(messages) + MessagesOf(decode, parts[..i])
      {
        MessagesGrow(decode, parts, i);
        ProcessPart(parts[i]);
      }
      assert parts[..|parts|] == parts;
    }

    method ReceiveChunks(chunks: seq<bytes>)
      requires Valid()
      modifies this, parser
      ensures Valid()
      ensures messages == old(messages) + MessagesOf(decode, FeedAll(parser.boundaryMarker, old(parser.Abstract()), chunks).1)
      decreases |chunks|
    {
      hide Outcome, MessagesIn, MessagesOf, Feed;
      NoMessages(decode);
      if chunks != [] {
        ghost var (after, more) := Feed(parser.boundaryMarker, parser.Abstract(), chunks[0]);
        MessagesAppend(decode, more, FeedAll(parser.boundaryMarker, after, chunks[1..]).1);
        ProcessSnapChunk(chunks[0]);
        ReceiveChunks(chunks[1..]);
      }
    }

    /** What is recorded of a whole stream depends on the frames sent, not on how the network cut them. */
    method ReceiveAll(chunks: seq<bytes>, ghost frames: seq<Frame>, ghost e: Ending)
      requires Valid() && messages == [] && parser.Abstract() == Seek([])
      requires GoodStream(parser.boundaryMarker, frames, e)
      requires Flatten(chunks) == Wire(parser.boundaryMarker, frames, e)
      modifies this, parser
      ensures Valid()
      ensures recorded == Completions(MessagesOf(decode, Parts(frames)), 0)
    {
      hide Outcome, MessagesIn, MessagesOf, Feed, FeedAll, Wire, GoodStream, Completions;
      StreamRoundTrip(parser.boundaryMarker, chunks, frames, e);
      ReceiveChunks(chunks);
      assert messages == MessagesOf(decode, Parts(frames));
      RecordedWithNextImage(messages);
    }
  }
}
