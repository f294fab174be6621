/**
 * The alert stream of one reader connection: parts are classified, a face event is held until the image
 * that follows it, the next event or a timer arrives, and is then handed on.
 */
module AlertPairing {
  import opened Bytes
  import opened Search
  import opened Wrappers
  import opened Multipart
  import opened MultipartRoundTrip
  import opened PartHeaders

  /** An event with the image that was paired with it. */
  datatype Held<E> = Held(event: E, image: Option<bytes>)

  /** A held event together with the timer that will release it. */
  datatype Pending<E> = Pending(event: E, image: Option<bytes>, timer: nat)

  datatype Incoming<E> = Event(event: E) | Image(image: bytes)

  /** What a connection sees: parts that concern the pairing, the release timer going off, and its teardown. */
  datatype Input<E> = Arrives(incoming: Incoming<E>) | Elapses | Clears

  datatype Kind = Json | Picture | Ignore

  // "json", "text/" and "image/"
  const JSON: bytes := [106, 115, 111, 110]
  const TEXT: bytes := [116, 101, 120, 116, 47]
  const IMAGE: bytes := [105, 109, 97, 103, 101, 47]

  function LowerCase(s: bytes): bytes {
    seq(|s|, i requires 0 <= i < |s| => Lower(s[i]))
  }

  function Classify(part: Part): Kind {
    var ct := LowerCase(part.contentType);
    if IndexOf(ct, JSON) != -1 || TEXT <= ct then Json
    else if IMAGE <= ct then Picture
    else if |part.body| > 2 && part.body[0] == 0xff && part.body[1] == 0xd8 then Picture
    else Ignore
  }

  /** What a part means for the pairing; `decode` yields the accepted face event of a JSON body, if any. */
  function InputsOf<E>(decode: bytes -> Option<E>, parts: seq<Part>): seq<Input<E>> {
    if parts == [] then [] else InputOf(decode, parts[0]) + InputsOf(decode, parts[1..])
  }

  function InputOf<E>(decode: bytes -> Option<E>, part: Part): seq<Input<E>> {
    match Classify(part)
    case Ignore => []
    case Picture => [Arrives(Image(part.body))]
    case Json =>
      var event := decode(part.body);
      if event.Some? then [Arrives(Event(event.value))] else []
  }

  // ---------- what a device sends ----------

  /** The word stands in the text at a position, in upper or lower case. */
  predicate Says(text: bytes, word: bytes, i: int) {
    0 <= i <= |text| - |word| && Spells(text[i..i + |word|], word)
  }

  ghost predicate SaysJson(contentType: bytes) {
    Says(contentType, TEXT, 0) || exists i :: Says(contentType, JSON, i)
  }

  /** A picture in the JPEG format begins with these two bytes. */
  predicate IsJpeg(body: bytes) {
    |body| > 2 && body[0] == 0xff && body[1] == 0xd8
  }

  /** Something sent under a media type: an event, a picture, a JPEG picture under a type that does not say so, or else. */
  datatype Sent = Report(contentType: bytes, body: bytes)
                | Photo(contentType: bytes, body: bytes)
                | Jpeg(contentType: bytes, body: bytes)
                | Else(contentType: bytes, body: bytes)

  ghost predicate GoodSent(t: Sent) {
    match t
    case Report(ct, _) => SaysJson(ct)
    case Photo(ct, _) => !SaysJson(ct) && Says(ct, IMAGE, 0)
    case Jpeg(ct, body) => !SaysJson(ct) && !Says(ct, IMAGE, 0) && IsJpeg(body)
    case Else(ct, body) => !SaysJson(ct) && !Says(ct, IMAGE, 0) && !IsJpeg(body)
  }

  function SentParts(sent: seq<Sent>): seq<Part> {
    seq(|sent|, i requires 0 <= i < |sent| => Part(sent[i].contentType, sent[i].body))
  }

  /** The accepted events and the pictures among the things sent, in order. */
  function SentInputs<E>(decode: bytes -> Option<E>, sent: seq<Sent>): seq<Input<E>> {
    if sent == [] then [] else
      (match sent[0]
       case Report(_, body) => if decode(body).Some? then [Arrives(Event(decode(body).value))] else []
       case Photo(_, body) => [Arrives(Image(body))]
       case Jpeg(_, body) => [Arrives(Image(body))]
       case Else(_, _) => [])
      + SentInputs(decode, sent[1..])
  }

  lemma LowerSays(text: bytes, word: bytes, i: int)
    requires forall k :: 0 <= k < |word| ==> !(65 <= word[k] <= 90)
    ensures MatchAt(LowerCase(text), word, i) <==> Says(text, word, i)
  {
    if 0 <= i <= |text| - |word| {
      var piece, lower := text[i..i + |word|], LowerCase(text)[i..i + |word|];
      forall k | 0 <= k < |word| ensures lower[k] == word[k] <==>
          piece[k] == word[k] || (97 <= word[k] <= 122 && piece[k] == word[k] - 32)
      {
        LowerOf(piece[k], word[k]);
      }
      assert lower == word <==> forall k :: 0 <= k < |word| ==> lower[k] == word[k];
    }
  }

  lemma PrefixSays(text: bytes, word: bytes)
    requires forall k :: 0 <= k < |word| ==> !(65 <= word[k] <= 90)
    ensures word <= LowerCase(text) <==> Says(text, word, 0)
  {
    LowerSays(text, word, 0);
  }

  lemma LowerSaysJson(contentType: bytes)
    ensures IndexOf(LowerCase(contentType), JSON) != -1 || TEXT <= LowerCase(contentType) <==> SaysJson(contentType)
  {
    hide MatchAt, Says, LowerCase;
    PrefixSays(contentType, TEXT);
    forall i ensures MatchAt(LowerCase(contentType), JSON, i) <==> Says(contentType, JSON, i) {
      LowerSays(contentType, JSON, i);
    }
  }

  /** What is sent is taken for what it is. */
  lemma SentIsClassified(t: Sent)
    requires GoodSent(t)
    ensures Classify(Part(t.contentType, t.body))
         == match t case Report(_, _) => Json case Photo(_, _) => Picture case Jpeg(_, _) => Picture case Else(_, _) => Ignore
  {
    hide LowerCase, Says, SaysJson;
    LowerSaysJson(t.contentType);
    PrefixSays(t.contentType, IMAGE);
  }

  /** The inputs of the pairing are the events and pictures sent, in order, whatever the media types look like. */
  lemma {:induction false} InputsAreSent<E>(decode: bytes -> Option<E>, sent: seq<Sent>)
    requires forall t :: t in sent ==> GoodSent(t)
    ensures InputsOf(decode, SentParts(sent)) == SentInputs(decode, sent)
  {
    hide Classify, GoodSent;
    if sent != [] {
      SentIsClassified(sent[0]);
      assert SentParts(sent)[1..] == SentParts(sent[1..]);
      InputsAreSent(decode, sent[1..]);
    }
  }

  // ---------- pairing ----------

  /** A new event releases the one before it; an image releases the held event with that image, if there is one. */
  function ApplyPart<E>(current: Option<Held<E>>, incoming: Incoming<E>): (r: (Option<Held<E>>, Option<Held<E>>)) {
    match incoming
    case Event(event) => (current, Some(Held(event, None)))
    case Image(image) =>
      if current.None? then (None, None) else (Some(Held(current.value.event, Some(image))), None)
  }

  // ---------- runs ----------

  /** What became of an event that is no longer held. */
  datatype Fate<E> = HandedOn(held: Held<E>) | Dropped(held: Held<E>)

  /** The events that are gone, oldest first, and the one still held. */
  datatype Desk<E> = Desk(gone: seq<Fate<E>>, held: Option<Held<E>>)

  function AsSeq<T>(o: Option<T>): seq<T> {
    if o.None? then [] else [o.value]
  }

  /** A held event as it would be handed on now. */
  function AsFate<E>(o: Option<Held<E>>): seq<Fate<E>> {
    if o.None? then [] else [HandedOn(o.value)]
  }

  function Step<E>(d: Desk<E>, input: Input<E>): Desk<E> {
    match input
    case Arrives(incoming) =>
      var (flush, hold) := ApplyPart(d.held, incoming);
      Desk(d.gone + AsFate(flush), hold)
    case Elapses => Desk(d.gone + AsFate(d.held), None)
    case Clears => Desk(d.gone + (if d.held.None? then [] else [Dropped(d.held.value)]), None)
  }

  function Outcome<E>(inputs: seq<Input<E>>): Desk<E> {
    if inputs == [] then Desk([], None) else Step(Outcome(inputs[..|inputs| - 1]), inputs[|inputs| - 1])
  }

  /** Those that were handed on. */
  function Handed<E>(fates: seq<Fate<E>>): seq<Held<E>> {
    if fates == [] then [] else
      var last := fates[|fates| - 1];
      Handed(fates[..|fates| - 1]) + if last.HandedOn? then [last.held] else []
  }

  lemma HandedMore<E>(fates: seq<Fate<E>>, next: Option<Held<E>>)
    ensures Handed(fates + AsFate(next)) == Handed(fates) + AsSeq(next)
    ensures next.Some? ==> Handed(fates + [Dropped(next.value)]) == Handed(fates)
  {
    if next.None? {
      assert fates + AsFate(next) == fates;
    } else {
      assert (fates + AsFate(next))[..|fates|] == fates;
      assert (fates + [Dropped(next.value)])[..|fates|] == fates;
    }
  }

  lemma OutcomeNext<E>(inputs: seq<Input<E>>, next: Input<E>)
    ensures Outcome(inputs + [next]) == Step(Outcome(inputs), next)
  {
    assert (inputs + [next])[..|inputs|] == inputs;
  }

  /** The events among the inputs, in arrival order. */
  function Events<E>(inputs: seq<Input<E>>): seq<E> {
    if inputs == [] then [] else
      var last := inputs[|inputs| - 1];
      Events(inputs[..|inputs| - 1]) + if last.Arrives? && last.incoming.Event? then [last.incoming.event] else []
  }

  function EventsOf<E>(fates: seq<Fate<E>>): seq<E> {
    seq(|fates|, i requires 0 <= i < |fates| => fates[i].held.event)
  }

  predicate IsEvent<E>(input: Input<E>) {
    input.Arrives? && input.incoming.Event?
  }

  predicate IsImage<E>(input: Input<E>) {
    input.Arrives? && input.incoming.Image?
  }

  /** Reference: the image of an event is the one in the input right after it, if that is an image. */
  function ImageAfter<E>(inputs: seq<Input<E>>, i: nat): Option<bytes> {
    if i + 1 < |inputs| && IsImage(inputs[i + 1]) then Some(inputs[i + 1].incoming.image) else None
  }

  /** Reference: an event followed directly by a teardown is dropped, any other one is handed on. */
  function PairedAt<E>(inputs: seq<Input<E>>, i: nat): seq<Fate<E>>
    requires i < |inputs|
  {
    if !IsEvent(inputs[i]) then []
    else if i + 1 < |inputs| && inputs[i + 1].Clears? then [Dropped(Held(inputs[i].incoming.event, None))]
    else [HandedOn(Held(inputs[i].incoming.event, ImageAfter(inputs, i)))]
  }

  /** Reference: what becomes of the events from position `from` on. */
  function Pairing<E>(inputs: seq<Input<E>>, from: nat): seq<Fate<E>>
    requires from <= |inputs|
    decreases |inputs| - from
  {
    if from == |inputs| then [] else PairedAt(inputs, from) + Pairing(inputs, from + 1)
  }

  /** Every event is handed on or dropped, exactly once, in arrival order, or is the one still held. */
  lemma {:induction false} ExactlyOnce<E>(inputs: seq<Input<E>>)
    ensures var d := Outcome(inputs); EventsOf(d.gone + AsFate(d.held)) == Events(inputs)
  {
    if inputs != [] {
      var before := inputs[..|inputs| - 1];
      ExactlyOnce(before);
      var was, d := Outcome(before), Outcome(inputs);
      assert EventsOf(d.gone + AsFate(d.held))
          == EventsOf(was.gone + AsFate(was.held)) + (Events(inputs)[|Events(before)|..]);
    }
  }

  /** An event is held exactly when it is the very last input. */
  lemma HeldIsLast<E>(inputs: seq<Input<E>>)
    ensures var d := Outcome(inputs);
            d.held == if inputs != [] && IsEvent(inputs[|inputs| - 1])
                      then Some(Held(inputs[|inputs| - 1].incoming.event, None)) else None
  {
  }

  /** What one more input does to the reference pairing: nothing before the last position changes. */
  lemma {:induction false} PairingGrows<E>(inputs: seq<Input<E>>, next: Input<E>, from: nat) returns (front: seq<Fate<E>>)
    requires from < |inputs|
    ensures var n := |inputs| - 1;
            && Pairing(inputs, from) == front + PairedAt(inputs, n)
            && Pairing(inputs + [next], from) == front + (PairedAt(inputs + [next], n) + PairedAt(inputs + [next], n + 1))
    decreases |inputs| - from
  {
    hide PairedAt;
    var more, n := inputs + [next], |inputs| - 1;
    if from == n {
      front := [];
      assert Pairing(more, n + 2) == [] && Pairing(inputs, n + 1) == [];
      assert Pairing(more, n + 1) == PairedAt(more, n + 1) + [];
    } else {
      var rest := PairingGrows(inputs, next, from + 1);
      SameBefore(inputs, next, from);
      front := PairedAt(inputs, from) + rest;
      Assoc(PairedAt(inputs, from), rest, PairedAt(inputs, n));
      Assoc(PairedAt(inputs, from), rest, PairedAt(more, n) + PairedAt(more, n + 1));
    }
  }

  lemma Assoc<T>(a: seq<T>, b: seq<T>, c: seq<T>)
    ensures (a + b) + c == a + (b + c)
  {
  }

  lemma Cancel<T>(a: seq<T>, b: seq<T>, c: seq<T>)
    requires a + c == b + c
    ensures a == b
  {
    assert |a| == |b|;
    assert (a + c)[..|a|] == a && (b + c)[..|b|] == b;
  }

  lemma SameBefore<E>(inputs: seq<Input<E>>, next: Input<E>, i: nat)
    requires i + 1 < |inputs|
    ensures PairedAt(inputs + [next], i) == PairedAt(inputs, i)
  {
  }

  /** Each image goes to the event in the input just before it or nowhere, and a teardown drops only the event just before it. */
  lemma {:induction false} ImagesGoToTheEventBefore<E>(inputs: seq<Input<E>>)
    ensures var d := Outcome(inputs); d.gone + AsFate(d.held) == Pairing(inputs, 0)
  {
    if |inputs| == 1 {
      assert inputs[..0] == [];
    } else if inputs != [] {
      var before, next := inputs[..|inputs| - 1], inputs[|inputs| - 1];
      assert inputs == before + [next];
      ImagesGoToTheEventBefore(before);
      HeldIsLast(before);
      var front := PairingGrows(before, next, 0);
      assert PairedAt(before, |before| - 1) == AsFate(Outcome(before).held);
      Cancel(front, Outcome(before).gone, AsFate(Outcome(before).held));
      LastTwo(before, next, Outcome(before));
      assert Outcome(inputs) == Step(Outcome(before), next);
      Assoc(front, PairedAt(inputs, |before| - 1), PairedAt(inputs, |before|));
    }
  }

  /** A step hands on what the reference has for the position before and holds what it has for the new one. */
  lemma LastTwo<E>(before: seq<Input<E>>, next: Input<E>, was: Desk<E>)
    requires before != []
    requires AsFate(was.held) == PairedAt(before, |before| - 1)
    ensures Step(was, next).gone == was.gone + PairedAt(before + [next], |before| - 1)
    ensures AsFate(Step(was, next).held) == PairedAt(before + [next], |before|)
  {
  }

  lemma {:induction false} InputsAppend<E>(decode: bytes -> Option<E>, a: seq<Part>, b: seq<Part>)
    ensures InputsOf(decode, a + b) == InputsOf(decode, a) + InputsOf(decode, b)
  {
    if a == [] {
      assert a + b == b;
    } else {
      assert (a + b)[1..] == a[1..] + b;
      InputsAppend(decode, a[1..], b);
    }
  }

  lemma InputsGrow<E>(decode: bytes -> Option<E>, parts: seq<Part>, i: nat)
    requires i < |parts|
    ensures InputsOf(decode, parts[..i + 1]) == InputsOf(decode, parts[..i]) + InputOf(decode, parts[i])
  {
    hide InputOf;
    InputsAppend(decode, parts[..i], [parts[i]]);
    assert parts[..i + 1] == parts[..i] + [parts[i]];
    assert [parts[i]][1..] == [];
    assert InputsOf(decode, [parts[i]]) == InputOf(decode, parts[i]) + [];
  }

  // ---------- the connection ----------

  class AlertConnection<E(==)> {
    const decode: bytes -> Option<E>
    const parser: MultipartAccumState
    var pending: Option<Pending<E>>
    /** Timers that are armed: neither fired nor cleared. */
    var timers: set<nat>
    var nextTimer: nat
    /** Events handed on, oldest first. */
    var handed: seq<Held<E>>
    ghost var inputs: seq<Input<E>>

    ghost predicate Valid()
      reads this, parser
    {
      && parser.Valid()
      && timers == (if pending.None? then {} else {pending.value.timer})
      && (pending.Some? ==> pending.value.timer < nextTimer)
      && handed == Handed(Outcome(inputs).gone) && Waiting() == Outcome(inputs).held
    }

    ghost function Waiting(): Option<Held<E>>
      reads this
    {
      if pending.None? then None else Some(Held(pending.value.event, pending.value.image))
    }

    constructor (boundary: bytes, decode: bytes -> Option<E>)
      ensures Valid() && fresh(parser) && inputs == [] && this.decode == decode
      ensures parser.Abstract() == Seek([]) && parser.boundaryMarker == Marker(boundary)
    {
      this.decode := decode;
      parser := new MultipartAccumState(boundary);
      pending, timers, nextTimer := None, {}, 0;
      handed, inputs := [], [];
    }

    /** Pairs one incoming part, releasing and holding events as the pairing says. */
    method ApplyIncoming(incoming: Incoming<E>)
      requires Valid()
      modifies this
      ensures Valid() && inputs == old(inputs) + [Arrives(incoming)]
      ensures parser.Abstract() == old(parser.Abstract())
    {
      hide Outcome, Handed;
      var current := if pending.None? then None else Some(Held(pending.value.event, pending.value.image));
      var (flush, hold) := ApplyPart(current, incoming);
      OutcomeNext(inputs, Arrives(incoming));
      HandedMore(Outcome(inputs).gone, flush);
      if flush.Some? {
        ClearTimer();
        pending := None;
        handed := handed + [flush.value];
      }
      if hold.Some? {
        ClearTimer();
        timers := timers + {nextTimer};
        pending := Some(Pending(hold.value.event, hold.value.image, nextTimer));
        nextTimer := nextTimer + 1;
      }
      inputs := inputs + [Arrives(incoming)];
    }

    method ClearTimer()
      modifies this`timers
      ensures timers == if pending.None? then old(timers) else old(timers) - {pending.value.timer}
    {
      if pending.Some? {
        timers := timers - {pending.value.timer};
      }
    }

    /** The callback of an armed timer. It releases the event it was armed for. */
    method TimerFires(timer: nat)
      requires Valid() && timer in timers
      modifies this
      ensures Valid() && inputs == old(inputs) + [Elapses]
      ensures old(pending).Some? && old(pending).value.timer == timer
      ensures handed == old(handed) + [Held(old(pending).value.event, old(pending).value.image)]
      ensures parser.Abstract() == old(parser.Abstract())
    {
      hide Outcome, Handed;
      OutcomeNext(inputs, Elapses);
      HandedMore(Outcome(inputs).gone, Waiting());
      timers := timers - {timer};
      inputs := inputs + [Elapses];
      if pending == None {
        return;
      }
      var event, image := pending.value.event, pending.value.image;
      pending := None;
      handed := handed + [Held(event, image)];
    }

    /** The teardown of the connection: a held event is dropped with its timer. */
    method ClearPending()
      requires Valid()
      modifies this
      ensures Valid() && inputs == old(inputs) + [Clears]
      ensures pending == None && timers == {} && handed == old(handed)
      ensures Outcome(inputs).gone == old(Outcome(inputs).gone + if pending.None? then [] else [Dropped(Waiting().value)])
      ensures parser.Abstract() == old(parser.Abstract())
    {
      hide Outcome, Handed;
      OutcomeNext(inputs, Clears);
      HandedMore(Outcome(inputs).gone, Waiting());
      ClearTimer();
      pending := None;
      inputs := inputs + [Clears];
    }

    /** One completed part. */
    method ProcessPart(part: Part)
      requires Valid()
      modifies this
      ensures Valid() && inputs == old(inputs) + InputOf(decode, part)
      ensures parser.Abstract() == old(parser.Abstract())
    {
      hide Classify, Outcome;
      match Classify(part)
      case Ignore =>
      case Picture => ApplyIncoming(Image(part.body));
      case Json =>
        var event := decode(part.body);
        if event.Some? {
          ApplyIncoming(Event(event.value));
        }
    }

    /** One chunk of the stream. */
    method ProcessChunk(chunk: bytes)
      requires Valid()
      modifies this, parser
      ensures Valid()
      ensures var (after, parts) := Feed(parser.boundaryMarker, old(parser.Abstract()), chunk);
              parser.Abstract() == after && inputs == old(inputs) + InputsOf(decode, parts)
    {
      hide Outcome, InputOf, Feed;
      var parts := parser.FeedMultipartStream(chunk);
      ghost var fed := parser.Abstract();
      assert parts[..0] == [];
      for i := 0 to |parts|
        invariant Valid() && parser.Abstract() == fed
        invariant inputs == old(inputs) + InputsOf(decode, parts[..i])
      {
        InputsGrow(decode, parts, i);
        ProcessPart(parts[i]);
      }
      assert parts[..|parts|] == parts;
    }

    /** The chunks of a stream, one after another. */
    method ReceiveChunks(chunks: seq<bytes>)
      requires Valid()
      modifies this, parser
      ensures Valid()
      ensures inputs == old(inputs) + InputsOf(decode, FeedAll(parser.boundaryMarker, old(parser.Abstract()), chunks).1)
      decreases |chunks|
    {
      hide Outcome, InputOf, InputsOf, Feed;
      NoInputs(decode);
      if chunks != [] {
        ghost var (after, more) := Feed(parser.boundaryMarker, parser.Abstract(), chunks[0]);
        InputsAppend(decode, more, FeedAll(parser.boundaryMarker, after, chunks[1..]).1);
        ProcessChunk(chunks[0]);
        ReceiveChunks(chunks[1..]);
      }
    }

    /**
     * A whole stream without a timer going off: what is handed on depends on the frames sent, not on
     * how the network cut them: the events sent, each with the picture sent right after it.
     */
    method ReceiveAll(chunks: seq<bytes>, ghost frames: seq<Frame>, ghost e: Ending, ghost sent: seq<Sent>)
      requires Valid() && inputs == [] && parser.Abstract() == Seek([])
      requires GoodStream(parser.boundaryMarker, frames, e)
      requires Flatten(chunks) == Wire(parser.boundaryMarker, frames, e)
      modifies this, parser
      ensures Valid()
      ensures handed + AsSeq(Waiting()) == Handed(Pairing(InputsOf(decode, Parts(frames)), 0))
      ensures Parts(frames) == SentParts(sent) && (forall t :: t in sent ==> GoodSent(t)) ==>
                handed + AsSeq(Waiting()) == Handed(Pairing(SentInputs(decode, sent), 0))
    {
      hide Outcome, Handed, InputOf, InputsOf, Feed, FeedAll, Wire, GoodStream, Pairing;
      StreamRoundTrip(parser.boundaryMarker, chunks, frames, e);
      ReceiveChunks(chunks);
      assert inputs == InputsOf(decode, Parts(frames));
      ImagesGoToTheEventBefore(inputs);
      HandedMore(Outcome(inputs).gone, Waiting());
      if Parts(frames) == SentParts(sent) && forall t :: t in sent ==> GoodSent(t) {
        InputsAreSent(decode, sent);
      }
    }
  }

  lemma NoInputs<E>(decode: bytes -> Option<E>)
    ensures InputsOf(decode, []) == []
  {
  }
}
