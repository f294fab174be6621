/** Keys under which a reader's access events are recognised as the same event. */
module EventKeys {
  import opened NumberText
  import opened Search
  import opened Wrappers

  /** Fields of a facial event; `userId` is empty when the event carries none. */
  datatype EventData = EventData(
    userId: string, faceId: Option<int>, status: Option<int>, similarity: Option<real>,
    createTime: Option<int>, utc: Option<int>, partSequence: Option<int>, recNo: Option<int>, accessMethod: Option<int>)

  function Text(n: int): string {
    if n < 0 then "-" + Digits(-n) else Digits(n)
  }

  /** The event's instant; zero counts as none. */
  function Instant(data: EventData): Option<int> {
    var t := if data.createTime.Some? then data.createTime else data.utc;
    if t == Some(0) then None else t
  }

  function BuildFacialCorrelationId(reader: string, data: EventData): Option<string> {
    if data.recNo.Some? then Some(reader + "|rec:" + Text(data.recNo.value))
    else if Instant(data).Some? && data.userId != "" then
      Some(reader + "|u:" + data.userId + "|t:" + Text(Instant(data).value))
    else None
  }

  function GetStreamEventDedupKey(reader: string, data: EventData): Option<string> {
    if Instant(data).None? then None else
      var start := "s:" + reader + ":" + data.userId + ":" + Text(Instant(data).value);
      Some(start +
        if data.partSequence.Some? then ":seq:" + Text(data.partSequence.value)
        else if data.recNo.Some? then ":rec:" + Text(data.recNo.value)
        else ":m:" + if data.accessMethod.Some? then Text(data.accessMethod.value) else "")
  }

  /** The key under which an event counts as already stored. */
  function DedupKey(reader: string, data: EventData): Option<string> {
    var correlation := BuildFacialCorrelationId(reader, data);
    if correlation.Some? then correlation else GetStreamEventDedupKey(reader, data)
  }

  /** For an event with a user the second kind of key is never needed. */
  lemma DedupKeyIsCorrelationId(reader: string, data: EventData)
    requires data.userId != ""
    ensures DedupKey(reader, data) == BuildFacialCorrelationId(reader, data)
  {
  }

  lemma TextInjective(a: int, b: int)
    requires Text(a) == Text(b)
    ensures a == b
  {
    if a >= 0 {
      ValueOfDigits(a);
      assert IsDigit(Text(a)[0]);
    } else {
      ValueOfDigits(-a);
      assert Text(a)[0] == '-' && Text(a)[1..] == Digits(-a);
    }
    if b >= 0 {
      ValueOfDigits(b);
      assert IsDigit(Text(b)[0]);
    } else {
      ValueOfDigits(-b);
      assert Text(b)[0] == '-' && Text(b)[1..] == Digits(-b);
    }
  }

  /** Two texts cut at their first separator. */
  lemma CutAtFirst(a: string, b: string, c: char, x: string, y: string)
    requires c !in a && c !in b && a + [c] + x == b + [c] + y
    ensures a == b && x == y
  {
    var s := a + [c] + x;
    assert s[..|a|] == a && s[..|b|] == b;
    FirstByte(s, c, |a|);
    FirstByte(s, c, |b|);
    assert x == s[|a| + 1..] == y;
  }

  /** Two texts cut at their last separator. */
  lemma CutAtLast(a: string, b: string, c: char, x: string, y: string)
    requires c !in x && c !in y && a + [c] + x == b + [c] + y
    ensures a == b && x == y
  {
    var s := a + [c] + x;
    assert s[|a|] == c && s[|b|] == c;
    assert s[|a| + 1..] == x && s[|b| + 1..] == y;
    LastPosition(s, c, |a|, |b|);
    assert s[..|a|] == a && s[..|b|] == b;
  }

  lemma LastPosition(s: string, c: char, i: nat, j: nat)
    requires i < |s| && j < |s| && s[i] == c && s[j] == c && c !in s[i + 1..] && c !in s[j + 1..]
    ensures i == j
  {
    forall k | i < k < |s| ensures s[k] != c {
      assert s[k] == s[i + 1..][k - i - 1];
    }
    forall k | j < k < |s| ensures s[k] != c {
      assert s[k] == s[j + 1..][k - j - 1];
    }
  }

  lemma NoBar(n: int)
    ensures '|' !in "t:" + Text(n)
  {
    assert AllDigits(if n < 0 then Digits(-n) else Digits(n));
  }

  /** What follows the reader in a correlation id. */
  function Rest(data: EventData): string
    requires data.recNo.Some? || (Instant(data).Some? && data.userId != "")
  {
    if data.recNo.Some? then "rec:" + Text(data.recNo.value)
    else "u:" + data.userId + "|t:" + Text(Instant(data).value)
  }

  lemma CorrelationParts(reader: string, data: EventData)
    requires BuildFacialCorrelationId(reader, data).Some?
    ensures BuildFacialCorrelationId(reader, data).value == reader + ['|'] + Rest(data)
  {
  }

  /** Events of different readers never share a correlation id. */
  lemma KeyTellsReader(a: string, d: EventData, b: string, e: EventData)
    requires '|' !in a && '|' !in b
    requires BuildFacialCorrelationId(a, d).Some? && BuildFacialCorrelationId(a, d) == BuildFacialCorrelationId(b, e)
    ensures a == b && Rest(d) == Rest(e)
  {
    CorrelationParts(a, d);
    CorrelationParts(b, e);
    CutAtFirst(a, b, '|', Rest(d), Rest(e));
  }

  /** The creation time, or else the time stamp. */
  function Moment(d: EventData): Option<int> {
    match d.createTime
    case Some(created) => Some(created)
    case None => d.utc
  }

  /** There is a correlation id exactly for a record number, or for a user with an instant other than zero. */
  lemma HasCorrelation(reader: string, d: EventData)
    ensures BuildFacialCorrelationId(reader, d).Some? <==>
            d.recNo.Some? || (d.userId != "" && Moment(d).Some? && Moment(d) != Some(0))
  {
  }

  /** The record number when there is one, otherwise the user and the instant. */
  predicate SameEvent(d: EventData, e: EventData) {
    if d.recNo.Some? || e.recNo.Some? then d.recNo == e.recNo
    else d.userId == e.userId && Moment(d) == Moment(e)
  }

  /** Correlation ids agree exactly for the same event of the same reader. */
  lemma KeyMeansSameEvent(a: string, d: EventData, b: string, e: EventData)
    requires '|' !in a && '|' !in b
    requires BuildFacialCorrelationId(a, d).Some? && BuildFacialCorrelationId(b, e).Some?
    ensures BuildFacialCorrelationId(a, d) == BuildFacialCorrelationId(b, e) <==> a == b && SameEvent(d, e)
  {
    if BuildFacialCorrelationId(a, d) == BuildFacialCorrelationId(b, e) {
      KeyTellsReader(a, d, b, e);
      assert Rest(d)[0] == if d.recNo.Some? then 'r' else 'u';
      assert Rest(e)[0] == if e.recNo.Some? then 'r' else 'u';
      if d.recNo.Some? {
        assert Text(d.recNo.value) == Rest(d)[4..] == Rest(e)[4..] == Text(e.recNo.value);
        TextInjective(d.recNo.value, e.recNo.value);
      } else {
        var x, y := "t:" + Text(Instant(d).value), "t:" + Text(Instant(e).value);
        assert d.userId + ['|'] + x == Rest(d)[2..] == Rest(e)[2..] == e.userId + ['|'] + y;
        NoBar(Instant(d).value);
        NoBar(Instant(e).value);
        CutAtLast(d.userId, e.userId, '|', x, y);
        assert Text(Instant(d).value) == x[2..] == y[2..] == Text(Instant(e).value);
        TextInjective(Instant(d).value, Instant(e).value);
      }
    }
  }
}
