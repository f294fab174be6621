/** The message kept about a sync over several readers, and how a later sync reads it back. */
module SyncOutcome {
  import opened Lists
  import opened Names
  import opened NumberText
  import opened Search
  import opened Wrappers

  datatype Status = Synced | SyncFailed

  datatype Outcome = Outcome(status: Status, error: Option<string>)

  // ---------- substrings ----------

  /** `includes` of a text. */
  predicate Includes(s: string, t: string)
    ensures Includes(s, t) <==> Occurs(s, t)
  {
    IndexOf(s, t) != -1
  }

  lemma OccursInside(before: string, s: string, after: string, t: string)
    requires Occurs(s, t)
    ensures Occurs(before + s + after, t)
  {
    var i :| MatchAt(s, t, i);
    MatchInPrefix(s, after, t, i);
    assert (before + s + after)[|before|..] == s + after;
    MatchInSuffix(before + s + after, t, |before|, i);
  }

  function Join(parts: seq<string>, separator: string): string {
    if parts == [] then "" else if |parts| == 1 then parts[0] else parts[0] + separator + Join(parts[1..], separator)
  }

  lemma {:induction false} JoinContains(parts: seq<string>, separator: string, k: nat)
    requires k < |parts|
    ensures Occurs(Join(parts, separator), parts[k])
  {
    var all := Join(parts, separator);
    if k == 0 {
      assert all[0..|parts[0]|] == parts[0];
      assert MatchAt(all, parts[0], 0);
    } else {
      var rest := Join(parts[1..], separator);
      JoinContains(parts[1..], separator, k - 1);
      OccursInside(parts[0] + separator, rest, "", parts[k]);
      assert parts[0] + separator + rest + "" == all;
    }
  }

  // ---------- printing ----------

  /** Reader name and reason of a failure text, cut at the first `": "`. */
  function SplitReaderFailure(failure: string): (string, string) {
    var i := IndexOf(failure, ": ");
    if i == -1 then (failure, failure) else (failure[..i], failure[i + 2..])
  }

  function FailureNames(failures: seq<string>): seq<string> {
    seq(|failures|, i requires 0 <= i < |failures| => SplitReaderFailure(failures[i]).0)
  }

  predicate OneReason(failures: seq<string>) {
    forall i :: 0 <= i < |failures| ==> SplitReaderFailure(failures[i]).1 == SplitReaderFailure(failures[0]).1
  }

  /** All failures, or one common reason with the names in parentheses. */
  function FormatFailureDetail(failures: seq<string>): string {
    if |failures| > 1 && OneReason(failures)
    then SplitReaderFailure(failures[0]).1 + " (" + Join(FailureNames(failures), ", ") + ")"
    else Join(failures, " ")
  }

  function AggregateReaderSyncOutcome(failures: seq<string>, totalReaders: nat): Outcome {
    var detail := FormatFailureDetail(failures);
    if |failures| == totalReaders then
      Outcome(SyncFailed, Some(
        if totalReaders == 1 then detail else
          "Não foi possível sincronizar com " + Digits(|failures|) + " de " + Digits(totalReaders)
          + " leitor(es). " + detail))
    else if |failures| > 0 then
      Outcome(Synced, Some(
        "Sincronizado parcialmente (" + Remaining(totalReaders, |failures|) + " de " + Digits(totalReaders)
          + " leitor(es)). " + detail))
    else Outcome(Synced, None)
  }

  /** Printed difference; negative when there are more failures than readers. */
  function Remaining(total: nat, failed: nat): string {
    if failed <= total then Digits(total - failed) else "-" + Digits(failed - total)
  }

  lemma {:induction false} JoinMore(parts: seq<string>, separator: string, last: string)
    ensures Join(parts + [last], separator) == if parts == [] then last else Join(parts, separator) + separator + last
  {
    if |parts| > 1 {
      assert (parts + [last])[1..] == parts[1..] + [last];
      JoinMore(parts[1..], separator, last);
      var a, b := parts[0] + separator, Join(parts[1..], separator);
      assert Join(parts, separator) == a + b && Join(parts + [last], separator) == a + Join(parts[1..] + [last], separator);
      hide Join;
      Regrouped(a, b, separator, last);
    } else if |parts| == 1 {
      assert (parts + [last])[1..] == [last];
    }
  }

  lemma Regrouped(a: string, b: string, c: string, d: string)
    ensures a + (b + c + d) == (a + b) + c + d
  {
  }

  method JoinTexts(parts: seq<string>, separator: string) returns (text: string)
    ensures text == Join(parts, separator)
  {
    text := "";
    for i := 0 to |parts|
      invariant text == Join(parts[..i], separator)
    {
      JoinMore(parts[..i], separator, parts[i]);
      assert parts[..i + 1] == parts[..i] + [parts[i]];
      text := if i == 0 then parts[0] else text + separator + parts[i];
    }
    assert parts[..|parts|] == parts;
  }

  /** Names and reasons of the failures. */
  method ParseFailures(failures: seq<string>) returns (names: seq<string>, reasons: seq<string>)
    ensures names == FailureNames(failures) && |reasons| == |failures|
    ensures forall i :: 0 <= i < |failures| ==> reasons[i] == SplitReaderFailure(failures[i]).1
  {
    names, reasons := [], [];
    for i := 0 to |failures|
      invariant |names| == |reasons| == i
      invariant forall j :: 0 <= j < i ==> (names[j], reasons[j]) == SplitReaderFailure(failures[j])
    {
      var at := IndexOf(failures[i], ": ");
      if at == -1 {
        names, reasons := names + [failures[i]], reasons + [failures[i]];
      } else {
        names, reasons := names + [failures[i][..at]], reasons + [failures[i][at + 2..]];
      }
    }
  }

  method FormatDetail(failures: seq<string>) returns (detail: string)
    ensures detail == FormatFailureDetail(failures)
  {
    hide Join, SplitReaderFailure;
    if |failures| <= 1 {
      detail := JoinTexts(failures, " ");
      return;
    }
    var names, reasons := ParseFailures(failures);
    if forall i :: 0 <= i < |reasons| ==> reasons[i] == reasons[0] {
      var joined := JoinTexts(names, ", ");
      detail := reasons[0] + " (" + joined + ")";
    } else {
      detail := JoinTexts(failures, " ");
    }
  }

  /** The status of a sync and the message kept about its failures. */
  method AggregateOutcome(failures: seq<string>, totalReaders: nat) returns (outcome: Outcome)
    ensures outcome == AggregateReaderSyncOutcome(failures, totalReaders)
  {
    hide FormatFailureDetail, Digits;
    var detail := FormatDetail(failures);
    if |failures| == totalReaders {
      if totalReaders == 1 {
        return Outcome(SyncFailed, Some(detail));
      }
      return Outcome(SyncFailed, Some(
        "Não foi possível sincronizar com " + Digits(|failures|) + " de " + Digits(totalReaders) + " leitor(es). " + detail));
    }
    if |failures| > 0 {
      var left := if |failures| <= totalReaders then Digits(totalReaders - |failures|) else "-" + Digits(|failures| - totalReaders);
      return Outcome(Synced, Some(
        "Sincronizado parcialmente (" + left + " de " + Digits(totalReaders) + " leitor(es)). " + detail));
    }
    return Outcome(Synced, None);
  }

  /** The numbers in the message are those of the readers that succeeded, or that failed, and of all. */
  lemma MessageCounts(failures: seq<string>, total: nat)
    requires failures != [] && |failures| <= total && total > 1
    ensures var error := AggregateReaderSyncOutcome(failures, total).error;
            exists start: string, first: string, all: string, rest: string ::
              && error == Some(start + first + " de " + all + " leitor(es)" + rest)
              && AllDigits(first) && AllDigits(all) && Value(all) == total
              && Value(first) == if |failures| == total then total else total - |failures|
  {
    hide FormatFailureDetail, Value, Digits;
    var detail := FormatFailureDetail(failures);
    ValueOfDigits(total);
    var error := AggregateReaderSyncOutcome(failures, total).error.value;
    var all := Digits(total);
    if |failures| == total {
      var start, rest := "Não foi possível sincronizar com ", ". " + detail;
      assert " leitor(es). " == " leitor(es)" + ". ";
      assert error == start + all + " de " + all + " leitor(es)" + rest;
    } else {
      ValueOfDigits(total - |failures|);
      var start, first, rest := "Sincronizado parcialmente (", Digits(total - |failures|), "). " + detail;
      assert " leitor(es)). " == " leitor(es)" + "). ";
      assert error == start + first + " de " + all + " leitor(es)" + rest;
    }
  }

  // ---------- reading back ----------

  datatype Brand = Intelbras | Hikvision

  /** A reader with its minimum age, if any, and its offset from UTC. */
  datatype Reader = Reader(id: string, name: string, brand: Brand, minimumAge: Option<nat>, offset: int)

  datatype Row = Row(readerId: string, status: Option<Status>)

  predicate IsPartialSyncError(error: string) {
    Includes(ToLower(error), "parcialmente")
  }

  /** Readers whose name occurs in the message. */
  predicate Cites(error: string, reader: Reader) {
    |reader.name| > 0 && Includes(error, reader.name)
  }

  /** Identifiers of the cited readers. */
  function CitedIds(error: string, readers: seq<Reader>): set<string> {
    set r | r in readers && Cites(error, r) :: r.id
  }

  /** Readers a partial message lets the next sync take as done; nothing when it cites no reader. */
  function SeededIds(error: string, readers: seq<Reader>): set<string> {
    var cited := CitedIds(error, readers);
    if cited == {} then {} else set r | r in readers && r.id !in cited :: r.id
  }

  /** The message replaces missing rows when it is partial. */
  function SeedsFor(readers: seq<Reader>, noRows: bool, previousError: Option<string>): set<string> {
    if noRows && previousError.Some? && previousError.value != "" && IsPartialSyncError(previousError.value)
    then SeededIds(previousError.value, readers) else {}
  }

  /**
   * A reader counts as done exactly when there are no rows, the message says that the sync was partial, it names
   * one of the readers, and none with this identifier.
   */
  lemma SeedsAre(readers: seq<Reader>, noRows: bool, previousError: Option<string>, id: string)
    ensures id in SeedsFor(readers, noRows, previousError) <==>
            && noRows && previousError.Some? && Occurs(ToLower(previousError.value), "parcialmente")
            && (exists r :: r in readers && r.name != "" && Occurs(previousError.value, r.name))
            && (exists r :: r in readers && r.id == id)
            && forall r :: r in readers && r.id == id ==> r.name == "" || !Occurs(previousError.value, r.name)
  {
    hide Occurs, IndexOf, ToLower;
    if previousError.Some? {
      var error := previousError.value;
      EmptyIsNotPartial();
      forall r: Reader ensures Cites(error, r) <==> r.name != "" && Occurs(error, r.name) {
      }
      hide Cites, Includes;
      CitedAre(error, readers);
    }
  }

  lemma CitedAre(error: string, readers: seq<Reader>)
    ensures forall id :: id in CitedIds(error, readers) <==> exists r :: r in readers && Cites(error, r) && r.id == id
    ensures CitedIds(error, readers) == {} <==> forall r :: r in readers ==> !Cites(error, r)
  {
    hide Cites;
    forall r | r in readers && Cites(error, r) ensures r.id in CitedIds(error, readers) {
    }
  }

  lemma EmptyIsNotPartial()
    ensures !Occurs(ToLower(""), "parcialmente")
  {
  }

  /** Status of the last row for a reader. */
  function StatusOf(existing: seq<Row>, id: string): Option<Status> {
    if existing == [] then None
    else if existing[|existing| - 1].readerId == id then existing[|existing| - 1].status
    else StatusOf(existing[..|existing| - 1], id)
  }

  predicate TakenAsSynced(readers: seq<Reader>, existing: seq<Row>, previousError: Option<string>, r: Reader) {
    r.id in SeedsFor(readers, existing == [], previousError) || StatusOf(existing, r.id) == Some(Synced)
  }

  /** Splits the readers, in order, into those to sync and those taken as synced. */
  method PlanPersonReaderSync(readers: seq<Reader>, existing: seq<Row>, previousError: Option<string>)
    returns (toSync: seq<Reader>, skipped: seq<Reader>, seeded: set<string>)
    ensures seeded == SeedsFor(readers, existing == [], previousError)
    ensures skipped == Filter(readers, r => TakenAsSynced(readers, existing, previousError, r))
    ensures toSync == Filter(readers, r => !TakenAsSynced(readers, existing, previousError, r))
    ensures multiset(skipped) + multiset(toSync) == multiset(readers)
  {
    var byReader: map<string, Option<Status>> := map[];
    for i := 0 to |existing|
      invariant forall id :: (if id in byReader then byReader[id] else None) == StatusOf(existing[..i], id)
    {
      assert existing[..i + 1][..i] == existing[..i];
      byReader := byReader[existing[i].readerId := existing[i].status];
    }
    assert existing[..|existing|] == existing;
    seeded := SeedsFor(readers, existing == [], previousError);
    byReader := byReader + map id | id in seeded :: Some(Synced);
    toSync, skipped := [], [];
    for i := 0 to |readers|
      invariant skipped == Filter(readers[..i], r => TakenAsSynced(readers, existing, previousError, r))
      invariant toSync == Filter(readers[..i], r => !TakenAsSynced(readers, existing, previousError, r))
    {
      assert readers[..i + 1][..i] == readers[..i];
      if readers[i].id in byReader && byReader[readers[i].id] == Some(Synced) {
        skipped := skipped + [readers[i]];
      } else {
        toSync := toSync + [readers[i]];
      }
    }
    assert readers[..|readers|] == readers;
    FilterSplits(readers, r => TakenAsSynced(readers, existing, previousError, r),
                 r => !TakenAsSynced(readers, existing, previousError, r));
  }

  // ---------- what was printed reads back ----------

  /** A failure as the sync records it. */
  datatype Failure = Failure(name: string, reason: string)

  function FailureText(f: Failure): string {
    f.name + ": " + f.reason
  }

  /** A reader name the message format can carry. */
  predicate PlainName(name: string) {
    name != "" && !Includes(name, ": ")
  }

  function FailureTexts(failures: seq<Failure>): seq<string> {
    seq(|failures|, i requires 0 <= i < |failures| => FailureText(failures[i]))
  }

  lemma NoneBefore(name: string, tail: string, i: nat)
    requires !Occurs(name, ": ") && tail != [] && tail[0] == ':' && i < |name|
    ensures !MatchAt(name + tail, ": ", i)
  {
    var text := name + tail;
    if i + 2 <= |name| {
      MatchInPrefix(name, tail, ": ", i);
    } else if i + 2 <= |text| {
      assert text[i..i + 2][1] == text[i + 1] == ':';
    }
  }

  lemma SplitRoundTrip(f: Failure)
    requires PlainName(f.name)
    ensures SplitReaderFailure(FailureText(f)) == (f.name, f.reason)
  {
    hide MatchAt, Occurs, IndexOf;
    var text, tail, n := FailureText(f), ": " + f.reason, |f.name|;
    assert text == f.name + tail;
    forall i: nat | i < n ensures !MatchAt(text, ": ", i) {
      NoneBefore(f.name, tail, i);
    }
    ColonAt(f.name, f.reason);
    FirstMatch(text, ": ", n);
  }

  lemma ColonAt(name: string, reason: string)
    ensures var text := name + ": " + reason;
            MatchAt(text, ": ", |name|) && text[..|name|] == name && text[|name| + 2..] == reason
  {
  }

  /** Whatever format is chosen, the detail names every reader that failed. */
  lemma DetailNamesEveryFailure(failures: seq<Failure>, k: nat)
    requires k < |failures| && forall f :: f in failures ==> PlainName(f.name)
    ensures Occurs(FormatFailureDetail(FailureTexts(failures)), failures[k].name)
  {
    hide Occurs, MatchAt, Join, FailureText, SplitReaderFailure;
    var texts := FailureTexts(failures);
    if |texts| > 1 && OneReason(texts) {
      SplitRoundTrip(failures[k]);
      assert FailureNames(texts)[k] == failures[k].name;
      JoinContains(FailureNames(texts), ", ", k);
      OccursInside(SplitReaderFailure(texts[0]).1 + " (", Join(FailureNames(texts), ", "), ")", failures[k].name);
    } else {
      NameInText(failures[k]);
      JoinContains(texts, " ", k);
      OccursTransitive(Join(texts, " "), texts[k], failures[k].name);
    }
  }

  lemma NameInText(f: Failure)
    ensures Occurs(FailureText(f), f.name)
  {
    assert MatchAt(f.name, f.name, 0);
    OccursInside("", f.name, ": " + f.reason, f.name);
    assert "" + f.name + (": " + f.reason) == FailureText(f);
  }

  lemma OccursTransitive(a: string, b: string, c: string)
    requires Occurs(a, b) && Occurs(b, c)
    ensures Occurs(a, c)
  {
    var i :| MatchAt(a, b, i);
    OccursInside(a[..i], b, a[i + |b|..], c);
    assert a[..i] + b + a[i + |b|..] == a;
  }

  /** The message kept about failures names every reader that failed. */
  lemma MessageNamesEveryFailure(failures: seq<Failure>, total: nat, k: nat)
    requires k < |failures| && forall f :: f in failures ==> PlainName(f.name)
    ensures var error := AggregateReaderSyncOutcome(FailureTexts(failures), total).error;
            error.Some? && Occurs(error.value, failures[k].name)
  {
    hide FormatFailureDetail, Occurs, MatchAt;
    DetailNamesEveryFailure(failures, k);
    var texts := FailureTexts(failures);
    var detail, name := FormatFailureDetail(texts), failures[k].name;
    var full := "Não foi possível sincronizar com " + Digits(|texts|) + " de " + Digits(total) + " leitor(es). ";
    var partial := "Sincronizado parcialmente (" + Remaining(total, |texts|) + " de " + Digits(total) + " leitor(es)). ";
    OccursInside(full, detail, "", name);
    OccursInside(partial, detail, "", name);
    assert full + detail + "" == full + detail;
    assert partial + detail + "" == partial + detail;
  }

  /**
   * Printing then reading back is safe: a reader that failed is never taken as synced on the strength of the
   * message its failure is part of.
   */
  lemma FailedReaderIsNotSeeded(failures: seq<Failure>, total: nat, k: nat, readers: seq<Reader>, r: Reader)
    requires k < |failures| && forall f :: f in failures ==> PlainName(f.name)
    requires r in readers && r.name == failures[k].name
    ensures var error := AggregateReaderSyncOutcome(FailureTexts(failures), total).error;
            !TakenAsSynced(readers, [], error, r)
  {
    hide FailureTexts, AggregateReaderSyncOutcome;
    MessageNamesEveryFailure(failures, total, k);
    var error := AggregateReaderSyncOutcome(FailureTexts(failures), total).error.value;
    assert Cites(error, r);
    assert r.id in CitedIds(error, readers);
  }

  /** The message of a partial sync is recognised as such. */
  lemma PartialIsRecognised(failures: seq<Failure>, total: nat)
    requires failures != [] && |failures| != total
    ensures var error := AggregateReaderSyncOutcome(FailureTexts(failures), total).error;
            error.Some? && error.value != "" && IsPartialSyncError(error.value)
  {
    var texts := FailureTexts(failures);
    var tail := Remaining(total, |texts|) + " de " + Digits(total) + " leitor(es)). " + FormatFailureDetail(texts);
    var error := AggregateReaderSyncOutcome(texts, total).error.value;
    hide FormatFailureDetail, FailureTexts;
    assert error == "Sincronizado parcialmente (" + tail;
    BeginsPartial(tail);
  }

  /** The message of a sync that failed everywhere is not taken for a partial one, unless a failure's text says so. */
  lemma TotalIsNotPartial(failures: seq<string>)
    requires |failures| > 1 && !Occurs(ToLower(FormatFailureDetail(failures)), "parcialmente")
    ensures var error := AggregateReaderSyncOutcome(failures, |failures|).error;
            error.Some? && !IsPartialSyncError(error.value)
  {
    hide FormatFailureDetail, Digits;
    var count, detail := Digits(|failures|), FormatFailureDetail(failures);
    var start := "Não foi possível sincronizar com " + count + " de " + count + " leitor(es). ";
    var error := AggregateReaderSyncOutcome(failures, |failures|).error.value;
    assert error == start + detail;
    StartOfTotal(count);
    NoneInStart(start, detail);
  }

  lemma StartOfTotal(count: string)
    requires AllDigits(count)
    ensures var start := "Não foi possível sincronizar com " + count + " de " + count + " leitor(es). ";
            forall i :: 0 <= i < |start| && ToLower(start)[i] == 'p' ==> i + 1 < |start| && ToLower(start)[i + 1] != 'a'
  {
    var a := "Não foi possível sincronizar com ";
    var rest := count + " de " + count + " leitor(es). ";
    var start := "Não foi possível sincronizar com " + count + " de " + count + " leitor(es). ";
    assert start == a + rest;
    OneP(a);
    NoP(count, rest);
    forall i | 0 <= i < |start| && ToLower(start)[i] == 'p' ensures i + 1 < |start| && ToLower(start)[i + 1] != 'a' {
      assert start[i] in {'p', 'P'};
      assert i < |a| && start[i] == a[i] && start[9] == a[9];
    }
  }

  lemma OneP(a: string)
    requires a == "Não foi possível sincronizar com "
    ensures |a| > 9 && a[9] == 'o' && forall i :: 0 <= i < |a| && a[i] in {'p', 'P'} ==> i == 8
  {
  }

  lemma NoP(count: string, rest: string)
    requires AllDigits(count) && rest == count + " de " + count + " leitor(es). "
    ensures forall i :: 0 <= i < |rest| ==> rest[i] !in {'p', 'P'}
  {
  }

  lemma NoneInStart(start: string, detail: string)
    requires forall i :: 0 <= i < |start| && ToLower(start)[i] == 'p' ==> i + 1 < |start| && ToLower(start)[i + 1] != 'a'
    requires !Occurs(ToLower(detail), "parcialmente")
    ensures !IsPartialSyncError(start + detail)
  {
    var lower, word := ToLower(start + detail), "parcialmente";
    assert lower[|start|..] == ToLower(detail);
    forall i ensures !MatchAt(lower, word, i) {
      if i >= |start| {
        MatchInSuffix(lower, word, |start|, i - |start|);
      } else if 0 <= i && i + |word| <= |lower| {
        assert lower[i..i + |word|][0] == lower[i] == ToLower(start)[i];
        assert lower[i..i + |word|][1] == lower[i + 1];
        assert word[0] == 'p' && word[1] == 'a';
        if lower[i] == 'p' {
          assert lower[i + 1] == ToLower(start)[i + 1];
        }
      }
    }
  }

  lemma BeginsPartial(tail: string)
    ensures IsPartialSyncError("Sincronizado parcialmente (" + tail)
  {
    var lower := ToLower("Sincronizado parcialmente (" + tail);
    assert lower[13..25] == "parcialmente";
    assert MatchAt(lower, "parcialmente", 13);
  }
}
