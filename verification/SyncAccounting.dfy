/** A person's sync over the readers of a client: what is attempted, what is recorded, and what is counted. */
module SyncAccounting {
  import opened Ages
  import opened Calendar
  import opened DateBounds
  import opened Lists
  import opened NumberText
  import opened Search
  import opened SyncOutcome
  import opened Wrappers

  /** What is known about the birth date at an instant. */
  datatype Birth = Missing | Invalid | Known(born: Civil, now: int)

  datatype Reason = Unrestricted | Allowed | MissingBirthDate | InvalidBirthDate | FutureBirthDate | BelowMinimumAge

  function EvaluateAge(r: Reader, birth: Birth): Reason {
    if r.minimumAge.None? then Unrestricted
    else match birth
      case Missing => MissingBirthDate
      case Invalid => InvalidBirthDate
      case Known(born, now) =>
        var today := CivilFromDay(ZoneDay(r.offset, now));
        var age := CalculateAgeOnDate(born, today);
        if !(1000 <= today.year <= 9999) || age < 0 then FutureBirthDate
        else if age < r.minimumAge.value then BelowMinimumAge
        else Allowed
  }

  /** A reader with a minimum age opens on the birthday, at midnight where the reader is, and not before. */
  lemma ReaderOpensOnBirthday(r: Reader, born: Civil, now: int)
    requires r.minimumAge.Some? && ValidDate(born) && 1000 <= CivilFromDay(ZoneDay(r.offset, now)).year <= 9999
    ensures var today := ZoneDay(r.offset, now);
            EvaluateAge(r, Known(born, now))
            == if today < DayOf(born) then FutureBirthDate
               else if today < BirthdayOf(born, r.minimumAge.value) then BelowMinimumAge
               else Allowed
  {
    hide CalculateAgeOnDate, BirthdayOf, CivilFromDay, DayOf, ValidDate, ZoneDay;
    var today := CivilFromDay(ZoneDay(r.offset, now));
    DayRoundTrip(ZoneDay(r.offset, now));
    ReachedOnBirthday(born, today, r.minimumAge.value);
    ReachedOnBirthday(born, today, 0);
    BornOnBirthday(born);
  }

  lemma BornOnBirthday(born: Civil)
    ensures BirthdayOf(born, 0) == DayOf(born)
  {
  }

  /** Who has no usable date is let in only where no age is asked for. */
  lemma UnknownAge(r: Reader, birth: Birth)
    requires birth.Missing? || birth.Invalid? || r.minimumAge.None?
    ensures EvaluateAge(r, birth) == if r.minimumAge.None? then Unrestricted else if birth.Missing? then MissingBirthDate else InvalidBirthDate
  {
  }

  predicate IsAllowed(r: Reader, birth: Birth) {
    EvaluateAge(r, birth) in {Unrestricted, Allowed}
  }

  /** Answers of the devices during one sync: an error message, or none. */
  datatype Answers = Answers(removal: string -> Option<string>, write: string -> Option<string>, image: Brand -> Option<string>)

  type Rows = map<string, Status>

  predicate Distinct(rs: seq<Reader>) {
    forall i, j :: 0 <= i < j < |rs| ==> rs[i].id != rs[j].id
  }

  function Ids(rs: seq<Reader>): set<string> {
    set r | r in rs :: r.id
  }

  predicate Blank(id: string) {
    forall c :: c in id ==> c in " \t\r\n"
  }

  lemma {:induction false} FilterDistinct(xs: seq<Reader>, keep: Reader -> bool)
    requires Distinct(xs)
    ensures Distinct(Filter(xs, keep))
  {
    if xs != [] {
      var front, last := xs[..|xs| - 1], xs[|xs| - 1];
      FilterDistinct(front, keep);
      forall x | x in Filter(front, keep) ensures x.id != last.id {
        FilterMember(front, keep, x);
      }
    }
  }

  lemma FilterRearranged(xs: seq<Reader>, ys: seq<Reader>, keep: Reader -> bool)
    requires multiset(xs) == multiset(ys)
    ensures multiset(Filter(xs, keep)) == multiset(Filter(ys, keep))
    ensures |Filter(xs, keep)| == |Filter(ys, keep)|
  {
    forall x ensures multiset(Filter(xs, keep))[x] == multiset(Filter(ys, keep))[x] {
      FilterCounts(xs, keep, x);
      FilterCounts(ys, keep, x);
    }
    assert multiset(Filter(xs, keep)) == multiset(Filter(ys, keep));
    assert |multiset(Filter(xs, keep))| == |Filter(xs, keep)|;
  }

  // ---------- who is concerned ----------

  /** The readers a request names; all of them when it names none. */
  function Scoped(rs: seq<Reader>, allowIds: seq<string>): seq<Reader> {
    var ids := Filter(allowIds, id => !Blank(id));
    if ids == [] then rs else Filter(rs, (r: Reader) => r.id in ids)
  }

  lemma ScopedDistinct(rs: seq<Reader>, allowIds: seq<string>)
    requires Distinct(rs)
    ensures Distinct(Scoped(rs, allowIds))
  {
    var ids := Filter(allowIds, id => !Blank(id));
    FilterDistinct(rs, (r: Reader) => r.id in ids);
  }

  /** A sync of one person: the readers that can be reached, the age policies, and the devices' answers. */
  datatype Request = Request(
    all: seq<Reader>, policies: seq<Reader>, allowIds: seq<string>, birth: Birth, answers: Answers,
    reset: bool, previousError: Option<string>)
  {
    function InScope(): seq<Reader> {
      Scoped(all, allowIds)
    }

    function AllowedReaders(): seq<Reader> {
      Filter(InScope(), r => IsAllowed(r, birth))
    }

    function Restricted(): seq<Reader> {
      Filter(InScope(), r => !IsAllowed(r, birth))
    }

    /** Active readers that cannot be reached and must not have the person. */
    function Unavailable(): seq<Reader> {
      Filter(Scoped(policies, allowIds), (r: Reader) => r.id !in Ids(InScope()) && !IsAllowed(r, birth))
    }

    /** Restrictions that have to be reported. */
    function Issues(): seq<Reader> {
      Filter(Restricted(), r => UnusableDate(r, birth) || RemovalFails(r, answers))
    }

    /** Rows after the restrictions were dealt with. */
    function PolicyRows(rows: Rows): Rows {
      rows - (if reset then Ids(AllowedReaders()) else {}) - Ids(Restricted()) + Failed(Issues()) + Failed(Unavailable())
    }

    /** A reader the plan does not try again. */
    predicate Skips(rows: Rows, id: string) {
      id in SeedsFor(AllowedReaders(), rows == map[], previousError) || (id in rows && rows[id] == Synced)
    }

    function ToSync(rows: Rows): seq<Reader> {
      Filter(AllowedReaders(), (r: Reader) => !Skips(rows, r.id))
    }

    /** Rows once the seeds are recorded. */
    function SeededRows(rows: Rows): Rows {
      rows + Marked(SeedsFor(AllowedReaders(), rows == map[], previousError), Synced)
    }

    /** Rows after the writes. */
    function WrittenRows(rows: Rows): Rows {
      rows + map id | id in Ids(AllowedReaders()) ::
        if Skips(rows, id) || answers.write(id).None? then Synced else SyncFailed
    }

    /** The picture cannot be prepared for a brand that is still to be written. */
    predicate NoPicture(rows: Rows) {
      exists r :: r in ToSync(rows) && answers.image(r.brand).Some?
    }

    /** The readers a sync is about. */
    function Concerned(): seq<Reader> {
      AllowedReaders() + Restricted() + Unavailable()
    }

    /** No reader concerned by the sync is left with a failure. */
    predicate NothingFailed(rows: Rows) {
      forall r :: r in Concerned() ==> r.id !in rows || rows[r.id] == Synced
    }
  }

  predicate UnusableDate(r: Reader, birth: Birth) {
    EvaluateAge(r, birth) != BelowMinimumAge
  }

  predicate RemovalFails(r: Reader, answers: Answers) {
    answers.removal(r.id).Some?
  }

  // ---------- what is recorded ----------

  function Marked(ids: set<string>, status: Status): Rows {
    map id | id in ids :: status
  }

  function Failed(rs: seq<Reader>): Rows {
    Marked(Ids(rs), SyncFailed)
  }

  function FailedRemovals(rs: seq<Reader>, answers: Answers): seq<Reader> {
    Filter(rs, r => RemovalFails(r, answers))
  }

  function RemovalText(r: Reader, answers: Answers): string {
    FailureText(RemovalFailure(r, answers))
  }

  function RemovalFailure(r: Reader, answers: Answers): Failure {
    Failure(r.name, ReasonOf(answers.removal(r.id)))
  }

  function WriteFailure(r: Reader, answers: Answers): Failure {
    Failure(r.name, ReasonOf(answers.write(r.id)))
  }

  function ReasonOf(answer: Option<string>): string {
    if answer.None? then "" else answer.value
  }

  /** One failure for each of some readers. */
  function FailuresOf(rs: seq<Reader>, failure: Reader -> Failure): seq<Failure> {
    seq(|rs|, i requires 0 <= i < |rs| => failure(rs[i]))
  }

  function RemovalTexts(rs: seq<Reader>, answers: Answers): seq<string> {
    seq(|rs|, i requires 0 <= i < |rs| => RemovalText(rs[i], answers))
  }

  /** Rows after some removals have ended. */
  function RemovedRows(rows: Rows, done: seq<Reader>, answers: Answers): Rows {
    rows - Ids(done) + Failed(FailedRemovals(done, answers))
  }

  lemma NothingRemoved(rows: Rows, answers: Answers)
    ensures RemovedRows(rows, [], answers) == rows && FailedRemovals([], answers) == []
  {
  }

  lemma FailedRemovalsAppend(done: seq<Reader>, r: Reader, answers: Answers)
    ensures FailedRemovals(done + [r], answers)
         == FailedRemovals(done, answers) + if RemovalFails(r, answers) then [r] else []
    ensures Ids(FailedRemovals(done, answers)) <= Ids(done)
  {
    var keep := (x: Reader) => RemovalFails(x, answers);
    assert (done + [r])[..|done|] == done;
    forall x | x in FailedRemovals(done, answers) ensures x in done {
      FilterMember(done, keep, x);
    }
  }

  lemma OneMoreId(rs: seq<Reader>, r: Reader)
    ensures Ids(rs + [r]) == Ids(rs) + {r.id}
  {
  }

  lemma FailedOneMore(rows: Rows, rs: seq<Reader>, r: Reader)
    ensures rows + Failed(rs + [r]) == (rows + Failed(rs))[r.id := SyncFailed]
  {
  }

  lemma NoneFailed(rows: Rows)
    ensures rows + Failed([]) == rows
  {
  }

  lemma RemovedOneMore(rows: Rows, done: seq<Reader>, r: Reader, answers: Answers)
    requires r.id !in Ids(done)
    ensures RemovedRows(rows, done + [r], answers)
         == if RemovalFails(r, answers) then RemovedRows(rows, done, answers)[r.id := SyncFailed]
            else RemovedRows(rows, done, answers) - {r.id}
  {
    hide FailedRemovals, RemovalFails, Ids;
    FailedRemovalsAppend(done, r, answers);
    var was := FailedRemovals(done, answers);
    OneMoreId(done, r);
    OneMoreId(was, r);
    assert was + [] == was;
  }

  lemma OneMoreText(done: seq<Reader>, r: Reader, answers: Answers)
    ensures RemovalTexts(FailedRemovals(done + [r], answers), answers)
         == RemovalTexts(FailedRemovals(done, answers), answers)
            + if RemovalFails(r, answers) then [RemovalText(r, answers)] else []
  {
  }

  function FailedWrites(rs: seq<Reader>, answers: Answers): seq<Reader> {
    Filter(rs, (r: Reader) => answers.write(r.id).Some?)
  }

  /** What the writes leave in the rows. */
  function Results(rs: seq<Reader>, answers: Answers): Rows {
    map id | id in Ids(rs) :: if answers.write(id).None? then Synced else SyncFailed
  }

  lemma NothingWritten(answers: Answers)
    ensures FailedWrites([], answers) == [] && Results([], answers) == map[]
  {
  }

  lemma WrittenOneMore(done: seq<Reader>, r: Reader, answers: Answers)
    ensures FailedWrites(done + [r], answers) == FailedWrites(done, answers) + if answers.write(r.id).Some? then [r] else []
    ensures Results(done + [r], answers)
         == Results(done, answers)[r.id := if answers.write(r.id).None? then Synced else SyncFailed]
  {
  }

  function IdList(rs: seq<Reader>): seq<string> {
    seq(|rs|, i requires 0 <= i < |rs| => rs[i].id)
  }

  lemma PartOfAll(q: Request, part: seq<Reader>, keep: Reader -> bool) returns (both: Reader -> bool)
    requires part == Filter(q.InScope(), keep)
    ensures part == Filter(q.all, both)
  {
    var ids := Filter(q.allowIds, id => !Blank(id));
    var named := (r: Reader) => (ids == [] || r.id in ids);
    both := (r: Reader) => named(r) && keep(r);
    if ids == [] {
      FilterAll(q.all, named);
    } else {
      FilterSame(q.all, named, (r: Reader) => r.id in ids);
    }
    FilterTwice(q.all, named, keep, both);
  }

  lemma IdListHas(rs: seq<Reader>, id: string)
    ensures id in IdList(rs) <==> exists r :: r in rs && r.id == id
  {
    if id in IdList(rs) {
      var i :| 0 <= i < |rs| && rs[i].id == id;
      assert rs[i] in rs;
    } else {
      forall r | r in rs ensures r.id != id {
        var i :| 0 <= i < |rs| && rs[i] == r;
        assert IdList(rs)[i] == r.id;
      }
    }
  }

  /** Naming the readers of a part of the scope selects just that part. */
  lemma ScopeOfPart(q: Request, part: seq<Reader>, keep: Reader -> bool)
    requires Distinct(q.all) && (forall r :: r in q.all ==> !Blank(r.id))
    requires part == Filter(q.InScope(), keep) && part != []
    ensures Scoped(q.all, IdList(part)) == part
  {
    var both := PartOfAll(q, part, keep);
    var wanted := IdList(part);
    forall r ensures r in part <==> r in q.all && both(r) {
      FilterMember(q.all, both, r);
    }
    hide Filter, IdList, Blank, Distinct;
    forall id | id in wanted ensures !Blank(id) {
      IdListHas(part, id);
    }
    FilterAll(wanted, id => !Blank(id));
    forall r | r in q.all ensures both(r) == (r.id in wanted) {
      IdListHas(part, r.id);
      if r.id in wanted {
        var x :| x in part && x.id == r.id;
        SameId(q.all, x, r);
      }
    }
    FilterSame(q.all, both, (r: Reader) => r.id in wanted);
    IdListHas(part, part[0].id);
    assert part[0] in part;
  }

  lemma SameId(rs: seq<Reader>, a: Reader, b: Reader)
    requires Distinct(rs) && a in rs && b in rs && a.id == b.id
    ensures a == b
  {
  }

  /** A request asks for a reader: it names it, or it names none. */
  predicate Asks(q: Request, r: Reader) {
    (forall id :: id in q.allowIds ==> Blank(id)) || (r.id in q.allowIds && !Blank(r.id))
  }

  lemma ScopedAre(q: Request, rs: seq<Reader>, r: Reader)
    ensures r in Scoped(rs, q.allowIds) <==> r in rs && Asks(q, r)
  {
    hide Blank;
    var ids := Filter(q.allowIds, id => !Blank(id));
    forall id ensures id in ids <==> id in q.allowIds && !Blank(id) {
      FilterMember(q.allowIds, x => !Blank(x), id);
    }
    HasElement(ids);
    FilterMember(rs, (x: Reader) => x.id in ids, r);
  }

  /** Who is where: the lists of a request, reader by reader. */
  lemma ListsAre(q: Request, r: Reader)
    ensures r in q.InScope() <==> r in q.all && Asks(q, r)
    ensures r in q.AllowedReaders() <==> r in q.all && Asks(q, r) && IsAllowed(r, q.birth)
    ensures r in q.Restricted() <==> r in q.all && Asks(q, r) && !IsAllowed(r, q.birth)
    ensures r in q.Issues() <==>
              && r in q.all && Asks(q, r) && !IsAllowed(r, q.birth)
              && (EvaluateAge(r, q.birth) != BelowMinimumAge || q.answers.removal(r.id).Some?)
    ensures r in q.Unavailable() <==> r in q.policies && Asks(q, r) && !IsAllowed(r, q.birth) && r.id !in Ids(q.InScope())
  {
    hide Scoped, Asks, IsAllowed, EvaluateAge, Ids, Filter;
    ScopedAre(q, q.all, r);
    ScopedAre(q, q.policies, r);
    FilterMember(q.InScope(), x => IsAllowed(x, q.birth), r);
    FilterMember(q.InScope(), x => !IsAllowed(x, q.birth), r);
    FilterMember(q.Restricted(), x => UnusableDate(x, q.birth) || RemovalFails(x, q.answers), r);
    FilterMember(Scoped(q.policies, q.allowIds), (x: Reader) => x.id !in Ids(q.InScope()) && !IsAllowed(x, q.birth), r);
  }

  /**
   * What a sync leaves in the rows, reader by reader: the result of the write for a reader that may have the
   * person, a failure for one that must not have it exactly when the birth date is unusable or the removal
   * failed, and a failure for one that must not have it and cannot be reached.
   */
  lemma RowsSay(q: Request, rows: Rows, r: Reader)
    requires WellFormed(q) && Asks(q, r)
    ensures var middle := q.PolicyRows(rows);
            var final := q.WrittenRows(middle);
            && (r in q.all && IsAllowed(r, q.birth) ==>
                  r.id in final && final[r.id] == if q.Skips(middle, r.id) || q.answers.write(r.id).None? then Synced else SyncFailed)
            && (r in q.all && !IsAllowed(r, q.birth) ==>
                  if EvaluateAge(r, q.birth) != BelowMinimumAge || q.answers.removal(r.id).Some?
                  then r.id in final && final[r.id] == SyncFailed
                  else r.id !in final)
            && (r in q.policies && !IsAllowed(r, q.birth) && r.id !in Ids(q.InScope()) ==>
                  r.id in final && final[r.id] == SyncFailed)
  {
    hide IsAllowed, EvaluateAge, Asks, Request.Skips, Request.AllowedReaders, Request.Restricted, Request.Issues, Request.Unavailable, Request.InScope;
    ListsAre(q, r);
    IdsTell(q, r);
  }

  /** Each identifier stands for one reader of a list only. */
  lemma IdsTell(q: Request, r: Reader)
    requires WellFormed(q)
    ensures r in q.all ==>
              && (r.id in Ids(q.AllowedReaders()) <==> r in q.AllowedReaders())
              && (r.id in Ids(q.Restricted()) <==> r in q.Restricted())
              && (r.id in Ids(q.Issues()) <==> r in q.Issues())
              && (Asks(q, r) ==> r.id !in Ids(q.Unavailable()))
    ensures r in q.Unavailable() ==> r.id in Ids(q.Unavailable()) && r.id !in Ids(q.AllowedReaders()) && r.id !in Ids(q.Restricted())
  {
    hide IsAllowed, EvaluateAge, Request.AllowedReaders, Request.Restricted, Request.Issues, Request.Unavailable, Request.InScope, Asks;
    forall x: Reader ensures
        && (x in q.AllowedReaders() || x in q.Restricted() || x in q.Issues() ==> x in q.all && x in q.InScope())
        && (x in q.Unavailable() ==> x.id !in Ids(q.InScope()))
        && (x in q.all && Asks(q, x) ==> x in q.InScope())
    {
      ListsAre(q, x);
    }
    if r in q.all {
      forall x | x in q.all && x.id == r.id ensures x == r {
        SameId(q.all, x, r);
      }
    }
  }

  /** Identifiers tell the readers apart, and none is blank. */
  predicate WellFormed(q: Request) {
    Distinct(q.all) && Distinct(q.policies) && forall r :: r in q.all ==> !Blank(r.id)
  }

  /** The identifiers noted while removing are those of the readers whose removal fails. */
  predicate Notes(failedIds: seq<string>, rs: seq<Reader>, answers: Answers) {
    forall r :: r in rs ==> (r.id in failedIds <==> RemovalFails(r, answers))
  }

  lemma IssuesCounted(q: Request, completed: seq<Reader>, failedIds: seq<string>)
    requires multiset(completed) == multiset(q.Restricted()) && Notes(failedIds, q.Restricted(), q.answers)
    ensures |FailedRemovals(completed, q.answers)| + |OtherIssues(q, failedIds)| == |q.Issues()|
    ensures |Filter(q.Restricted(), r => UnusableDate(r, q.birth))|
            + |Filter(q.Restricted(), (r: Reader) => !UnusableDate(r, q.birth) && r.id in failedIds)| == |q.Issues()|
  {
    var restricted := q.Restricted();
    FilterRearranged(completed, restricted, r => RemovalFails(r, q.answers));
    CountedOnce(restricted, r => UnusableDate(r, q.birth), r => RemovalFails(r, q.answers),
                (r: Reader) => r.id !in failedIds, (r: Reader) => !UnusableDate(r, q.birth) && r.id in failedIds,
                r => UnusableDate(r, q.birth) || RemovalFails(r, q.answers));
  }

  lemma NothingNoted(rs: seq<Reader>, answers: Answers)
    requires rs == []
    ensures Notes([], rs, answers)
  {
  }

  lemma NotesMoved(failedIds: seq<string>, xs: seq<Reader>, ys: seq<Reader>, answers: Answers)
    requires multiset(xs) == multiset(ys) && Notes(failedIds, xs, answers)
    ensures Notes(failedIds, ys, answers)
  {
    forall r | r in ys ensures r in xs {
      assert r in multiset(ys);
    }
  }

  /** Readers with an unusable birth date whose removal went through. */
  function OtherIssues(q: Request, failedIds: seq<string>): seq<Reader> {
    Filter(Filter(q.Restricted(), r => UnusableDate(r, q.birth)), (r: Reader) => r.id !in failedIds)
  }

  lemma IssueMembers(q: Request, completed: seq<Reader>, failedIds: seq<string>)
    requires multiset(completed) == multiset(q.Restricted()) && Notes(failedIds, q.Restricted(), q.answers)
    ensures Ids(q.Issues()) == Ids(FailedRemovals(completed, q.answers)) + Ids(OtherIssues(q, failedIds))
  {
    var restricted := q.Restricted();
    var invalid := Filter(restricted, r => UnusableDate(r, q.birth));
    forall r ensures r in q.Issues() <==> r in FailedRemovals(completed, q.answers) || r in OtherIssues(q, failedIds) {
      assert r in completed <==> r in multiset(completed);
      assert r in restricted <==> r in multiset(restricted);
      FilterMember(completed, x => RemovalFails(x, q.answers), r);
      FilterMember(restricted, x => UnusableDate(x, q.birth), r);
      FilterMember(invalid, (x: Reader) => x.id !in failedIds, r);
      FilterMember(restricted, x => UnusableDate(x, q.birth) || RemovalFails(x, q.answers), r);
    }
    hide *;
    UnitedIds(q.Issues(), FailedRemovals(completed, q.answers), OtherIssues(q, failedIds));
  }

  lemma PolicyRowsReached(q: Request, rows: Rows, completed: seq<Reader>, failedIds: seq<string>)
    requires multiset(completed) == multiset(q.Restricted()) && Notes(failedIds, q.Restricted(), q.answers)
    ensures var reset := if q.reset then rows - Ids(q.AllowedReaders()) else rows;
            q.PolicyRows(rows)
            == RemovedRows(reset, completed, q.answers) + Failed(OtherIssues(q, failedIds)) + Failed(q.Unavailable())
  {
    hide FailedRemovals, OtherIssues, Ids, Marked, Filter, Notes, Scoped;
    SameMembers(completed, q.Restricted());
    IssueMembers(q, completed, failedIds);
    MarkedMore(rows, if q.reset then Ids(q.AllowedReaders()) else {}, Ids(q.Restricted()),
               Ids(FailedRemovals(completed, q.answers)), Ids(OtherIssues(q, failedIds)));
    assert rows - {} == rows;
  }

  /** The failures reported for restrictions, with the readers they name. */
  lemma PolicyCauses(q: Request, completed: seq<Reader>, failedIds: seq<string>) returns (causes: seq<Failure>)
    requires multiset(completed) == multiset(q.Restricted())
    ensures FailureTexts(causes)
         == RemovalTexts(FailedRemovals(completed, q.answers), q.answers)
            + FailureTexts(FailuresOf(OtherIssues(q, failedIds), r => RestrictionFailure(r, q.birth)))
            + FailureTexts(FailuresOf(q.Unavailable(), r => UnavailableFailure(r)))
    ensures NamesReaders(causes, q.Concerned())
  {
    hide FailedRemovals, OtherIssues, Request.Unavailable, Request.Concerned, RestrictionFailure, UnavailableFailure;
    hide FailureText, NamesReaders, Request.Restricted;
    var removed, others := FailedRemovals(completed, q.answers), OtherIssues(q, failedIds);
    var a := FailuresOf(removed, r => RemovalFailure(r, q.answers));
    var b := FailuresOf(others, r => RestrictionFailure(r, q.birth));
    var c := FailuresOf(q.Unavailable(), r => UnavailableFailure(r));
    causes := a + b + c;
    TextsAppend(a + b, c);
    TextsAppend(a, b);
    assert RemovalTexts(removed, q.answers) == FailureTexts(a);
    FailuresKeepNames(q);
    forall r ensures r in removed || r in others || r in q.Unavailable() ==> r in q.Concerned() {
      CausesConcern(q, completed, failedIds, r);
    }
    FailuresName(removed, r => RemovalFailure(r, q.answers), q.Concerned());
    FailuresName(others, r => RestrictionFailure(r, q.birth), q.Concerned());
    FailuresName(q.Unavailable(), r => UnavailableFailure(r), q.Concerned());
    NamesAppend(a, b, q.Concerned());
    NamesAppend(a + b, c, q.Concerned());
  }

  lemma NamesAppend(a: seq<Failure>, b: seq<Failure>, rs: seq<Reader>)
    requires NamesReaders(a, rs) && NamesReaders(b, rs)
    ensures NamesReaders(a + b, rs)
  {
  }

  lemma FailuresKeepNames(q: Request)
    ensures forall r :: RemovalFailure(r, q.answers).name == r.name
    ensures forall r :: RestrictionFailure(r, q.birth).name == r.name
    ensures forall r :: UnavailableFailure(r).name == r.name
  {
  }

  lemma CausesConcern(q: Request, completed: seq<Reader>, failedIds: seq<string>, r: Reader)
    requires multiset(completed) == multiset(q.Restricted())
    ensures r in FailedRemovals(completed, q.answers) || r in OtherIssues(q, failedIds) || r in q.Unavailable() ==>
              r in q.Concerned()
  {
    var restricted := q.Restricted();
    assert r in completed <==> r in multiset(completed);
    assert r in restricted <==> r in multiset(restricted);
    FilterMember(completed, x => RemovalFails(x, q.answers), r);
    FilterMember(restricted, x => UnusableDate(x, q.birth), r);
    FilterMember(Filter(restricted, x => UnusableDate(x, q.birth)), (x: Reader) => x.id !in failedIds, r);
    hide Filter, Request.Restricted, Request.Unavailable, Request.AllowedReaders;
  }

  lemma SameMembers(xs: seq<Reader>, ys: seq<Reader>)
    requires multiset(xs) == multiset(ys)
    ensures Ids(xs) == Ids(ys)
  {
    forall r: Reader ensures r in xs <==> r in ys {
      assert r in xs <==> r in multiset(xs);
      assert r in ys <==> r in multiset(ys);
    }
  }

  lemma UnitedIds(all: seq<Reader>, xs: seq<Reader>, ys: seq<Reader>)
    requires forall r :: r in all <==> r in xs || r in ys
    ensures Ids(all) == Ids(xs) + Ids(ys)
  {
  }

  lemma MarkedMore(rows: Rows, reset: set<string>, gone: set<string>, a: set<string>, b: set<string>)
    ensures rows - reset - gone + Marked(a + b, SyncFailed)
         == (rows - reset) - gone + Marked(a, SyncFailed) + Marked(b, SyncFailed)
  {
  }

  /** Reported for a reader whose restriction is due to the birth date. */
  function RestrictionFailure(r: Reader, birth: Birth): Failure {
    Failure(r.name,
      match EvaluateAge(r, birth)
      case InvalidBirthDate => "data de nascimento inválida."
      case FutureBirthDate => "data de nascimento futura."
      case BelowMinimumAge => "idade inferior a " + Digits(MinimumOf(r)) + " anos."
      case _ => "sem data de nascimento.")
  }

  function MinimumOf(r: Reader): nat {
    if r.minimumAge.None? then 18 else r.minimumAge.value
  }

  function UnavailableFailure(r: Reader): Failure {
    Failure(r.name,
      "leitor indisponível para confirmar a remoção exigida pela política " + Digits(MinimumOf(r)) + "+.")
  }

  /** Every failure names one of the readers. */
  predicate NamesReaders(failures: seq<Failure>, rs: seq<Reader>) {
    forall f :: f in failures ==> exists r :: r in rs && r.name == f.name
  }

  lemma FailuresName(rs: seq<Reader>, failure: Reader -> Failure, all: seq<Reader>)
    requires (forall r :: r in rs ==> r in all) && forall r :: failure(r).name == r.name
    ensures NamesReaders(FailuresOf(rs, failure), all)
  {
  }

  lemma TextsAppend(a: seq<Failure>, b: seq<Failure>)
    ensures FailureTexts(a + b) == FailureTexts(a) + FailureTexts(b)
  {
  }

  // ---------- what the counts mean ----------

  /** The query's answer as the plan reads it. */
  ghost predicate ListsRows(existing: seq<Row>, rows: Rows) {
    && (existing == [] <==> rows == map[])
    && forall id :: StatusOf(existing, id) == if id in rows then Some(rows[id]) else None
  }

  lemma PlanIsToSync(q: Request, rows: Rows, existing: seq<Row>)
    requires ListsRows(existing, rows)
    ensures Filter(q.AllowedReaders(), r => !TakenAsSynced(q.AllowedReaders(), existing, q.previousError, r)) == q.ToSync(rows)
  {
    hide Filter, SeedsFor, StatusOf;
    var readers := q.AllowedReaders();
    forall r | r in readers ensures !TakenAsSynced(readers, existing, q.previousError, r) == !q.Skips(rows, r.id) {
      assert StatusOf(existing, r.id) == if r.id in rows then Some(rows[r.id]) else None;
    }
    FilterSame(readers, r => !TakenAsSynced(readers, existing, q.previousError, r), (r: Reader) => !q.Skips(rows, r.id));
  }

  lemma SeedsAreReaders(readers: seq<Reader>, noRows: bool, previousError: Option<string>)
    ensures SeedsFor(readers, noRows, previousError) <= Ids(readers)
  {
  }

  lemma ToSyncIds(q: Request, rows: Rows, id: string)
    ensures id in Ids(q.ToSync(rows)) <==> id in Ids(q.AllowedReaders()) && !q.Skips(rows, id)
  {
    var allowed, toSync := q.AllowedReaders(), q.ToSync(rows);
    forall r: Reader ensures r in toSync <==> r in allowed && !q.Skips(rows, r.id) {
      FilterMember(allowed, (x: Reader) => !q.Skips(rows, x.id), r);
    }
    hide Filter, Request.ToSync, Request.AllowedReaders, Request.Skips;
  }

  lemma RowsAreWritten(q: Request, rows: Rows)
    ensures q.SeededRows(rows) + Results(q.ToSync(rows), q.answers) == q.WrittenRows(rows)
  {
    hide Ids, SeedsFor, Filter, Request.ToSync, Request.AllowedReaders;
    SeedsAreReaders(q.AllowedReaders(), rows == map[], q.previousError);
    forall id ensures id in Ids(q.ToSync(rows)) <==> id in Ids(q.AllowedReaders()) && !q.Skips(rows, id) {
      ToSyncIds(q, rows, id);
    }
  }

  /** As many failed writes as readers that may have the person: every one of them was tried and failed. */
  lemma AllWritesFail(q: Request, rows: Rows)
    ensures |FailedWrites(q.ToSync(rows), q.answers)| <= |q.AllowedReaders()|
    ensures |FailedWrites(q.ToSync(rows), q.answers)| == |q.AllowedReaders()| <==>
            forall r :: r in q.AllowedReaders() ==> !q.Skips(rows, r.id) && q.answers.write(r.id).Some?
    ensures FailedWrites(q.ToSync(rows), q.answers) == [] <==>
            forall r :: r in q.AllowedReaders() ==> q.Skips(rows, r.id) || q.answers.write(r.id).None?
  {
    var both := (r: Reader) => !q.Skips(rows, r.id) && q.answers.write(r.id).Some?;
    FilterTwice(q.AllowedReaders(), (r: Reader) => !q.Skips(rows, r.id), (r: Reader) => q.answers.write(r.id).Some?, both);
    FilterLength(q.AllowedReaders(), both);
  }

  /** Restricted readers and those out of reach are not among the allowed ones. */
  lemma Disjoint(q: Request)
    requires WellFormed(q)
    ensures Ids(q.Restricted()) !! Ids(q.AllowedReaders()) && Ids(q.Unavailable()) !! Ids(q.AllowedReaders())
    ensures Ids(q.Issues()) <= Ids(q.Restricted())
  {
    ScopedDistinct(q.all, q.allowIds);
    forall r: Reader ensures
        && (r in q.AllowedReaders() <==> r in q.InScope() && IsAllowed(r, q.birth))
        && (r in q.Restricted() <==> r in q.InScope() && !IsAllowed(r, q.birth))
        && (r in q.Issues() ==> r in q.Restricted())
        && (r in q.Unavailable() ==> r.id !in Ids(q.InScope()))
    {
      FilterMember(q.InScope(), x => IsAllowed(x, q.birth), r);
      FilterMember(q.InScope(), x => !IsAllowed(x, q.birth), r);
      FilterMember(q.Restricted(), x => UnusableDate(x, q.birth) || RemovalFails(x, q.answers), r);
      FilterMember(Scoped(q.policies, q.allowIds), (x: Reader) => x.id !in Ids(q.InScope()) && !IsAllowed(x, q.birth), r);
    }
    hide Filter, Scoped, UnusableDate, RemovalFails, IsAllowed;
    forall a, b | a in q.AllowedReaders() && b in q.Restricted() ensures a.id != b.id {
      if a.id == b.id {
        SameId(q.InScope(), a, b);
      }
    }
  }

  /** Rows of the readers that may have the person. */
  function DoneRows(allowed: set<string>, done: set<string>): Rows {
    map id | id in allowed :: if id in done then Synced else SyncFailed
  }

  function MarkedRows(
    base: Rows, allowed: set<string>, done: set<string>, gone: set<string>, issues: set<string>, out: set<string>): Rows
  {
    base - gone + Marked(issues, SyncFailed) + Marked(out, SyncFailed) + DoneRows(allowed, done)
  }

  /** Marks on disjoint sets of readers: no mark is a failure exactly when nobody failed. */
  lemma MarksTell(base: Rows, allowed: set<string>, done: set<string>, gone: set<string>, issues: set<string>, out: set<string>)
    requires gone !! allowed && out !! allowed && issues <= gone
    ensures var final := MarkedRows(base, allowed, done, gone, issues, out);
            (forall id :: id in allowed + gone + out ==> id !in final || final[id] == Synced)
            <==> allowed <= done && issues == {} && out == {}
  {
    var final := MarkedRows(base, allowed, done, gone, issues, out);
    assert forall id :: id in issues + out ==> id in final && final[id] == SyncFailed;
    assert forall id :: id in allowed ==> id in final && (final[id] == Synced <==> id in done);
    if issues != {} {
      var id :| id in issues;
      assert id in issues + out && id in allowed + gone + out;
    } else if out != {} {
      var id :| id in out;
      assert id in issues + out && id in allowed + gone + out;
    }
  }

  /** Readers that need no write or whose write goes through. */
  function Settled(q: Request, rows: Rows): set<string> {
    set id | id in Ids(q.AllowedReaders()) && (q.Skips(rows, id) || q.answers.write(id).None?)
  }

  lemma NothingFailedById(q: Request, rows: Rows)
    ensures q.NothingFailed(rows) <==>
            forall id :: id in Ids(q.AllowedReaders()) + Ids(q.Restricted()) + Ids(q.Unavailable()) ==>
              id !in rows || rows[id] == Synced
  {
  }

  lemma NoIds(rs: seq<Reader>)
    ensures Ids(rs) == {} <==> rs == []
  {
    if rs != [] {
      assert rs[0].id in Ids(rs);
    }
  }

  /** The rows left by a sync show a failure exactly when it counted one. */
  lemma FailuresAreRecorded(q: Request, rows: Rows)
    requires WellFormed(q)
    ensures var middle := q.PolicyRows(rows);
            q.NothingFailed(q.WrittenRows(middle)) <==>
            FailedWrites(q.ToSync(middle), q.answers) == [] && q.Issues() == [] && q.Unavailable() == []
  {
    hide Request.AllowedReaders, Request.Restricted, Request.Unavailable, Request.Issues, Request.Skips, Request.ToSync;
    hide FailedWrites, Request.NothingFailed, Request.WrittenRows, Request.PolicyRows, Settled;
    var middle := q.PolicyRows(rows);
    AllWritesFail(q, middle);
    NoIds(q.Issues());
    NoIds(q.Unavailable());
    NothingFailedById(q, q.WrittenRows(middle));
    WrittenRowsTell(q, rows);
    SettledAll(q, middle);
  }

  lemma WrittenRowsTell(q: Request, rows: Rows)
    requires WellFormed(q)
    ensures var middle := q.PolicyRows(rows);
            var final := q.WrittenRows(middle);
            (forall id :: id in Ids(q.AllowedReaders()) + Ids(q.Restricted()) + Ids(q.Unavailable()) ==>
               id !in final || final[id] == Synced)
            <==> Ids(q.AllowedReaders()) <= Settled(q, middle) && Ids(q.Issues()) == {} && Ids(q.Unavailable()) == {}
  {
    hide Request.AllowedReaders, Request.Restricted, Request.Unavailable, Request.Issues, Ids, Request.WrittenRows;
    hide Request.PolicyRows, MarkedRows, Settled;
    Disjoint(q);
    var allowed := Ids(q.AllowedReaders());
    var base := rows - if q.reset then allowed else {};
    WrittenAreMarked(q, rows);
    MarksTell(base, allowed, Settled(q, q.PolicyRows(rows)), Ids(q.Restricted()), Ids(q.Issues()), Ids(q.Unavailable()));
  }

  lemma WrittenAreMarked(q: Request, rows: Rows)
    ensures var middle, allowed := q.PolicyRows(rows), Ids(q.AllowedReaders());
            q.WrittenRows(middle) == MarkedRows(rows - (if q.reset then allowed else {}), allowed, Settled(q, middle),
                                                Ids(q.Restricted()), Ids(q.Issues()), Ids(q.Unavailable()))
  {
    hide Request.AllowedReaders, Request.Restricted, Request.Unavailable, Request.Issues, Request.Skips, Ids, Marked;
    WritesAreDone(q, q.PolicyRows(rows));
    hide DoneRows, Settled, Request.WrittenRows;
  }

  lemma WritesAreDone(q: Request, rows: Rows)
    ensures q.WrittenRows(rows) == rows + DoneRows(Ids(q.AllowedReaders()), Settled(q, rows))
  {
    hide Request.AllowedReaders, Request.Skips, Ids;
  }

  lemma SettledAll(q: Request, rows: Rows)
    ensures Ids(q.AllowedReaders()) <= Settled(q, rows) <==>
            forall r :: r in q.AllowedReaders() ==> q.Skips(rows, r.id) || q.answers.write(r.id).None?
  {
    hide Request.AllowedReaders, Request.Skips;
    if Ids(q.AllowedReaders()) <= Settled(q, rows) {
      forall r | r in q.AllowedReaders() ensures q.Skips(rows, r.id) || q.answers.write(r.id).None? {
        assert r.id in Ids(q.AllowedReaders());
      }
    }
  }

  /** What a sync reports, given the failures. */
  function Reported(q: Request, causes: seq<Failure>): Outcome {
    AggregateReaderSyncOutcome(FailureTexts(causes), |q.AllowedReaders()| + |q.Issues()| + |q.Unavailable()|)
  }

  /** The failures name readers of the sync, and every reader whose write failed. */
  predicate Explains(q: Request, rows: Rows, causes: seq<Failure>) {
    && NamesReaders(causes, q.Concerned())
    && (forall r :: r in q.AllowedReaders() && !q.Skips(rows, r.id) && q.answers.write(r.id).Some? ==> Named(causes, r))
  }

  predicate Named(causes: seq<Failure>, r: Reader) {
    exists f :: f in causes && f.name == r.name
  }

  /** Failed writes first, then the failures of the restrictions. */
  lemma AllCauses(q: Request, rows: Rows, policy: seq<Failure>) returns (causes: seq<Failure>)
    requires NamesReaders(policy, q.Concerned())
    ensures FailureTexts(causes)
         == FailureTexts(FailuresOf(FailedWrites(q.ToSync(rows), q.answers), r => WriteFailure(r, q.answers))) + FailureTexts(policy)
    ensures Explains(q, rows, causes)
  {
    var failed := FailedWrites(q.ToSync(rows), q.answers);
    var writes := FailuresOf(failed, r => WriteFailure(r, q.answers));
    causes := writes + policy;
    TextsAppend(writes, policy);
    forall r ensures r in failed <==> r in q.AllowedReaders() && !q.Skips(rows, r.id) && q.answers.write(r.id).Some? {
      FilterMember(q.ToSync(rows), (x: Reader) => q.answers.write(x.id).Some?, r);
      FilterMember(q.AllowedReaders(), (x: Reader) => !q.Skips(rows, x.id), r);
    }
    hide FailedWrites, Request.ToSync, Request.Skips, Request.AllowedReaders, Request.Restricted, Request.Unavailable;
    FailuresName(failed, r => WriteFailure(r, q.answers), q.Concerned());
    forall r | r in failed ensures Named(causes, r) {
      var i :| 0 <= i < |failed| && failed[i] == r;
      assert writes[i] in causes && writes[i].name == r.name;
    }
    forall f | f in causes ensures exists r :: r in q.Concerned() && r.name == f.name {
      assert f in writes || f in policy;
    }
  }

  // ---------- the message and the next sync ----------

  /** All readers of a sync have names the message can carry. */
  predicate PlainReaders(q: Request) {
    forall r :: r in q.Concerned() ==> PlainName(r.name)
  }

  /**
   * Over two syncs: a reader that the next one takes as done on the strength of the message was written or
   * already done in the one that printed it, if it was among its readers at all.
   */
  lemma SeededWasDone(q: Request, rows: Rows, causes: seq<Failure>, readers: seq<Reader>, r: Reader)
    requires PlainReaders(q) && Explains(q, rows, causes)
    requires r in readers && r.id in SeedsFor(readers, true, Reported(q, causes).error)
    ensures r in q.AllowedReaders() ==> r.id in q.WrittenRows(rows) && q.WrittenRows(rows)[r.id] == Synced
  {
    var total := |q.AllowedReaders()| + |q.Issues()| + |q.Unavailable()|;
    if r in q.AllowedReaders() {
      assert r.id in Ids(q.AllowedReaders());
      hide SeedsFor, Request.AllowedReaders, Request.Skips, Request.Issues, Request.Unavailable, AggregateReaderSyncOutcome, PlainName;
      if !q.Skips(rows, r.id) && q.answers.write(r.id).Some? {
        CitedIsNotSeeded(q, rows, causes, readers, r);
      }
    }
  }

  lemma CitedIsNotSeeded(q: Request, rows: Rows, causes: seq<Failure>, readers: seq<Reader>, r: Reader)
    requires PlainReaders(q) && Explains(q, rows, causes) && r in readers
    ensures r in q.AllowedReaders() && !q.Skips(rows, r.id) && q.answers.write(r.id).Some? ==>
              r.id !in SeedsFor(readers, true, Reported(q, causes).error)
  {
    hide SeedsFor, NamesReaders, Named, PlainReaders, AggregateReaderSyncOutcome;
    hide Request.Concerned, Request.AllowedReaders, Request.Skips, Request.Issues, Request.Unavailable;
    if r in q.AllowedReaders() && !q.Skips(rows, r.id) && q.answers.write(r.id).Some? {
      assert Named(causes, r);
      PlainCauses(q, causes);
      NamedIsNotSeeded(causes, |q.AllowedReaders()| + |q.Issues()| + |q.Unavailable()|, readers, r);
    }
  }

  lemma PlainCauses(q: Request, causes: seq<Failure>)
    requires PlainReaders(q) && NamesReaders(causes, q.Concerned())
    ensures forall f :: f in causes ==> PlainName(f.name)
  {
    hide PlainName, Request.Concerned;
  }

  lemma NamedIsNotSeeded(causes: seq<Failure>, total: nat, readers: seq<Reader>, r: Reader)
    requires (forall f :: f in causes ==> PlainName(f.name)) && Named(causes, r) && r in readers
    ensures r.id !in SeedsFor(readers, true, AggregateReaderSyncOutcome(FailureTexts(causes), total).error)
  {
    hide SeedsFor, AggregateReaderSyncOutcome, PlainName, FailureTexts;
    var f :| f in causes && f.name == r.name;
    var k :| 0 <= k < |causes| && causes[k] == f;
    FailedReaderIsNotSeeded(causes, total, k, readers, r);
  }

  /**
   * The exception: after a partial sync some of whose failed readers is still there, a reader is taken as done
   * exactly when no reader with its identifier is named in the message. One added in between therefore counts
   * as done without ever being written, unless the message happens to contain its name.
   */
  lemma NewcomerIsSeeded(causes: seq<Failure>, total: nat, readers: seq<Reader>, failed: Reader, r: Reader)
    requires causes != [] && |causes| != total && forall f :: f in causes ==> PlainName(f.name)
    requires Distinct(readers) && failed in readers && Named(causes, failed) && r in readers
    ensures var error := AggregateReaderSyncOutcome(FailureTexts(causes), total).error;
            error.Some? && (r.id in SeedsFor(readers, true, error) <==> !Cites(error.value, r))
  {
    var error := AggregateReaderSyncOutcome(FailureTexts(causes), total).error;
    var f :| f in causes && f.name == failed.name;
    var k :| 0 <= k < |causes| && causes[k] == f;
    MessageNamesEveryFailure(causes, total, k);
    PartialIsRecognised(causes, total);
    assert Cites(error.value, failed);
    assert failed.id in CitedIds(error.value, readers);
    if r.id in CitedIds(error.value, readers) {
      var x :| x in readers && Cites(error.value, x) && x.id == r.id;
      SameId(readers, x, r);
    }
  }

  // ---------- a sync that starts over ----------

  /** After a reset no row is left for a reader that is to be written. */
  lemma ResetRows(q: Request, rows: Rows, r: Reader)
    requires q.reset && Distinct(q.all) && r in q.AllowedReaders()
    ensures r.id !in q.PolicyRows(rows)
  {
    hide Scoped, IsAllowed, UnusableDate, RemovalFails;
    ScopedDistinct(q.all, q.allowIds);
    InScopeAllowed(q, r);
    forall x | x in q.Issues() ensures x.id != r.id {
      InScopeRestricted(q, x);
      if x.id == r.id {
        SameId(q.InScope(), x, r);
      }
    }
    forall x | x in q.Unavailable() ensures x.id != r.id {
      FilterMember(Scoped(q.policies, q.allowIds), (y: Reader) => y.id !in Ids(q.InScope()) && !IsAllowed(y, q.birth), x);
      assert r in q.InScope();
    }
  }

  lemma InScopeAllowed(q: Request, r: Reader)
    ensures r in q.AllowedReaders() <==> r in q.InScope() && IsAllowed(r, q.birth)
  {
    FilterMember(q.InScope(), (x: Reader) => IsAllowed(x, q.birth), r);
  }

  lemma InScopeRestricted(q: Request, r: Reader)
    requires r in q.Issues()
    ensures r in q.InScope() && !IsAllowed(r, q.birth)
  {
    FilterMember(q.Restricted(), (x: Reader) => UnusableDate(x, q.birth) || RemovalFails(x, q.answers), r);
    FilterMember(q.InScope(), (x: Reader) => !IsAllowed(x, q.birth), r);
  }

  /**
   * A sync with a reset writes to every allowed reader exactly when a restriction left a row behind, or the
   * error kept from the sync before lets no reader count as done. So the reset does not hold for everybody
   * when that error is still the one of a partial sync.
   */
  lemma ResetWritesAll(q: Request, rows: Rows)
    requires q.reset && Distinct(q.all)
    ensures q.ToSync(q.PolicyRows(rows)) == q.AllowedReaders()
       <==> q.PolicyRows(rows) != map[] || SeedsFor(q.AllowedReaders(), true, q.previousError) == {}
  {
    hide Request.AllowedReaders, Request.PolicyRows, SeedsFor;
    var left, allowed := q.PolicyRows(rows), q.AllowedReaders();
    var keep := (r: Reader) => !q.Skips(left, r.id);
    forall r | r in allowed ensures keep(r) <==> r.id !in SeedsFor(allowed, left == map[], q.previousError) {
      ResetRows(q, rows, r);
    }
    NoSeedsWithRows(allowed, q.previousError);
    if left != map[] || SeedsFor(allowed, true, q.previousError) == {} {
      FilterAll(allowed, keep);
    } else {
      var id :| id in SeedsFor(allowed, true, q.previousError);
      var r := SeedIsReader(allowed, q.previousError, id);
      FilterMember(allowed, keep, r);
    }
  }

  lemma NoSeedsWithRows(readers: seq<Reader>, previousError: Option<string>)
    ensures SeedsFor(readers, false, previousError) == {}
  {
  }

  lemma SeedIsReader(readers: seq<Reader>, previousError: Option<string>, id: string) returns (r: Reader)
    requires id in SeedsFor(readers, true, previousError)
    ensures r in readers && r.id == id
  {
    r :| r in readers && r.id == id;
  }

  /** The message of a sync of two readers that failed at the first. */
  function OldMessage(): Option<string> {
    AggregateReaderSyncOutcome(FailureTexts([Failure("Entrada", "sem resposta")]), 2).error
  }

  /** With that message the second reader is not written, although the sync starts over. */
  lemma ResetPassesOver(q: Request, rows: Rows, first: Reader, second: Reader)
    requires q.reset && q.previousError == OldMessage()
    requires q.all == q.policies == [first, second] && q.allowIds == [] && first.id != second.id
    requires first.name == "Entrada" && second.name == "Garagem" && first.minimumAge == second.minimumAge == None
    requires rows.Keys <= {first.id, second.id}
    ensures second in q.AllowedReaders() && second !in q.ToSync(q.PolicyRows(rows))
  {
    TwoUnrestricted(q, rows, first, second);
    hide Request.AllowedReaders, Request.PolicyRows, OldMessage, SeedsFor;
    OldMessageSeeds(first, second);
    FilterMember(q.AllowedReaders(), (r: Reader) => !q.Skips(q.PolicyRows(rows), r.id), second);
  }

  lemma TwoUnrestricted(q: Request, rows: Rows, first: Reader, second: Reader)
    requires q.reset && q.all == q.policies == [first, second] && q.allowIds == []
    requires first.minimumAge == second.minimumAge == None && rows.Keys <= {first.id, second.id}
    ensures q.AllowedReaders() == [first, second] && q.PolicyRows(rows) == map[]
  {
    hide IsAllowed, Request.Restricted, Request.Issues, Request.Unavailable, Request.PolicyRows;
    AllInScope(q);
    AllAllowed(q, first, second);
    NoneRestricted(q, first, second);
    NoRowsLeft(q, rows);
  }

  lemma AllInScope(q: Request)
    requires q.allowIds == []
    ensures q.InScope() == q.all && Scoped(q.policies, q.allowIds) == q.policies
  {
    assert Filter(q.allowIds, (id: string) => !Blank(id)) == [];
  }

  lemma AllAllowed(q: Request, first: Reader, second: Reader)
    requires q.InScope() == [first, second] && first.minimumAge == second.minimumAge == None
    ensures q.AllowedReaders() == [first, second] && Ids(q.AllowedReaders()) == {first.id, second.id}
  {
    FilterAll(q.InScope(), (r: Reader) => IsAllowed(r, q.birth));
    var both := [first, second];
    assert Ids(both) == {both[0].id, both[1].id};
  }

  lemma NoRowsLeft(q: Request, rows: Rows)
    requires q.reset && rows.Keys <= Ids(q.AllowedReaders())
    requires q.Restricted() == q.Issues() == q.Unavailable() == []
    ensures q.PolicyRows(rows) == map[]
  {
    hide Request.AllowedReaders, Request.Restricted, Request.Issues, Request.Unavailable;
    assert Failed([]) == map[];
    assert Ids([]) == {};
  }

  lemma NoneRestricted(q: Request, first: Reader, second: Reader)
    requires q.InScope() == Scoped(q.policies, q.allowIds) == [first, second]
    requires first.minimumAge == second.minimumAge == None
    ensures q.Restricted() == q.Issues() == q.Unavailable() == []
  {
    forall r ensures r !in q.Restricted() && r !in q.Unavailable() {
      FilterMember(q.InScope(), (x: Reader) => !IsAllowed(x, q.birth), r);
      FilterMember(Scoped(q.policies, q.allowIds), (x: Reader) => x.id !in Ids(q.InScope()) && !IsAllowed(x, q.birth), r);
    }
    HasElement(q.Restricted());
    HasElement(q.Unavailable());
  }

  lemma HasElement<T>(xs: seq<T>)
    ensures xs == [] || exists x :: x in xs
  {
    if xs != [] {
      assert xs[0] in xs;
    }
  }

  lemma OldMessageSeeds(first: Reader, second: Reader)
    requires first.id != second.id && first.name == "Entrada" && second.name == "Garagem"
    ensures second.id in SeedsFor([first, second], true, OldMessage())
  {
    hide SeedsFor, Cites, AggregateReaderSyncOutcome, FailureTexts;
    var causes := [Failure("Entrada", "sem resposta")];
    assert causes[0] in causes && Named(causes, first);
    PlainEntrada();
    NewcomerIsSeeded(causes, 2, [first, second], first, second);
    NoGaragem(second);
  }

  lemma PlainEntrada()
    ensures PlainName("Entrada")
  {
    NoFirst("Entrada", ": ");
  }

  lemma NoGaragem(second: Reader)
    requires second.name == "Garagem"
    ensures OldMessage().Some? && !Cites(OldMessage().value, second)
  {
    OldMessageText();
    var text := OldMessage().value;
    hide OldMessage;
    NoFirst(text, "Garagem");
  }

  lemma OldMessageText()
    ensures OldMessage().Some? && 'G' !in OldMessage().value
  {
    var text := FailureText(Failure("Entrada", "sem resposta"));
    assert FailureTexts([Failure("Entrada", "sem resposta")]) == [text];
    NoG(text);
    hide FailureTexts, FailureText, Digits;
    assert FormatFailureDetail([text]) == text;
  }

  lemma NoG(text: string)
    requires text == FailureText(Failure("Entrada", "sem resposta"))
    ensures 'G' !in text && 'G' !in Digits(1) && 'G' !in Digits(2)
    ensures 'G' !in "Sincronizado parcialmente (" && 'G' !in " de " && 'G' !in " leitor(es)). "
  {
    assert Digits(1) == "1" && Digits(2) == "2";
  }

  lemma AggregateMeans(failures: seq<string>, total: nat)
    ensures AggregateReaderSyncOutcome(failures, total).status == SyncFailed <==> |failures| == total
    ensures AggregateReaderSyncOutcome(failures, total).error == None <==> failures == [] && total != 0
  {
  }

  // ---------- the sync of one person ----------

  class PersonSync {
    /** Result of the last sync of the person at each reader. */
    var rows: Rows

    /** Removes the person from readers; `completed` is the order in which the removals end. */
    method RemovePersonFromReaders(all: seq<Reader>, readerIds: seq<string>, completed: seq<Reader>, answers: Answers)
      returns (failures: seq<string>, failedIds: seq<string>)
      requires Distinct(completed) && multiset(completed) == multiset(Scoped(all, readerIds))
      modifies this
      ensures failures == RemovalTexts(FailedRemovals(completed, answers), answers)
      ensures Notes(failedIds, completed, answers)
      ensures rows == RemovedRows(old(rows), completed, answers)
    {
      hide FailedRemovals, RemovedRows, Filter;
      failures, failedIds := [], [];
      NothingRemoved(rows, answers);
      for i := 0 to |completed|
        invariant failures == RemovalTexts(FailedRemovals(completed[..i], answers), answers)
        invariant forall j :: 0 <= j < |completed| ==>
                    (completed[j].id in failedIds <==> j < i && RemovalFails(completed[j], answers))
        invariant rows == RemovedRows(old(rows), completed[..i], answers)
      {
        var r := completed[i];
        RemovedOneMore(old(rows), completed[..i], r, answers);
        OneMoreText(completed[..i], r, answers);
        assert completed[..i + 1] == completed[..i] + [r];
        match answers.removal(r.id) {
          case None =>
            rows := rows - {r.id};
          case Some(message) =>
            failures := failures + [FailureText(Failure(r.name, message))];
            failedIds := failedIds + [r.id];
            rows := rows[r.id := SyncFailed];
        }
      }
      assert completed[..|completed|] == completed;
    }

    /** Splits the readers, in order, by the age policy. */
    method PartitionReadersByMinorRestriction(readers: seq<Reader>, birth: Birth)
      returns (allowed: seq<Reader>, restricted: seq<Reader>)
      ensures allowed == Filter(readers, r => IsAllowed(r, birth))
      ensures restricted == Filter(readers, r => !IsAllowed(r, birth))
    {
      allowed, restricted := [], [];
      for i := 0 to |readers|
        invariant allowed == Filter(readers[..i], r => IsAllowed(r, birth))
        invariant restricted == Filter(readers[..i], r => !IsAllowed(r, birth))
      {
        assert readers[..i + 1][..i] == readers[..i];
        if IsAllowed(readers[i], birth) {
          allowed := allowed + [readers[i]];
        } else {
          restricted := restricted + [readers[i]];
        }
      }
      assert readers[..|readers|] == readers;
    }

    /** The reports for readers restricted because of the birth date. */
    static method RestrictionTexts(readers: seq<Reader>, birth: Birth) returns (texts: seq<string>)
      ensures texts == FailureTexts(FailuresOf(readers, r => RestrictionFailure(r, birth)))
    {
      hide EvaluateAge, Digits;
      texts := [];
      for i := 0 to |readers|
        invariant texts == FailureTexts(FailuresOf(readers[..i], r => RestrictionFailure(r, birth)))
      {
        var r := readers[i];
        var reason := EvaluateAge(r, birth);
        var text := "sem data de nascimento.";
        if reason == InvalidBirthDate {
          text := "data de nascimento inválida.";
        } else if reason == FutureBirthDate {
          text := "data de nascimento futura.";
        } else if reason == BelowMinimumAge {
          text := "idade inferior a " + Digits(if r.minimumAge.Some? then r.minimumAge.value else 18) + " anos.";
        }
        assert readers[..i + 1] == readers[..i] + [r];
        texts := texts + [r.name + ": " + text];
      }
      assert readers[..|readers|] == readers;
    }

    /** The reports for readers that cannot be reached. */
    static method UnavailableTexts(readers: seq<Reader>) returns (texts: seq<string>)
      ensures texts == FailureTexts(FailuresOf(readers, r => UnavailableFailure(r)))
    {
      hide Digits;
      texts := [];
      for i := 0 to |readers|
        invariant texts == FailureTexts(FailuresOf(readers[..i], r => UnavailableFailure(r)))
      {
        var r := readers[i];
        var minimum := if r.minimumAge.Some? then r.minimumAge.value else 18;
        var text := "leitor indisponível para confirmar a remoção exigida pela política " + Digits(minimum) + "+.";
        assert readers[..i + 1] == readers[..i] + [r];
        texts := texts + [r.name + ": " + text];
      }
      assert readers[..|readers|] == readers;
    }

    /** Records a failure for each of the readers. */
    method RecordFailures(readers: seq<Reader>)
      modifies this
      ensures rows == old(rows) + Failed(readers)
    {
      hide Failed;
      NoneFailed(rows);
      assert readers[..0] == [];
      for i := 0 to |readers|
        invariant rows == old(rows) + Failed(readers[..i])
      {
        FailedOneMore(old(rows), readers[..i], readers[i]);
        assert readers[..i + 1] == readers[..i] + [readers[i]];
        rows := rows[readers[i].id := SyncFailed];
      }
      assert readers[..|readers|] == readers;
    }

    /** Writes the person to the readers; every reader gets the result of its own write. */
    method WriteToReaders(toSync: seq<Reader>, answers: Answers) returns (failures: seq<string>)
      modifies this
      ensures failures == FailureTexts(FailuresOf(FailedWrites(toSync, answers), r => WriteFailure(r, answers)))
      ensures rows == old(rows) + Results(toSync, answers)
    {
      hide Results, FailedWrites;
      failures := [];
      NothingWritten(answers);
      for i := 0 to |toSync|
        invariant failures == FailureTexts(FailuresOf(FailedWrites(toSync[..i], answers), r => WriteFailure(r, answers)))
        invariant rows == old(rows) + Results(toSync[..i], answers)
      {
        var r := toSync[i];
        WrittenOneMore(toSync[..i], r, answers);
        assert toSync[..i + 1] == toSync[..i] + [r];
        match answers.write(r.id) {
          case None =>
            rows := rows[r.id := Synced];
          case Some(message) =>
            failures := failures + [FailureText(Failure(r.name, message))];
            rows := rows[r.id := SyncFailed];
        }
      }
      assert toSync[..|toSync|] == toSync;
    }

    /**
     * Takes the person off the readers that must not have it, and reports each of them that cannot be
     * brought in order. There are as many reports as the sync counts issues.
     */
    method ApplyPolicies(q: Request, restricted: seq<Reader>, completed: seq<Reader>)
      returns (policyFailures: seq<string>, policyIssueTotal: nat, ghost causes: seq<Failure>)
      requires WellFormed(q) && restricted == q.Restricted()
      requires Distinct(completed) && multiset(completed) == multiset(restricted)
      modifies this
      ensures |policyFailures| == policyIssueTotal == |q.Issues()| + |q.Unavailable()|
      ensures policyFailures == FailureTexts(causes) && NamesReaders(causes, q.Concerned())
      ensures rows == q.PolicyRows(old(rows))
    {
      hide FailedRemovals, RemovedRows, Ids, Marked, Filter, Scoped, UnusableDate, Notes;
      var removalFailures: seq<string>, failedIds: seq<string> := [], [];
      if q.reset {
        rows := rows - Ids(q.AllowedReaders());
      }
      ghost var afterReset := rows;
      if restricted != [] {
        ScopeOfPart(q, restricted, r => !IsAllowed(r, q.birth));
        removalFailures, failedIds := RemovePersonFromReaders(q.all, IdList(restricted), completed, q.answers);
      } else {
        assert |multiset(completed)| == 0;
        NothingNoted(completed, q.answers);
        NothingRemoved(rows, q.answers);
      }
      assert rows == RemovedRows(afterReset, completed, q.answers);
      NotesMoved(failedIds, completed, restricted, q.answers);
      var invalid := Filter(restricted, r => UnusableDate(r, q.birth));
      var others := Filter(invalid, (r: Reader) => r.id !in failedIds);
      assert others == OtherIssues(q, failedIds);
      var invalidFailures := RestrictionTexts(others, q.birth);
      RecordFailures(others);
      var unavailable := q.Unavailable();
      var unavailableFailures := UnavailableTexts(unavailable);
      RecordFailures(unavailable);
      policyFailures := removalFailures + invalidFailures + unavailableFailures;
      var failedBelowMinimum := Filter(restricted, (r: Reader) => !UnusableDate(r, q.birth) && r.id in failedIds);
      policyIssueTotal := |invalid| + |failedBelowMinimum| + |unavailable|;
      IssuesCounted(q, completed, failedIds);
      PolicyRowsReached(q, old(rows), completed, failedIds);
      causes := PolicyCauses(q, completed, failedIds);
    }

    /** The rows as the query lists them. */
    method ListRows() returns (listed: seq<Row>)
      ensures ListsRows(listed, rows)
    {
      listed := [];
      var rest := rows.Keys;
      while rest != {}
        invariant rest <= rows.Keys
        invariant listed == [] <==> rest == rows.Keys
        invariant forall id :: StatusOf(listed, id) == if id in rows && id !in rest then Some(rows[id]) else None
      {
        var id :| id in rest;
        assert (listed + [Row(id, Some(rows[id]))])[..|listed|] == listed;
        listed := listed + [Row(id, Some(rows[id]))];
        rest := rest - {id};
      }
    }

    /**
     * The sync of one person. With a reader that may have the person and pictures at hand, it counts as
     * failed exactly when every such reader was tried and failed, and it leaves an error exactly when some
     * reader concerned is left with a failure.
     */
    method SyncPersonOnReadersAllowed(q: Request, completed: seq<Reader>)
      returns (outcome: Outcome, ghost causes: seq<Failure>)
      requires WellFormed(q) && Distinct(completed) && multiset(completed) == multiset(q.Restricted())
      modifies this
      ensures q.AllowedReaders() == [] ==>
                && rows == q.PolicyRows(old(rows))
                && (outcome.status == SyncFailed <==> q.InScope() == [] || q.Issues() + q.Unavailable() != [])
                && (outcome.error == None <==> outcome.status == Synced)
      ensures var middle := q.PolicyRows(old(rows));
              q.AllowedReaders() != [] && q.NoPicture(middle) ==>
                rows == q.SeededRows(middle) && outcome.status == SyncFailed && outcome.error.Some?
      ensures var middle := q.PolicyRows(old(rows));
              q.AllowedReaders() != [] && !q.NoPicture(middle) ==>
                && rows == q.WrittenRows(middle)
                && (outcome.status == SyncFailed <==>
                      forall r :: r in q.AllowedReaders() ==> !q.Skips(middle, r.id) && q.answers.write(r.id).Some?)
                && (outcome.error == None <==> q.NothingFailed(rows))
                && outcome == Reported(q, causes) && Explains(q, middle, causes)
    {
      hide AggregateReaderSyncOutcome, Filter, Scoped, Ids, Marked, Results, FailedWrites, SeedsFor, StatusOf, TakenAsSynced;
      hide Request.Issues, Request.Unavailable, Request.PolicyRows, Request.WrittenRows, Request.ToSync, Request.Skips;
      AllWritesFail(q, q.PolicyRows(rows));
      var scoped := q.InScope();
      var readers, restricted := PartitionReadersByMinorRestriction(scoped, q.birth);
      var policyFailures, policyIssueTotal;
      policyFailures, policyIssueTotal, causes := ApplyPolicies(q, restricted, completed);
      if readers == [] {
        if policyFailures == [] {
          if scoped == [] {
            return Outcome(SyncFailed, Some("Nenhum leitor ativo com credenciais para este cliente.")), causes;
          }
          return Outcome(Synced, None), causes;
        }
        AggregateMeans(policyFailures, policyIssueTotal);
        outcome := AggregateOutcome(policyFailures, policyIssueTotal);
        return;
      }
      outcome, causes := SyncReaders(q, readers, policyFailures, policyIssueTotal, causes);
      FailuresAreRecorded(q, old(rows));
    }

    /** The second half: the readers that may have the person, after the restrictions were dealt with. */
    method SyncReaders(
      q: Request, readers: seq<Reader>, policyFailures: seq<string>, policyIssueTotal: nat, ghost policyCauses: seq<Failure>)
      returns (outcome: Outcome, ghost causes: seq<Failure>)
      requires readers == q.AllowedReaders() != []
      requires policyFailures == FailureTexts(policyCauses) && NamesReaders(policyCauses, q.Concerned())
      requires |policyFailures| == policyIssueTotal == |q.Issues()| + |q.Unavailable()|
      modifies this
      ensures q.NoPicture(old(rows)) ==>
                rows == q.SeededRows(old(rows)) && outcome.status == SyncFailed && outcome.error.Some?
      ensures !q.NoPicture(old(rows)) ==>
                && rows == q.WrittenRows(old(rows)) && outcome == Reported(q, causes) && Explains(q, old(rows), causes)
                && (outcome.status == SyncFailed <==>
                      |FailedWrites(q.ToSync(old(rows)), q.answers)| == |readers|)
                && (outcome.error == None <==> FailedWrites(q.ToSync(old(rows)), q.answers) == [] && policyIssueTotal == 0)
    {
      hide AggregateReaderSyncOutcome, Filter, Scoped, Ids, Marked, Results, FailedWrites, SeedsFor, StatusOf, TakenAsSynced;
      hide Request.Issues, Request.Unavailable, Request.PolicyRows, Request.WrittenRows, Request.ToSync, Request.Skips;
      hide Request.AllowedReaders, Request.Restricted, NamesReaders, Explains, Request.Concerned;
      ghost var middle := rows;
      causes := policyCauses;
      RowsAreWritten(q, middle);
      var existing := ListRows();
      PlanIsToSync(q, middle, existing);
      var toSync, skipped, seeded := PlanPersonReaderSync(readers, existing, q.previousError);
      assert toSync == q.ToSync(middle);
      rows := rows + Marked(seeded, Synced);
      assert rows == q.SeededRows(middle);
      if exists r :: r in toSync && r.brand == Intelbras && q.answers.image(Intelbras).Some? {
        return Outcome(SyncFailed, q.answers.image(Intelbras)), causes;
      }
      if exists r :: r in toSync && r.brand == Hikvision && q.answers.image(Hikvision).Some? {
        return Outcome(SyncFailed, q.answers.image(Hikvision)), causes;
      }
      assert !q.NoPicture(middle);
      var failures := WriteToReaders(toSync, q.answers);
      failures := failures + policyFailures;
      causes := AllCauses(q, middle, policyCauses);
      AggregateMeans(failures, |readers| + policyIssueTotal);
      outcome := AggregateOutcome(failures, |readers| + policyIssueTotal);
    }
  }
}
