/**
 * Recording of facial accesses: one chain of jobs a reader, jobs of different readers interleaved at every
 * wait, a table of keys already stored, and one document for each correlation id.
 */
module AccessLog {
  import opened EventKeys
  import opened Wrappers

  datatype Code = DoorFace | AccessControl | OtherCode

  datatype Action = Pulse | Start | OtherAction

  datatype Event = Event(code: Code, action: Action, data: Option<EventData>)

  datatype Person = Person(blocked: bool)

  /** Where a job stands: not begun, between two waits, at a wait, ended, or done and off its chain. */
  datatype Stage =
    | Waiting | Running
    | Uploading | Resolving | LookingUp | Writing(found: bool) | Retrying | Creating | Written
    | Ended | Done

  datatype Job = Job(
    reader: string, event: Event, hasImage: bool, after: Option<nat>, person: Option<Person>, stage: Stage)

  datatype Document = Document(reader: string, correlation: Option<string>, event: Event)

  type Jobs = map<nat, Job>
  type Documents = map<nat, Document>

  // ---------- events ----------

  predicate Denied(data: EventData) {
    data.status.Some? && data.status != Some(1)
  }

  /** Events that are looked at: a face event with a user, recognised or denied. */
  predicate Relevant(e: Event) {
    && (e.code == DoorFace ==> e.action == Pulse)
    && (e.code == AccessControl ==> e.action in {Pulse, Start})
    && e.code != OtherCode
    && e.data.Some? && e.data.value.userId != ""
    && (Denied(e.data.value) || (e.data.value.similarity.Some? && e.data.value.similarity.value > 0.0))
  }

  function KeyOf(j: Job): Option<string> {
    if j.event.data.Some? then DedupKey(j.reader, j.event.data.value) else None
  }

  function CorrelationOf(j: Job): Option<string> {
    if j.event.data.Some? then BuildFacialCorrelationId(j.reader, j.event.data.value) else None
  }

  /** At a wait. */
  predicate Active(stage: Stage) {
    !stage.Waiting? && !stage.Running? && !stage.Ended? && !stage.Done?
  }

  predicate Over(stage: Stage) {
    stage.Ended? || stage.Done?
  }

  // ---------- what happened ----------

  datatype Entry =
    | Began(reader: string, job: nat)
    | Finished(reader: string, job: nat)
    | Suppressed(duplicate: string)
    | Stored(key: Option<string>)
    | Notified(key: Option<string>)

  /** An entry is right after what happened before it. */
  ghost predicate Right(before: seq<Entry>, e: Entry) {
    match e
    case Began(r, b) =>
      Began(r, b) !in before && forall a: nat :: Began(r, a) in before ==> a < b && Finished(r, a) in before
    case Finished(r, a) => Began(r, a) in before && Finished(r, a) !in before
    case Suppressed(k) => Stored(Some(k)) in before
    case Stored(_) => true
    case Notified(k) => Stored(k) in before && (k.Some? ==> Notified(k) !in before)
  }

  ghost predicate AllRight(log: seq<Entry>) {
    forall k :: 0 <= k < |log| ==> Right(log[..k], log[k])
  }

  lemma RightStays(log: seq<Entry>, e: Entry)
    requires AllRight(log) && Right(log, e)
    ensures AllRight(log + [e])
  {
    forall k | 0 <= k < |log| + 1 ensures Right((log + [e])[..k], (log + [e])[k]) {
      assert (log + [e])[..k] == log[..k];
      assert k == |log| ==> log[..k] == log;
    }
  }

  /** Jobs of one reader run one at a time, in the order in which they came. */
  lemma OneAtATime(log: seq<Entry>, i: nat, j: nat)
    requires AllRight(log) && i < j < |log| && log[i].Began? && log[j].Began? && log[i].reader == log[j].reader
    ensures log[i].job < log[j].job
    ensures exists k :: i < k < j && log[k] == Finished(log[i].reader, log[i].job)
  {
  }

  /** No key is notified twice. */
  lemma NotifiedOnce(log: seq<Entry>, i: nat, j: nat)
    requires AllRight(log) && i < j < |log| && log[i].Notified? && log[i].key.Some?
    ensures log[j] != log[i]
  {
  }

  /** An event is dropped as a duplicate only after one with its key was stored. */
  lemma SuppressedAfterStored(log: seq<Entry>, j: nat)
    requires AllRight(log) && j < |log| && log[j].Suppressed?
    ensures exists i :: 0 <= i < j && log[i] == Stored(Some(log[j].duplicate))
  {
  }

  // ---------- what every step keeps ----------

  /** A job's predecessor is an earlier job of its reader. */
  ghost predicate Linked(jobs: Jobs, next: nat) {
    && (forall a :: a in jobs ==> a < next)
    && (forall a :: a in jobs && jobs[a].after.Some? ==>
          jobs[a].after.value < a && jobs[a].after.value in jobs && jobs[jobs[a].after.value].reader == jobs[a].reader)
  }

  /** Each job follows the one before it on its reader, unless all of them are done. */
  ghost predicate Follows(jobs: Jobs) {
    forall a, b :: a in jobs && b in jobs && a < b && jobs[a].reader == jobs[b].reader ==>
      jobs[a].stage.Done? || (jobs[b].after.Some? && a <= jobs[b].after.value)
  }

  /** The table leads to the last job of each reader that has one to do. */
  ghost predicate Heads(jobs: Jobs, chains: map<string, nat>) {
    && (forall r :: r in chains ==> chains[r] in jobs && jobs[chains[r]].reader == r)
    && (forall a :: a in jobs ==> jobs[a].stage.Done? || (jobs[a].reader in chains && a <= chains[jobs[a].reader]))
  }

  ghost predicate Chained(jobs: Jobs, chains: map<string, nat>, next: nat) {
    Linked(jobs, next) && Follows(jobs) && Heads(jobs, chains)
  }

  /** A job has begun only if all earlier ones of its reader are done. */
  ghost predicate Serial(jobs: Jobs) {
    forall a, b :: a in jobs && b in jobs && a < b && jobs[a].reader == jobs[b].reader && !jobs[b].stage.Waiting? ==>
      jobs[a].stage.Done?
  }

  predicate NewAndRelevant(j: Job, keys: set<string>) {
    Relevant(j.event) && (KeyOf(j).Some? ==> KeyOf(j).value !in keys)
  }

  /** A job at work has a relevant event whose key is not stored yet. */
  ghost predicate Unstored(jobs: Jobs, keys: set<string>) {
    && (forall a :: a in jobs ==> '|' !in jobs[a].reader)
    && (forall a :: a in jobs && Active(jobs[a].stage) ==> NewAndRelevant(jobs[a], keys))
  }

  ghost predicate LogTells(log: seq<Entry>, jobs: Jobs) {
    && (forall a :: a in jobs ==> (jobs[a].stage.Waiting? <==> Began(jobs[a].reader, a) !in log))
    && (forall a :: a in jobs ==> (Over(jobs[a].stage) <==> Finished(jobs[a].reader, a) in log))
    && (forall e :: e in log && (e.Began? || e.Finished?) ==> e.job in jobs && jobs[e.job].reader == e.reader)
  }

  ghost predicate KeysTell(log: seq<Entry>, keys: set<string>) {
    && (forall k :: k in keys <==> Stored(Some(k)) in log)
    && (forall k :: Notified(k) in log ==> Stored(k) in log)
  }

  /** No two documents of a reader share a correlation id. */
  ghost predicate OneDocument(docs: Documents) {
    forall i, j :: i in docs && j in docs && i != j && docs[i].reader == docs[j].reader ==>
      docs[i].correlation.None? || docs[i].correlation != docs[j].correlation
  }

  predicate Exists(docs: Documents, reader: string, correlation: Option<string>) {
    exists i :: i in docs && docs[i].reader == reader && docs[i].correlation == correlation
  }

  /** What a job found out about the documents still holds; that nothing was found, as long as nobody else writes. */
  ghost predicate Holds(j: Job, docs: Documents, alone: bool) {
    match j.stage
    case Writing(found) =>
      if found then Exists(docs, j.reader, CorrelationOf(j)) else alone ==> !Exists(docs, j.reader, CorrelationOf(j))
    case Retrying => !alone && Exists(docs, j.reader, CorrelationOf(j))
    case Written => Exists(docs, j.reader, CorrelationOf(j))
    case Creating => CorrelationOf(j).None?
    case _ => true
  }

  ghost predicate LookupsHold(jobs: Jobs, docs: Documents, alone: bool) {
    forall a :: a in jobs ==> Holds(jobs[a], docs, alone)
  }

  /** A key counts as stored only when there is a document for it. */
  ghost predicate KeysHaveDocuments(keys: set<string>, docs: Documents) {
    forall k :: k in keys ==> exists i :: i in docs && docs[i].correlation == Some(k)
  }

  /** The job with its stage, or what it learned, changed. */
  predicate Advances(j: Job, next: Job) {
    && next == j.(stage := next.stage, person := next.person)
    && (j.stage.Done? ==> next.stage.Done?) && (next.stage.Waiting? ==> j.stage.Waiting?)
  }

  /** The job's predecessor is done. */
  predicate Ready(jobs: Jobs, j: Job) {
    j.after.None? || (j.after.value in jobs && jobs[j.after.value].stage.Done?)
  }

  /** All jobs before one that is ready are done. */
  lemma EarlierDone(jobs: Jobs, chains: map<string, nat>, next: nat, a: nat, b: nat)
    requires Chained(jobs, chains, next) && Serial(jobs) && a in jobs && b in jobs
    requires a < b && jobs[a].reader == jobs[b].reader && Ready(jobs, jobs[b])
    ensures jobs[a].stage.Done?
  {
    hide Heads;
  }

  lemma AdvanceKeepsLinks(jobs: Jobs, next: nat, id: nat, j: Job)
    requires Linked(jobs, next) && id in jobs && Advances(jobs[id], j)
    ensures Linked(jobs[id := j], next)
  {
  }

  lemma AdvanceKeepsHeads(jobs: Jobs, chains: map<string, nat>, id: nat, j: Job)
    requires Heads(jobs, chains) && id in jobs && Advances(jobs[id], j)
    ensures Heads(jobs[id := j], chains)
  {
  }

  lemma AdvanceKeepsChains(jobs: Jobs, chains: map<string, nat>, next: nat, id: nat, j: Job)
    requires Chained(jobs, chains, next) && id in jobs && Advances(jobs[id], j)
    ensures Chained(jobs[id := j], chains, next)
  {
    AdvanceKeepsLinks(jobs, next, id, j);
    AdvanceKeepsHeads(jobs, chains, id, j);
    hide Linked, Heads;
  }

  lemma AdvanceKeepsOrder(jobs: Jobs, chains: map<string, nat>, next: nat, id: nat, j: Job)
    requires Chained(jobs, chains, next) && Serial(jobs) && id in jobs && Advances(jobs[id], j)
    requires jobs[id].stage.Waiting? && !j.stage.Waiting? ==> Ready(jobs, jobs[id])
    ensures Chained(jobs[id := j], chains, next) && Serial(jobs[id := j])
  {
    AdvanceKeepsChains(jobs, chains, next, id, j);
    hide Linked, Follows, Heads;
    var after := jobs[id := j];
    forall a, b | a in after && b in after && a < b && after[a].reader == after[b].reader && !after[b].stage.Waiting?
      ensures after[a].stage.Done?
    {
      if b == id && jobs[id].stage.Waiting? {
        EarlierDone(jobs, chains, next, a, b);
      }
    }
  }

  lemma AdvanceKeepsLog(log: seq<Entry>, jobs: Jobs, id: nat, j: Job)
    requires LogTells(log, jobs) && id in jobs && Advances(jobs[id], j)
    requires jobs[id].stage.Waiting? == j.stage.Waiting? && Over(jobs[id].stage) == Over(j.stage)
    ensures LogTells(log, jobs[id := j])
  {
  }

  /** A job that is not at a wait claims nothing about the documents. */
  lemma NoClaim(j: Job, docs: Documents, alone: bool)
    requires !Active(j.stage)
    ensures Holds(j, docs, alone)
  {
  }

  lemma SameKey(a: Job, b: Job)
    requires a.reader == b.reader && a.event == b.event
    ensures KeyOf(a) == KeyOf(b) && CorrelationOf(a) == CorrelationOf(b)
  {
  }

  lemma Unclaimed(j: Job, docs: Documents, alone: bool)
    requires j.stage in {Uploading, Resolving, LookingUp} || (j.stage.Creating? && CorrelationOf(j).None?)
    ensures Holds(j, docs, alone)
  {
  }

  lemma OtherEntryKeepsLog(log: seq<Entry>, jobs: Jobs, e: Entry)
    requires LogTells(log, jobs) && !e.Began? && !e.Finished?
    ensures LogTells(log + [e], jobs)
  {
  }

  lemma OtherEntryKeepsKeys(log: seq<Entry>, keys: set<string>, e: Entry)
    requires KeysTell(log, keys) && !e.Stored? && !e.Notified?
    ensures KeysTell(log + [e], keys)
  {
  }

  /** A job that has begun is earlier than one that is ready, and done. */
  lemma BegunEarlier(jobs: Jobs, chains: map<string, nat>, next: nat, a: nat, id: nat)
    requires Chained(jobs, chains, next) && Serial(jobs) && a in jobs && id in jobs && !jobs[a].stage.Waiting?
    requires jobs[a].reader == jobs[id].reader && jobs[id].stage.Waiting? && Ready(jobs, jobs[id])
    ensures a < id && jobs[a].stage.Done?
  {
    if a < id {
      EarlierDone(jobs, chains, next, a, id);
    }
  }

  lemma BeginIsRight(log: seq<Entry>, jobs: Jobs, chains: map<string, nat>, next: nat, id: nat)
    requires LogTells(log, jobs) && Chained(jobs, chains, next) && Serial(jobs)
    requires id in jobs && jobs[id].stage.Waiting? && Ready(jobs, jobs[id])
    ensures Right(log, Began(jobs[id].reader, id))
  {
    hide Chained, Serial;
    forall a: nat | Began(jobs[id].reader, a) in log ensures a < id && Finished(jobs[id].reader, a) in log {
      assert a in jobs && jobs[a].reader == jobs[id].reader;
      BegunEarlier(jobs, chains, next, a, id);
    }
  }

  lemma BeginKeepsLog(log: seq<Entry>, jobs: Jobs, id: nat, j: Job)
    requires LogTells(log, jobs) && id in jobs && Advances(jobs[id], j) && jobs[id].stage.Waiting? && AtWork(j.stage)
    ensures LogTells(log + [Began(j.reader, id)], jobs[id := j])
  {
  }

  lemma EndKeepsLog(log: seq<Entry>, jobs: Jobs, id: nat, j: Job)
    requires LogTells(log, jobs) && id in jobs && Advances(jobs[id], j) && AtWork(jobs[id].stage) && Over(j.stage)
    ensures LogTells(log + [Finished(j.reader, id)], jobs[id := j]) && Right(log, Finished(j.reader, id))
  {
  }

  /** A chain is dropped once its last job is done. */
  lemma DropKeepsOrder(jobs: Jobs, chains: map<string, nat>, next: nat, id: nat)
    requires Chained(jobs, chains, next) && Serial(jobs) && id in jobs && jobs[id].stage.Done?
    requires jobs[id].reader in chains && chains[jobs[id].reader] == id
    ensures Chained(jobs, chains - {jobs[id].reader}, next)
  {
  }

  lemma NextIsNew(jobs: Jobs, chains: map<string, nat>, next: nat)
    requires Chained(jobs, chains, next)
    ensures next !in jobs
  {
  }

  lemma NewJobKeepsOrder(jobs: Jobs, chains: map<string, nat>, next: nat, j: Job)
    requires Chained(jobs, chains, next) && Serial(jobs) && j.stage.Waiting?
    requires j.after == if j.reader in chains then Some(chains[j.reader]) else None
    ensures Chained(jobs[next := j], chains[j.reader := next], next + 1) && Serial(jobs[next := j])
  {
    hide Linked, Follows, Heads;
    NewJobFollows(jobs, chains, next, j);
    NewJobLinked(jobs, chains, next, j);
    LinkedBound(jobs, next);
    assert forall a, b :: a in jobs[next := j] && b in jobs[next := j] && a < b && b != next ==> a in jobs && b in jobs;
  }

  lemma LinkedBound(jobs: Jobs, next: nat)
    requires Linked(jobs, next)
    ensures forall a :: a in jobs ==> a < next
  {
  }

  lemma NewJobLinked(jobs: Jobs, chains: map<string, nat>, next: nat, j: Job)
    requires Linked(jobs, next) && Heads(jobs, chains)
    requires j.after == if j.reader in chains then Some(chains[j.reader]) else None
    ensures Linked(jobs[next := j], next + 1) && Heads(jobs[next := j], chains[j.reader := next])
  {
    var jobs', chains' := jobs[next := j], chains[j.reader := next];
    forall a | a in jobs'
      ensures a < next + 1 && (jobs'[a].stage.Done? || (jobs'[a].reader in chains' && a <= chains'[jobs'[a].reader]))
    {
      assert a == next || (a in jobs && jobs'[a] == jobs[a]);
    }
    forall r | r in chains' ensures chains'[r] in jobs' && jobs'[chains'[r]].reader == r {
      assert r == j.reader || (chains'[r] == chains[r] && chains[r] < next);
    }
  }

  lemma NewJobFollows(jobs: Jobs, chains: map<string, nat>, next: nat, j: Job)
    requires Chained(jobs, chains, next) && j.after == if j.reader in chains then Some(chains[j.reader]) else None
    ensures Follows(jobs[next := j])
  {
    var jobs' := jobs[next := j];
    forall a, b | a in jobs' && b in jobs' && a < b && jobs'[a].reader == jobs'[b].reader
      ensures jobs'[a].stage.Done? || (jobs'[b].after.Some? && a <= jobs'[b].after.value)
    {
      assert a in jobs && jobs'[a] == jobs[a];
    }
  }

  lemma NewJobKeepsLog(log: seq<Entry>, jobs: Jobs, id: nat, j: Job)
    requires LogTells(log, jobs) && id !in jobs && j.stage.Waiting?
    ensures LogTells(log, jobs[id := j])
  {
  }

  predicate AtWork(stage: Stage) {
    !stage.Waiting? && !Over(stage)
  }

  /** Two jobs at work on one reader are the same job. */
  lemma OneAtWork(jobs: Jobs, a: nat, b: nat)
    requires Serial(jobs) && a in jobs && b in jobs && jobs[a].reader == jobs[b].reader
    requires AtWork(jobs[a].stage) && AtWork(jobs[b].stage)
    ensures a == b
  {
  }

  /** Keys of different readers differ. */
  lemma KeyTellsJob(a: Job, b: Job)
    requires '|' !in a.reader && '|' !in b.reader && Relevant(a.event) && Relevant(b.event)
    requires KeyOf(a).Some? && KeyOf(a) == KeyOf(b)
    ensures a.reader == b.reader && KeyOf(a) == CorrelationOf(a)
  {
    DedupKeyIsCorrelationId(a.reader, a.event.data.value);
    DedupKeyIsCorrelationId(b.reader, b.event.data.value);
    KeyTellsReader(a.reader, a.event.data.value, b.reader, b.event.data.value);
  }

  /** Where a job goes when its turn has come. */
  function FirstStage(j: Job, keys: set<string>): Stage {
    if !Relevant(j.event) || (KeyOf(j).Some? && KeyOf(j).value in keys) || j.event.data.value.faceId.None? then Ended
    else if j.hasImage then Uploading
    else Resolving
  }

  function FirstEntries(j: Job, id: nat, keys: set<string>): seq<Entry> {
    [Began(j.reader, id)] +
    if !Relevant(j.event) then [Finished(j.reader, id)]
    else if KeyOf(j).Some? && KeyOf(j).value in keys then [Suppressed(KeyOf(j).value), Finished(j.reader, id)]
    else if j.event.data.value.faceId.None? then [Finished(j.reader, id)]
    else []
  }

  lemma RelevantHasData(e: Event)
    ensures Relevant(e) ==> e.data.Some?
  {
  }

  // ---------- documents ----------

  lemma InsertKeepsOne(docs: Documents, n: nat, d: Document)
    requires OneDocument(docs) && n !in docs && (d.correlation.Some? ==> !Exists(docs, d.reader, d.correlation))
    ensures OneDocument(docs[n := d]) && Exists(docs[n := d], d.reader, d.correlation)
  {
    var after := docs[n := d];
    assert n in after && after[n] == d;
  }

  /** A new document contradicts only those who rely on there being none. */
  lemma InsertKeepsHolds(j: Job, docs: Documents, n: nat, d: Document, alone: bool)
    requires Holds(j, docs, alone) && n !in docs
    requires j.stage == Writing(false) && alone ==> d.reader != j.reader || d.correlation != CorrelationOf(j)
    ensures Holds(j, docs[n := d], alone)
  {
    hide CorrelationOf;
    var after := docs[n := d];
    if Exists(docs, j.reader, CorrelationOf(j)) {
      var i :| i in docs && docs[i].reader == j.reader && docs[i].correlation == CorrelationOf(j);
      assert i in after && after[i] == docs[i];
    }
  }

  lemma InsertKeepsKeys(keys: set<string>, docs: Documents, n: nat, d: Document)
    requires KeysHaveDocuments(keys, docs) && n !in docs
    ensures KeysHaveDocuments(keys, docs[n := d])
  {
    var after := docs[n := d];
    forall k | k in keys ensures exists i :: i in after && after[i].correlation == Some(k) {
      var i :| i in docs && docs[i].correlation == Some(k);
      assert i in after && after[i] == docs[i];
    }
  }

  /** Rewriting a document under its own key. */
  lemma RewriteKeeps(keys: set<string>, docs: Documents, i: nat, d: Document)
    requires OneDocument(docs) && KeysHaveDocuments(keys, docs)
    requires i in docs && docs[i].reader == d.reader && docs[i].correlation == d.correlation
    ensures OneDocument(docs[i := d]) && KeysHaveDocuments(keys, docs[i := d])
    ensures forall r, c :: Exists(docs[i := d], r, c) == Exists(docs, r, c)
  {
    var after := docs[i := d];
    forall k | k in keys ensures exists n :: n in after && after[n].correlation == Some(k) {
      var n :| n in docs && docs[n].correlation == Some(k);
      assert n in after && after[n].correlation == docs[n].correlation;
    }
    forall r, c ensures Exists(after, r, c) == Exists(docs, r, c) {
      if Exists(docs, r, c) {
        var n :| n in docs && docs[n].reader == r && docs[n].correlation == c;
        assert n in after && after[n].reader == r && after[n].correlation == c;
      }
      if Exists(after, r, c) {
        var n :| n in after && after[n].reader == r && after[n].correlation == c;
        assert n in docs && docs[n].reader == r && docs[n].correlation == c;
      }
    }
  }

  lemma RewriteKeepsHolds(jobs: Jobs, docs: Documents, after: Documents, alone: bool)
    requires LookupsHold(jobs, docs, alone) && forall r, c :: Exists(after, r, c) == Exists(docs, r, c)
    ensures LookupsHold(jobs, after, alone)
  {
  }

  function DataOf(j: Job): EventData {
    if j.event.data.Some? then j.event.data.value else EventData("", None, None, None, None, None, None, None, None)
  }

  function DocumentOf(j: Job): Document {
    Document(j.reader, CorrelationOf(j), j.event)
  }

  /** One document is written: a new one, or the one with the same key again. */
  ghost predicate OneWritten(docs: Documents, after: Documents, d: Document) {
    exists n: nat :: after == docs[n := d] && (n in docs ==> docs[n].reader == d.reader && docs[n].correlation == d.correlation)
  }

  lemma WrittenHolds(j: Job, docs: Documents, alone: bool)
    requires j.stage.Written? && Exists(docs, j.reader, CorrelationOf(j))
    ensures Holds(j, docs, alone)
  {
  }

  /** A job's own document does not contradict what other jobs found. */
  lemma InsertByKeepsHolds(jobs: Jobs, id: nat, docs: Documents, n: nat, d: Document, alone: bool)
    requires LookupsHold(jobs, docs, alone) && Serial(jobs) && n !in docs
    requires id in jobs && AtWork(jobs[id].stage) && d == DocumentOf(jobs[id])
    ensures forall a :: a in jobs && a != id ==> Holds(jobs[a], docs[n := d], alone)
  {
    hide CorrelationOf, Exists;
    forall a | a in jobs && a != id ensures Holds(jobs[a], docs[n := d], alone) {
      if jobs[a].stage == Writing(false) && jobs[a].reader == jobs[id].reader {
        OneAtWork(jobs, a, id);
      }
      InsertKeepsHolds(jobs[a], docs, n, d, alone);
    }
  }

  // ---------- keys ----------

  /** Storing a key concerns no other job at a wait. */
  lemma StoreKeepsUnstored(jobs: Jobs, keys: set<string>, id: nat, key: string)
    requires Unstored(jobs, keys) && Serial(jobs) && id in jobs && AtWork(jobs[id].stage) && !Active(jobs[id].stage)
    requires Relevant(jobs[id].event) && KeyOf(jobs[id]) == Some(key)
    ensures Unstored(jobs, keys + {key})
  {
    hide KeyOf, Relevant;
    forall a | a in jobs && Active(jobs[a].stage) ensures NewAndRelevant(jobs[a], keys + {key}) {
      assert NewAndRelevant(jobs[a], keys);
      if KeyOf(jobs[a]) == Some(key) {
        KeyTellsJob(jobs[a], jobs[id]);
        OneAtWork(jobs, a, id);
      }
    }
  }

  lemma StoreKeepsDocuments(keys: set<string>, docs: Documents, j: Job, key: string)
    requires KeysHaveDocuments(keys, docs) && Relevant(j.event) && KeyOf(j) == Some(key)
    requires Exists(docs, j.reader, CorrelationOf(j))
    ensures KeysHaveDocuments(keys + {key}, docs)
  {
  }

  /** Keys after an event was stored. */
  function WithKey(keys: set<string>, key: Option<string>): set<string> {
    if key.Some? then keys + {key.value} else keys
  }

  lemma StoredTells(log: seq<Entry>, keys: set<string>, key: Option<string>)
    requires KeysTell(log, keys)
    ensures KeysTell(log + [Stored(key)], WithKey(keys, key))
  {
  }

  lemma NotifiedTells(log: seq<Entry>, keys: set<string>, key: Option<string>)
    requires KeysTell(log, keys) && Stored(key) in log
    ensures KeysTell(log + [Notified(key)], keys)
  {
  }

  /** A key that is not stored was never notified. */
  lemma NotNotified(log: seq<Entry>, keys: set<string>, key: string)
    requires KeysTell(log, keys) && key !in keys
    ensures Notified(Some(key)) !in log
  {
  }

  lemma SameAnnouncement(a: Job, b: Job, stale: bool)
    requires a.event == b.event && a.person == b.person
    ensures Announced(a, stale) == Announced(b, stale)
  {
  }

  lemma NotAlone(j: Job, docs: Documents, alone: bool)
    requires Holds(j, docs, alone)
    ensures Holds(j, docs, false)
  {
  }

  /** Denied accesses are announced only for blocked people. */
  predicate Announced(j: Job, stale: bool) {
    !stale && (Denied(DataOf(j)) ==> j.person.Some? && j.person.value.blocked)
  }

  lemma AnnouncedIf(j: Job, stale: bool)
    ensures var data := j.event.data;
            var denied := data.Some? && data.value.status.Some? && data.value.status.value != 1;
            Announced(j, stale) <==> !stale && (!denied || (j.person.Some? && j.person.value.blocked))
  {
  }

  // ---------- the service ----------

  class AccessesService {
    /** The last job of a reader that still has one. */
    var persistChains: map<string, nat>
    var persistedEventKeys: set<string>
    var jobs: Jobs
    var nextJob: nat
    /** The collection of documents, shared with other processes. */
    var documents: Documents
    var nextDocument: nat
    /** No other process has written yet. */
    ghost var alone: bool
    ghost var log: seq<Entry>

    ghost predicate Valid()
      reads this
    {
      && Chained(jobs, persistChains, nextJob) && Serial(jobs) && Unstored(jobs, persistedEventKeys)
      && AllRight(log) && LogTells(log, jobs) && KeysTell(log, persistedEventKeys)
      && OneDocument(documents) && (forall i :: i in documents ==> i < nextDocument)
      && LookupsHold(jobs, documents, alone) && KeysHaveDocuments(persistedEventKeys, documents)
    }

    constructor ()
      ensures Valid() && log == [] && jobs == map[] && documents == map[] && alone
    {
      persistChains, persistedEventKeys, jobs, nextJob := map[], {}, map[], 0;
      documents, nextDocument, alone, log := map[], 0, true, [];
    }

    ghost method Append(e: Entry)
      requires AllRight(log) && Right(log, e)
      modifies this`log
      ensures AllRight(log) && log == old(log) + [e]
    {
      RightStays(log, e);
      log := log + [e];
    }

    /** An event arrives; its job is put behind the last one of the reader. */
    method RecordSnapManagerAccess(reader: string, event: Event, hasImage: bool) returns (id: nat)
      requires Valid() && '|' !in reader
      modifies this
      ensures Valid() && log == old(log) && documents == old(documents) && alone == old(alone)
      ensures id == old(nextJob) && id !in old(jobs)
      ensures jobs.Keys == old(jobs).Keys + {id} && forall a :: a in old(jobs) ==> jobs[a] == old(jobs)[a]
      ensures jobs[id].stage == Waiting
      ensures jobs[id].reader == reader && jobs[id].event == event && jobs[id].hasImage == hasImage
    {
      hide AllRight, OneDocument, KeysTell, NewAndRelevant, KeysHaveDocuments, Chained, Serial, LogTells;
      id := nextJob;
      var after := if reader in persistChains then Some(persistChains[reader]) else None;
      var job := Job(reader, event, hasImage, after, None, Waiting);
      assert id !in jobs by {
        NextIsNew(jobs, persistChains, nextJob);
      }
      NewJobKeepsOrder(jobs, persistChains, nextJob, job);
      NewJobKeepsLog(log, jobs, id, job);
      jobs := jobs[id := job];
      persistChains := persistChains[reader := id];
      nextJob := nextJob + 1;
    }

    /** The job goes from one wait to another. */
    method Move(id: nat, next: Job)
      requires Valid() && id in jobs && AtWork(jobs[id].stage) && AtWork(next.stage)
      requires next == jobs[id].(stage := next.stage, person := next.person)
      requires Active(next.stage) ==> NewAndRelevant(next, persistedEventKeys)
      requires Holds(next, documents, alone)
      modifies this`jobs
      ensures Valid() && jobs == old(jobs)[id := next]
    {
      hide AllRight, OneDocument, KeysTell, NewAndRelevant, KeysHaveDocuments, Chained, Serial, LogTells, Holds;
      AdvanceKeepsOrder(jobs, persistChains, nextJob, id, next);
      AdvanceKeepsLog(log, jobs, id, next);
      jobs := jobs[id := next];
    }

    /** The job's work is over. */
    method End(id: nat)
      requires Valid() && id in jobs && AtWork(jobs[id].stage)
      modifies this`jobs, this`log
      ensures Valid() && jobs == old(jobs)[id := old(jobs)[id].(stage := Ended)]
      ensures log == old(log) + [Finished(jobs[id].reader, id)]
    {
      hide KeysTell, AllRight, OneDocument, NewAndRelevant, KeysHaveDocuments, Chained, Serial, LogTells, Holds;
      var job := jobs[id].(stage := Ended);
      AdvanceKeepsOrder(jobs, persistChains, nextJob, id, job);
      EndKeepsLog(log, jobs, id, job);
      OtherEntryKeepsKeys(log, persistedEventKeys, Finished(job.reader, id));
      NoClaim(job, documents, alone);
      Append(Finished(job.reader, id));
      jobs := jobs[id := job];
    }

    /** The promise of the job settles; its chain is dropped if nothing follows. */
    method Settle(id: nat)
      requires Valid() && id in jobs && jobs[id].stage.Ended?
      modifies this`jobs, this`persistChains
      ensures Valid() && jobs == old(jobs)[id := old(jobs)[id].(stage := Done)]
    {
      hide AllRight, OneDocument, KeysTell, NewAndRelevant, KeysHaveDocuments, Chained, Serial, LogTells, Holds;
      var job := jobs[id].(stage := Done);
      AdvanceKeepsOrder(jobs, persistChains, nextJob, id, job);
      AdvanceKeepsLog(log, jobs, id, job);
      NoClaim(job, documents, alone);
      jobs := jobs[id := job];
      if job.reader in persistChains && persistChains[job.reader] == id {
        DropKeepsOrder(jobs, persistChains, nextJob, id);
        persistChains := persistChains - {job.reader};
      }
    }

    /** The job's turn has come. */
    method StartRunning(id: nat)
      requires Valid() && id in jobs && jobs[id].stage.Waiting? && Ready(jobs, jobs[id])
      modifies this`jobs, this`log
      ensures Valid() && jobs == old(jobs)[id := old(jobs)[id].(stage := Running)]
      ensures log == old(log) + [Began(jobs[id].reader, id)]
    {
      hide KeysTell, AllRight, OneDocument, KeysHaveDocuments, Chained, Serial, LogTells, Holds;
      var job := jobs[id].(stage := Running);
      BeginIsRight(log, jobs, persistChains, nextJob, id);
      BeginKeepsLog(log, jobs, id, job);
      AdvanceKeepsOrder(jobs, persistChains, nextJob, id, job);
      OtherEntryKeepsKeys(log, persistedEventKeys, Began(job.reader, id));
      NoClaim(job, documents, alone);
      Append(Began(job.reader, id));
      jobs := jobs[id := job];
    }

    /** The drop of a duplicate is noted. */
    ghost method Suppress(key: string)
      requires Valid() && key in persistedEventKeys
      modifies this`log
      ensures Valid() && log == old(log) + [Suppressed(key)]
    {
      hide AllRight, OneDocument, KeysHaveDocuments, Chained, Serial, Holds;
      OtherEntryKeepsKeys(log, persistedEventKeys, Suppressed(key));
      OtherEntryKeepsLog(log, jobs, Suppressed(key));
      Append(Suppressed(key));
    }

    /** The early returns for events that are not looked at. */
    static method Irrelevant(event: Event) returns (dropped: bool)
      ensures dropped <==> !Relevant(event)
    {
      if event.code != DoorFace && event.code != AccessControl {
        return true;
      }
      if event.code == DoorFace && event.action != Pulse {
        return true;
      }
      if event.code == AccessControl && event.action != Pulse && event.action != Start {
        return true;
      }
      if event.data == None {
        return true;
      }
      var data := event.data.value;
      if data.userId == "" {
        return true;
      }
      var denied := data.status.Some? && data.status.value != 1;
      return !denied && (data.similarity.None? || data.similarity.value <= 0.0);
    }

    /** The job before it is done: the event is checked and either dropped or taken to the first wait. */
    method Begin(id: nat)
      requires Valid() && id in jobs && jobs[id].stage.Waiting? && Ready(jobs, jobs[id])
      modifies this`jobs, this`log
      ensures Valid() && jobs == old(jobs)[id := old(jobs)[id].(stage := FirstStage(old(jobs)[id], persistedEventKeys))]
      ensures log == old(log) + FirstEntries(old(jobs)[id], id, persistedEventKeys)
    {
      hide AccessesService.Valid, Holds, KeyOf, Relevant;
      RelevantHasData(jobs[id].event);
      StartRunning(id);
      var job := jobs[id];
      assert KeyOf(job) == KeyOf(old(jobs)[id]) by {
        SameKey(job, old(jobs)[id]);
      }
      var dropped := Irrelevant(job.event);
      if dropped {
        End(id);
        return;
      }
      var key := KeyOf(job);
      if key.Some? && key.value in persistedEventKeys {
        Suppress(key.value);
        End(id);
        return;
      }
      if job.event.data.value.faceId.None? {
        End(id);
        return;
      }
      var started := job.(stage := if job.hasImage then Uploading else Resolving);
      SameKey(started, job);
      Unclaimed(started, documents, alone);
      Move(id, started);
    }

    method UploadEnds(id: nat)
      requires Valid() && id in jobs && jobs[id].stage.Uploading?
      modifies this`jobs
      ensures Valid() && jobs == old(jobs)[id := old(jobs)[id].(stage := Resolving)]
    {
      hide AllRight, OneDocument, KeysTell, KeysHaveDocuments, Chained, Serial, LogTells, Holds, Relevant, KeyOf;
      var job := jobs[id].(stage := Resolving);
      Unclaimed(job, documents, alone);
      SameKey(job, jobs[id]);
      assert NewAndRelevant(jobs[id], persistedEventKeys);
      Move(id, job);
    }

    /** The person is known, or not; a denied stranger is dropped. */
    method ResolveEnds(id: nat, person: Option<Person>)
      requires Valid() && id in jobs && jobs[id].stage.Resolving?
      modifies this`jobs, this`log
      ensures Valid()
      ensures var job := old(jobs)[id];
              if Denied(DataOf(job)) && person.None? then
                jobs == old(jobs)[id := job.(stage := Ended)] && log == old(log) + [Finished(job.reader, id)]
              else
                && jobs == old(jobs)[id := job.(person := person, stage := if CorrelationOf(job).Some? then LookingUp else Creating)]
                && log == old(log)
    {
      hide AllRight, OneDocument, KeysTell, KeysHaveDocuments, Chained, Serial, LogTells, Holds, Relevant, KeyOf, CorrelationOf;
      var job := jobs[id];
      var data := job.event.data;
      var denied := data.Some? && data.value.status.Some? && data.value.status.value != 1;
      if denied && person.None? {
        End(id);
        return;
      }
      var next := job.(person := person, stage := if CorrelationOf(job).Some? then LookingUp else Creating);
      SameKey(next, job);
      Unclaimed(next, documents, alone);
      assert NewAndRelevant(job, persistedEventKeys);
      Move(id, next);
    }

    /** The first half of the update-or-insert. */
    method LookUp(id: nat)
      requires Valid() && id in jobs && jobs[id].stage.LookingUp?
      modifies this`jobs
      ensures Valid()
      ensures var job := old(jobs)[id];
              jobs == old(jobs)[id := job.(stage := Writing(Exists(documents, job.reader, CorrelationOf(job))))]
    {
      hide AllRight, OneDocument, KeysTell, KeysHaveDocuments, Chained, Serial, LogTells, Relevant, KeyOf, CorrelationOf;
      var job := jobs[id];
      var correlation := CorrelationOf(job);
      var found := exists i :: i in documents && documents[i].reader == job.reader && documents[i].correlation == correlation;
      assert found == Exists(documents, job.reader, correlation);
      var next := job.(stage := Writing(found));
      SameKey(next, job);
      assert NewAndRelevant(job, persistedEventKeys);
      Move(id, next);
    }

    /** A new document for the job. */
    method Insert(id: nat)
      requires Valid() && id in jobs && jobs[id].stage in {Writing(false), Creating}
      requires CorrelationOf(jobs[id]).Some? ==> !Exists(documents, jobs[id].reader, CorrelationOf(jobs[id]))
      modifies this
      ensures Valid() && log == old(log) && alone == old(alone)
      ensures jobs == old(jobs)[id := old(jobs)[id].(stage := Written)]
      ensures old(nextDocument) !in old(documents)
      ensures documents == old(documents)[old(nextDocument) := DocumentOf(jobs[id])]
    {
      hide AllRight, OneDocument, KeysTell, KeysHaveDocuments, Chained, Serial, LogTells, Relevant, KeyOf, Exists, Holds;
      var job := jobs[id];
      var next := job.(stage := Written);
      SameKey(next, job);
      assert NewAndRelevant(job, persistedEventKeys);
      var busy := job.(stage := Running);
      NoClaim(busy, documents, alone);
      Move(id, busy);
      var doc := Document(busy.reader, CorrelationOf(busy), busy.event);
      SameKey(busy, job);
      InsertKeepsOne(documents, nextDocument, doc);
      InsertKeepsKeys(persistedEventKeys, documents, nextDocument, doc);
      InsertByKeepsHolds(jobs, id, documents, nextDocument, doc, alone);
      documents := documents[nextDocument := doc];
      nextDocument := nextDocument + 1;
      NoClaim(busy, documents, alone);
      WrittenHolds(next, documents, alone);
      Move(id, next);
    }

    /** The document of the job's key is written again. */
    method Rewrite(id: nat) returns (n: nat)
      requires Valid() && id in jobs && jobs[id].stage in {Writing(true), Retrying}
      modifies this
      ensures Valid() && log == old(log) && alone == old(alone)
      ensures jobs == old(jobs)[id := old(jobs)[id].(stage := Written)]
      ensures n in old(documents) && old(documents)[n].reader == jobs[id].reader
      ensures old(documents)[n].correlation == CorrelationOf(jobs[id])
      ensures documents == old(documents)[n := DocumentOf(jobs[id])]
    {
      hide AllRight, OneDocument, KeysTell, KeysHaveDocuments, Chained, Serial, LogTells, Relevant, KeyOf, CorrelationOf;
      var job := jobs[id];
      var next := job.(stage := Written);
      SameKey(next, job);
      assert NewAndRelevant(job, persistedEventKeys);
      assert Holds(job, documents, alone);
      n :| n in documents && documents[n].reader == job.reader && documents[n].correlation == CorrelationOf(job);
      var doc := Document(job.reader, CorrelationOf(job), job.event);
      RewriteKeeps(persistedEventKeys, documents, n, doc);
      RewriteKeepsHolds(jobs, documents, documents[n := doc], alone);
      hide Exists, Holds;
      documents := documents[n := doc];
      WrittenHolds(next, documents, alone);
      Move(id, next);
    }

    /**
     * The second half: what was found is rewritten, otherwise a document is inserted. The unique index
     * refuses the insertion only if another process was faster.
     */
    method WriteDocument(id: nat)
      requires Valid() && id in jobs && jobs[id].stage.Writing?
      modifies this
      ensures Valid() && log == old(log) && alone == old(alone)
      ensures jobs == old(jobs)[id := old(jobs)[id].(stage := jobs[id].stage)]
      ensures jobs[id].stage in {Written, Retrying} && (alone ==> jobs[id].stage == Written)
      ensures jobs[id].stage == Retrying ==> documents == old(documents)
      ensures jobs[id].stage == Written ==> OneWritten(old(documents), documents, DocumentOf(jobs[id]))
    {
      hide AllRight, OneDocument, KeysTell, KeysHaveDocuments, Chained, Serial, LogTells, Relevant, KeyOf, CorrelationOf, Exists;
      var job := jobs[id];
      assert Holds(job, documents, alone);
      assert NewAndRelevant(job, persistedEventKeys);
      if job.stage.found {
        var n := Rewrite(id);
      } else if Exists(documents, job.reader, CorrelationOf(job)) {
        var next := job.(stage := Retrying);
        SameKey(next, job);
        Move(id, next);
      } else {
        Insert(id);
      }
    }

    /** An operation on the collection fails for another reason; the error ends the job. */
    method Fail(id: nat)
      requires Valid() && id in jobs && jobs[id].stage in {LookingUp, Writing(true), Writing(false), Retrying, Creating}
      modifies this`jobs, this`log
      ensures Valid() && jobs == old(jobs)[id := old(jobs)[id].(stage := Ended)]
      ensures log == old(log) + [Finished(jobs[id].reader, id)]
    {
      End(id);
    }

    /** An event without a correlation id gets a document of its own. */
    method Create(id: nat)
      requires Valid() && id in jobs && jobs[id].stage.Creating?
      modifies this
      ensures Valid() && log == old(log) && alone == old(alone)
      ensures jobs == old(jobs)[id := old(jobs)[id].(stage := Written)]
      ensures documents == old(documents)[old(nextDocument) := DocumentOf(jobs[id])] && old(nextDocument) !in old(documents)
    {
      hide AllRight, OneDocument, KeysTell, KeysHaveDocuments, Chained, Serial, LogTells, Relevant, KeyOf, CorrelationOf, Exists;
      assert Holds(jobs[id], documents, alone);
      Insert(id);
    }

    /** The document is there: the key counts as stored, and the access is announced unless it is old. */
    method Conclude(id: nat, stale: bool)
      requires Valid() && id in jobs && jobs[id].stage.Written?
      modifies this
      ensures Valid() && documents == old(documents) && alone == old(alone)
      ensures jobs == old(jobs)[id := old(jobs)[id].(stage := Ended)]
      ensures persistedEventKeys == WithKey(old(persistedEventKeys), KeyOf(jobs[id]))
      ensures log == old(log) + [Stored(KeyOf(jobs[id]))]
                     + (if Announced(jobs[id], stale) then [Notified(KeyOf(jobs[id]))] else [])
                     + [Finished(jobs[id].reader, id)]
    {
      hide AccessesService.Valid, KeyOf, NewAndRelevant, Exists, Announced, DataOf;
      var was := jobs[id];
      Resume(id);
      var job := jobs[id];
      SameKey(job, was);
      SameKey(job.(stage := Ended), was);
      Store(id);
      AnnouncedIf(was, stale);
      if !stale {
        var data := job.event.data;
        var denied := data.Some? && data.value.status.Some? && data.value.status.value != 1;
        var blocked := job.person.Some? && job.person.value.blocked;
        if !denied || blocked {
          Notify(KeyOf(job));
        }
      }
      End(id);
      SameAnnouncement(was, jobs[id], stale);
    }

    /** The job goes on after its document was written. */
    method Resume(id: nat)
      requires Valid() && id in jobs && jobs[id].stage.Written?
      modifies this`jobs
      ensures Valid() && jobs == old(jobs)[id := old(jobs)[id].(stage := Running)]
      ensures NewAndRelevant(jobs[id], persistedEventKeys) && Exists(documents, jobs[id].reader, CorrelationOf(jobs[id]))
    {
      hide AllRight, OneDocument, KeysTell, KeysHaveDocuments, Chained, Serial, LogTells, Relevant, KeyOf, CorrelationOf, Exists;
      var job := jobs[id];
      assert Holds(job, documents, alone) && NewAndRelevant(job, persistedEventKeys);
      var busy := job.(stage := Running);
      NoClaim(busy, documents, alone);
      SameKey(busy, job);
      Move(id, busy);
    }

    /** The key of a job counts as stored from now on. */
    method Store(id: nat)
      requires Valid() && id in jobs && jobs[id].stage.Running?
      requires NewAndRelevant(jobs[id], persistedEventKeys) && Exists(documents, jobs[id].reader, CorrelationOf(jobs[id]))
      modifies this`persistedEventKeys, this`log
      ensures Valid() && persistedEventKeys == WithKey(old(persistedEventKeys), KeyOf(jobs[id]))
      ensures log == old(log) + [Stored(KeyOf(jobs[id]))] && (KeyOf(jobs[id]).Some? ==> Notified(KeyOf(jobs[id])) !in log)
    {
      hide AllRight, OneDocument, KeysTell, KeysHaveDocuments, Chained, Serial, LogTells, Relevant, KeyOf, CorrelationOf;
      hide Exists, Unstored, LookupsHold;
      var key := KeyOf(jobs[id]);
      StoredTells(log, persistedEventKeys, key);
      OtherEntryKeepsLog(log, jobs, Stored(key));
      if key.Some? {
        NotNotified(log, persistedEventKeys, key.value);
        StoreKeepsUnstored(jobs, persistedEventKeys, id, key.value);
        StoreKeepsDocuments(persistedEventKeys, documents, jobs[id], key.value);
      }
      Append(Stored(key));
      persistedEventKeys := WithKey(persistedEventKeys, key);
    }

    /** Listeners are told of an access that was just stored. */
    ghost method Notify(key: Option<string>)
      requires Valid() && Stored(key) in log && (key.Some? ==> Notified(key) !in log)
      modifies this`log
      ensures Valid() && log == old(log) + [Notified(key)]
    {
      hide AllRight, OneDocument, KeysTell, KeysHaveDocuments, Chained, Serial, LogTells;
      NotifiedTells(log, persistedEventKeys, key);
      OtherEntryKeepsLog(log, jobs, Notified(key));
      Append(Notified(key));
    }

    /** Another process writes a document; the unique index keeps it from repeating a key. */
    method OtherProcessWrites(doc: Document)
      requires Valid() && (doc.correlation.Some? ==> !Exists(documents, doc.reader, doc.correlation))
      modifies this
      ensures Valid() && !alone && jobs == old(jobs) && log == old(log)
      ensures documents == old(documents)[old(nextDocument) := doc]
    {
      hide AllRight, OneDocument, KeysTell, KeysHaveDocuments, Chained, Serial, LogTells, Exists, Holds;
      InsertKeepsOne(documents, nextDocument, doc);
      InsertKeepsKeys(persistedEventKeys, documents, nextDocument, doc);
      forall a | a in jobs ensures Holds(jobs[a], documents[nextDocument := doc], false) {
        NotAlone(jobs[a], documents, alone);
        InsertKeepsHolds(jobs[a], documents, nextDocument, doc, false);
      }
      alone := false;
      documents := documents[nextDocument := doc];
      nextDocument := nextDocument + 1;
    }
  }
}
