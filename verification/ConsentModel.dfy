/**
 * Access of minors that need an adult's consent: the tables, who may be on the readers, and the
 * transactions that change either, as interleaved steps under row locks and per-face advisory locks.
 */
module ConsentModel {
  import opened Wrappers

  type Reg = nat
  type Face = nat
  type Reader = nat
  type ConsentId = nat
  type TxId = nat

  datatype Status = Draft | Approved | Blocked | Rejected

  /** A person's registration; `minor` is true while the age is unknown or below 18. */
  datatype Registration = Registration(
    required: bool, removalPending: bool, isActive: bool, status: Status, minor: bool,
    faceId: Option<Face>, memberFaces: set<Face>)

  /** A consent; `valid` says that its adult still fulfils the conditions. */
  datatype Consent = Consent(child: Reg, valid: bool, revoked: bool)

  datatype Db = Db(regs: map<Reg, Registration>, tracked: set<(Reg, Face)>, consents: map<ConsentId, Consent>)

  // ---------- queries ----------

  function FaceSet(o: Option<Face>): set<Face> {
    if o.None? then {} else {o.value}
  }

  /** All faces known for a registration: its own, its members' and the recorded ones. */
  function FaceIds(db: Db, r: Reg): set<Face>
    requires r in db.regs
  {
    FaceSet(db.regs[r].faceId) + db.regs[r].memberFaces + (set p | p in db.tracked && p.0 == r :: p.1)
  }

  function RegistrationsByFace(db: Db, f: Face): set<Reg> {
    set r | r in db.regs && (db.regs[r].faceId == Some(f) || (r, f) in db.tracked || f in db.regs[r].memberFaces)
  }

  ghost predicate HasConsent(db: Db, r: Reg) {
    exists c :: c in db.consents && db.consents[c] == Consent(r, true, false)
  }

  predicate NeedsApproval(x: Registration) {
    x.required && x.minor
  }

  /** A registration keeps its faces off the readers. */
  predicate Blocks(x: Registration, consented: bool) {
    || (x.removalPending && (!x.isActive || x.status == Rejected))
    || (NeedsApproval(x) && (!x.isActive || x.status !in {Approved, Blocked} || !consented))
  }

  ghost predicate BlocksIn(db: Db, r: Reg)
    requires r in db.regs
  {
    Blocks(db.regs[r], HasConsent(db, r))
  }

  /** No registration linked to the face blocks it. */
  ghost predicate FaceAllowed(db: Db, f: Face) {
    forall r :: r in RegistrationsByFace(db, f) ==> !BlocksIn(db, r)
  }

  /** The two lookups are inverse. */
  lemma LookupsAreInverse(db: Db, r: Reg, f: Face)
    requires r in db.regs
    ensures f in FaceIds(db, r) <==> r in RegistrationsByFace(db, f)
  {
  }

  // ---------- writes ----------

  /** Records the faces currently known for a registration. */
  function RememberFaces(db: Db, r: Reg): Db
    requires r in db.regs
  {
    db.(tracked := db.tracked + set f | f in FaceIds(db, r) :: (r, f))
  }

  function Patch(db: Db, r: Reg, x: Registration): Db
    requires r in db.regs
  {
    db.(regs := db.regs[r := x])
  }

  function RevokeConsent(db: Db, c: ConsentId): Db {
    if c in db.consents then db.(consents := db.consents[c := db.consents[c].(revoked := true)]) else db
  }

  /** What a transaction on a registration is about to do. */
  datatype Change =
    | Accept(consent: ConsentId)
    | Revoke(consent: ConsentId)
    | RejectIfUnauthorized
    | Regularize
    | Sweep(consent: ConsentId)

  /** Rejecting an unauthorized minor, with the durable intent to remove the faces. */
  function RejectedFor(x: Registration): Registration {
    x.(status := Rejected, removalPending := true)
  }

  /** The writes of a change, all visible at once when it commits. */
  function Written(db: Db, r: Reg, change: Change, reject: bool): Db
    requires r in db.regs
  {
    match change
    case Accept(c) => RememberFaces(db.(consents := db.consents[c := Consent(r, true, false)]), r)
    case Revoke(c) =>
      var revoked := RememberFaces(RevokeConsent(db, c), r);
      if reject then Patch(revoked, r, RejectedFor(db.regs[r])) else revoked
    case RejectIfUnauthorized => if reject then Patch(RememberFaces(db, r), r, RejectedFor(db.regs[r])) else db
    case Regularize => Patch(RememberFaces(db, r), r, RejectedFor(db.regs[r]).(required := true))
    case Sweep(c) => Patch(RevokeConsent(db, c), r, db.regs[r].(removalPending := true))
  }

  /** Conditions a change reads before it writes. */
  ghost predicate MayChange(db: Db, r: Reg, change: Change)
    requires r in db.regs
  {
    match change
    case Accept(c) => c !in db.consents && NeedsApproval(db.regs[r]) && db.regs[r].isActive
    case Revoke(c) => c in db.consents && db.consents[c].child == r
    case RejectIfUnauthorized => true
    case Regularize =>
      var x := db.regs[r];
      x.isActive && x.status == Approved && x.minor && !x.required
    case Sweep(c) => c in db.consents && db.consents[c].child == r
  }

  /** No valid consent is left after the change. */
  ghost predicate LeftWithout(db: Db, r: Reg, change: Change) {
    !HasConsent(if change.Revoke? then RevokeConsent(db, change.consent) else db, r)
  }

  ghost predicate Unauthorized(db: Db, r: Reg, change: Change)
    requires r in db.regs
  {
    NeedsApproval(db.regs[r]) && LeftWithout(db, r, change)
  }

  /** `rejectIfUnauthorized`: an already rejected registration is left as it is. */
  ghost predicate MustReject(db: Db, r: Reg, change: Change)
    requires r in db.regs
  {
    (change.Revoke? || change.RejectIfUnauthorized?) && Unauthorized(db, r, change) && db.regs[r].status != Rejected
  }

  // ---------- transactions and steps ----------

  datatype Decision = Undecided | Decided(reject: bool)

  datatype Tx =
    | Syncing(face: Face, allowed: bool)
    | Changing(reg: Reg, change: Change, faces: set<Face>, decision: Decision)
    | Removing(reg: Reg, faces: set<Face>, done: set<Face>, current: Option<Face>)

  datatype Sys = Sys(
    db: Db, readers: map<Reader, set<Face>>, rowLocks: map<Reg, TxId>, faceLocks: map<Face, TxId>, txs: map<TxId, Tx>)

  datatype Step =
    | Remember(reg: Reg)
    | StartSync(tx: TxId, face: Face)
    | CheckSync(tx: TxId)
    | Write(tx: TxId, reader: Reader)
    | Erase(tx: TxId, reader: Reader)
    | Begin(tx: TxId, reg: Reg, change: Change)
    | Decide(tx: TxId)
    | Commit(tx: TxId)
    | BeginRemoval(tx: TxId, reg: Reg)
    | SkipFace(tx: TxId, face: Face)
    | PickFace(tx: TxId, face: Face)
    | RemoveFrom(tx: TxId, reader: Reader)
    | FaceGone(tx: TxId)
    | CommitRemoval(tx: TxId)
    | LockFace(tx: TxId, face: Face)
    | End(tx: TxId)
    | Approve(reg: Reg, status: Status)
    | ComeOfAge(reg: Reg)
    | Relink(reg: Reg, faceId: Option<Face>, memberFaces: set<Face>)

  function Wanted(tx: Tx): set<Face> {
    if tx.Syncing? then {tx.face} else tx.faces
  }

  predicate Holds(s: Sys, t: TxId, faces: set<Face>) {
    forall f :: f in faces ==> f in s.faceLocks && s.faceLocks[f] == t
  }

  predicate OnReaders(s: Sys, f: Face) {
    exists r :: r in s.readers && f in s.readers[r]
  }

  /** On a reader, or named by a transaction. */
  ghost predicate InUse(s: Sys, f: Face) {
    OnReaders(s, f) || exists t :: t in s.txs && f in Wanted(s.txs[t])
  }

  /** A registration and its members with other faces; the recorded ones stay. */
  function Relinked(db: Db, r: Reg, faceId: Option<Face>, memberFaces: set<Face>): Db
    requires r in db.regs
  {
    Patch(db, r, db.regs[r].(faceId := faceId, memberFaces := memberFaces))
  }

  /** The step can be taken: the transaction is at that point and its locks are granted. */
  ghost predicate Enabled(s: Sys, step: Step) {
    match step
    case Remember(r) => r in s.db.regs && s.db.regs[r].required
    case StartSync(t, _) => t !in s.txs
    case CheckSync(t) =>
      t in s.txs && s.txs[t].Syncing? && Holds(s, t, {s.txs[t].face}) && FaceAllowed(s.db, s.txs[t].face)
    case Write(t, reader) => t in s.txs && s.txs[t].Syncing? && s.txs[t].allowed && reader in s.readers
    case Erase(t, reader) => t in s.txs && s.txs[t].Syncing? && s.txs[t].allowed && reader in s.readers
    case Begin(t, r, _) => t !in s.txs && r in s.db.regs && r !in s.rowLocks
    case Decide(t) =>
      t in s.txs && s.txs[t].Changing? && s.txs[t].reg in s.db.regs && MayChange(s.db, s.txs[t].reg, s.txs[t].change)
    case Commit(t) =>
      && t in s.txs && s.txs[t].Changing? && s.txs[t].decision.Decided? && s.txs[t].reg in s.db.regs
      && Holds(s, t, s.txs[t].faces)
      && (s.txs[t].change.Accept? ==> s.txs[t].change.consent !in s.db.consents)
    case BeginRemoval(t, r) =>
      t !in s.txs && r in s.db.regs && r !in s.rowLocks && s.db.regs[r].removalPending
    case SkipFace(t, f) =>
      && t in s.txs && s.txs[t].Removing? && s.txs[t].current.None? && f in s.txs[t].faces
      && Holds(s, t, s.txs[t].faces) && FaceAllowed(s.db, f)
    case PickFace(t, f) =>
      && t in s.txs && s.txs[t].Removing? && s.txs[t].current.None? && f in s.txs[t].faces
      && Holds(s, t, s.txs[t].faces) && !FaceAllowed(s.db, f)
    case RemoveFrom(t, reader) => t in s.txs && s.txs[t].Removing? && s.txs[t].current.Some? && reader in s.readers
    case FaceGone(t) =>
      t in s.txs && s.txs[t].Removing? && s.txs[t].current.Some? && !OnReaders(s, s.txs[t].current.value)
    case CommitRemoval(t) =>
      && t in s.txs && s.txs[t].Removing? && s.txs[t].current.None? && s.txs[t].done == s.txs[t].faces
      && s.txs[t].reg in s.db.regs && Holds(s, t, s.txs[t].faces)
    case LockFace(t, f) => t in s.txs && f in Wanted(s.txs[t]) && f !in s.faceLocks
    case End(t) => t in s.txs
    case Approve(r, status) => r in s.db.regs && r !in s.rowLocks && status in {Approved, Blocked}
    case ComeOfAge(r) => r in s.db.regs
    case Relink(r, faceId, memberFaces) =>
      && r in s.db.regs && r !in s.rowLocks
      && (forall f :: InUse(s, f) ==> (f in FaceIds(s.db, r) <==> f in FaceIds(Relinked(s.db, r, faceId, memberFaces), r)))
  }

  /** The transaction is over and its locks are free. */
  function Release(s: Sys, t: TxId): Sys {
    s.(txs := s.txs - {t},
       rowLocks := map r | r in s.rowLocks && s.rowLocks[r] != t :: s.rowLocks[r],
       faceLocks := map f | f in s.faceLocks && s.faceLocks[f] != t :: s.faceLocks[f])
  }

  ghost function Next(s: Sys, step: Step): Sys
    requires Enabled(s, step)
  {
    match step
    case Remember(r) => s.(db := RememberFaces(s.db, r))
    case StartSync(t, f) => s.(txs := s.txs[t := Syncing(f, false)])
    case CheckSync(t) => s.(txs := s.txs[t := s.txs[t].(allowed := true)])
    case Write(t, reader) => s.(readers := s.readers[reader := s.readers[reader] + {s.txs[t].face}])
    case Erase(t, reader) => s.(readers := s.readers[reader := s.readers[reader] - {s.txs[t].face}])
    case Begin(t, r, change) =>
      s.(txs := s.txs[t := Changing(r, change, FaceIds(s.db, r), Undecided)], rowLocks := s.rowLocks[r := t])
    case Decide(t) =>
      var tx := s.txs[t];
      s.(txs := s.txs[t := tx.(decision := Decided(MustReject(s.db, tx.reg, tx.change)))])
    case Commit(t) =>
      var tx := s.txs[t];
      Release(s.(db := Written(s.db, tx.reg, tx.change, tx.decision.reject)), t)
    case BeginRemoval(t, r) =>
      s.(txs := s.txs[t := Removing(r, FaceIds(s.db, r), {}, None)], rowLocks := s.rowLocks[r := t])
    case SkipFace(t, f) => s.(txs := s.txs[t := s.txs[t].(done := s.txs[t].done + {f})])
    case PickFace(t, f) => s.(txs := s.txs[t := s.txs[t].(current := Some(f))])
    case RemoveFrom(t, reader) => s.(readers := s.readers[reader := s.readers[reader] - {s.txs[t].current.value}])
    case FaceGone(t) =>
      s.(txs := s.txs[t := s.txs[t].(done := s.txs[t].done + {s.txs[t].current.value}, current := None)])
    case CommitRemoval(t) =>
      var r := s.txs[t].reg;
      Release(s.(db := Patch(s.db, r, s.db.regs[r].(removalPending := false))), t)
    case LockFace(t, f) => s.(faceLocks := s.faceLocks[f := t])
    case End(t) => Release(s, t)
    case Approve(r, status) => s.(db := Patch(s.db, r, s.db.regs[r].(status := status)))
    case ComeOfAge(r) => s.(db := Patch(s.db, r, s.db.regs[r].(minor := false)))
    case Relink(r, faceId, memberFaces) => s.(db := Relinked(s.db, r, faceId, memberFaces))
  }
}
