/** What every interleaving of the consent transactions keeps: no face stays on a reader without cover. */
module ConsentSafety {
  import opened Wrappers
  import opened ConsentModel

  /** A registration with a durable intent to remove its faces is linked to the face. */
  ghost predicate RemovalIntended(db: Db, f: Face) {
    exists r :: r in db.regs && f in FaceIds(db, r) && db.regs[r].removalPending
  }

  ghost predicate Covered(db: Db, f: Face) {
    FaceAllowed(db, f) || RemovalIntended(db, f)
  }

  /** Every face on a reader is allowed or waits for its removal. */
  ghost predicate Safe(s: Sys) {
    forall f :: OnReaders(s, f) ==> Covered(s.db, f)
  }

  /** Locks belong to transactions that want them; a transaction on a registration holds its row. */
  ghost predicate LocksOk(s: Sys) {
    && (forall f :: f in s.faceLocks ==> s.faceLocks[f] in s.txs && f in Wanted(s.txs[s.faceLocks[f]]))
    && (forall r :: r in s.rowLocks ==> s.rowLocks[r] in s.txs)
    && (forall t :: t in s.txs && !s.txs[t].Syncing? ==>
          && s.txs[t].reg in s.db.regs && s.txs[t].reg in s.rowLocks && s.rowLocks[s.txs[t].reg] == t
          && s.txs[t].faces == FaceIds(s.db, s.txs[t].reg))
  }

  /** What a transaction has found out still holds. */
  ghost predicate Current(s: Sys, t: TxId)
    requires t in s.txs
  {
    match s.txs[t]
    case Syncing(face, allowed) => allowed ==> Holds(s, t, {face}) && FaceAllowed(s.db, face)
    case Changing(r, change, _, decision) =>
      r in s.db.regs && (decision == Decided(false) ==> !MustReject(s.db, r, change))
      && (decision == Decided(true) ==> (change.Revoke? || change.RejectIfUnauthorized?) && LeftWithout(s.db, r, change))
      && (decision.Decided? && (change.Revoke? || change.Sweep?) ==>
            change.consent in s.db.consents && s.db.consents[change.consent].child == r)
    case Removing(r, faces, done, current) =>
      && r in s.db.regs && s.db.regs[r].removalPending
      && done <= faces && (current.Some? ==> current.value in faces)
      && (done != {} || current.Some? ==> Holds(s, t, faces))
      && (forall f :: f in done ==> FaceAllowed(s.db, f) || !OnReaders(s, f))
  }

  ghost predicate Inv(s: Sys) {
    LocksOk(s) && Safe(s) && forall t :: t in s.txs ==> Current(s, t)
  }

  /** No transaction, no lock, and every face on a reader covered. */
  ghost predicate Start(s: Sys) {
    s.txs == map[] && s.rowLocks == map[] && s.faceLocks == map[] && Safe(s)
  }

  ghost predicate IsRun(s: Sys, steps: seq<Step>)
    decreases |steps|
  {
    steps == [] || (Enabled(s, steps[0]) && IsRun(Next(s, steps[0]), steps[1..]))
  }

  ghost function After(s: Sys, steps: seq<Step>): Sys
    requires IsRun(s, steps)
    decreases |steps|
  {
    if steps == [] then s else After(Next(s, steps[0]), steps[1..])
  }

  // ---------- changes of one registration ----------

  /** Two states of the tables differ at most in one registration and its consents; links stay as they are. */
  ghost predicate Touches(a: Db, b: Db, r: Reg) {
    && b.regs.Keys == a.regs.Keys
    && (forall q :: q in a.regs ==> FaceIds(b, q) == FaceIds(a, q))
    && (forall q :: q in a.regs && q != r ==> b.regs[q] == a.regs[q] && HasConsent(b, q) == HasConsent(a, q))
    && OtherConsentsSame(a.consents, b.consents, r)
  }

  /** Consents for other registrations are the same. */
  ghost predicate OtherConsentsSame(a: map<ConsentId, Consent>, b: map<ConsentId, Consent>, r: Reg) {
    forall c :: (c in a && a[c].child != r) || (c in b && b[c].child != r) ==> c in a && c in b && b[c] == a[c]
  }

  lemma SameLinks(a: Db, b: Db, r: Reg, f: Face)
    requires Touches(a, b, r)
    ensures RegistrationsByFace(a, f) == RegistrationsByFace(b, f)
  {
    forall q | q in a.regs ensures q in RegistrationsByFace(a, f) <==> q in RegistrationsByFace(b, f) {
      LookupsAreInverse(a, q, f);
      LookupsAreInverse(b, q, f);
    }
  }

  /** A change of one registration does not concern faces that are not linked to it. */
  lemma OtherFaces(a: Db, b: Db, r: Reg, f: Face)
    requires Touches(a, b, r) && (r in a.regs ==> f !in FaceIds(a, r))
    ensures FaceAllowed(a, f) == FaceAllowed(b, f) && RemovalIntended(a, f) == RemovalIntended(b, f)
  {
    hide HasConsent, FaceIds, RegistrationsByFace;
    SameLinks(a, b, r, f);
    forall q | q in RegistrationsByFace(a, f) ensures q in a.regs && q != r {
      InRegs(a, q, f);
      LookupsAreInverse(a, q, f);
    }
    forall q | q in RegistrationsByFace(a, f) ensures BlocksIn(a, q) == BlocksIn(b, q) {
    }
  }

  lemma InRegs(db: Db, r: Reg, f: Face)
    requires r in RegistrationsByFace(db, f)
    ensures r in db.regs
  {
  }

  /** A change that only lifts a block leaves every allowed face allowed. */
  lemma Relaxed(a: Db, b: Db, r: Reg, f: Face)
    requires Touches(a, b, r) && r in a.regs && (BlocksIn(b, r) ==> BlocksIn(a, r))
    ensures FaceAllowed(a, f) ==> FaceAllowed(b, f)
  {
    hide HasConsent, FaceIds, RegistrationsByFace;
    SameLinks(a, b, r, f);
    forall q | q in RegistrationsByFace(a, f) ensures q in a.regs && (BlocksIn(b, q) ==> BlocksIn(a, q)) {
      InRegs(a, q, f);
    }
  }

  lemma RememberTouches(db: Db, r: Reg)
    requires r in db.regs
    ensures Touches(db, RememberFaces(db, r), r)
    ensures RememberFaces(db, r).regs == db.regs && RememberFaces(db, r).consents == db.consents
  {
  }

  lemma PatchTouches(db: Db, r: Reg, x: Registration)
    requires r in db.regs && x.faceId == db.regs[r].faceId && x.memberFaces == db.regs[r].memberFaces
    ensures Touches(db, Patch(db, r, x), r)
    ensures HasConsent(Patch(db, r, x), r) == HasConsent(db, r)
  {
  }

  lemma ConsentTouches(db: Db, consents: map<ConsentId, Consent>, r: Reg)
    requires OtherConsentsSame(db.consents, consents, r)
    ensures Touches(db, db.(consents := consents), r)
  {
  }

  lemma TouchesThen(a: Db, b: Db, c: Db, r: Reg)
    requires Touches(a, b, r) && Touches(b, c, r)
    ensures Touches(a, c, r)
  {
  }

  // ---------- what the writes of a change do ----------

  /** The consent a change writes is new or belongs to its registration. */
  ghost predicate OwnConsent(db: Db, r: Reg, change: Change) {
    && (change.Accept? ==> change.consent !in db.consents)
    && (change.Revoke? || change.Sweep? ==> change.consent in db.consents && db.consents[change.consent].child == r)
  }

  lemma RevokeTouches(db: Db, c: ConsentId, r: Reg)
    requires c in db.consents && db.consents[c].child == r
    ensures Touches(db, RevokeConsent(db, c), r) && RevokeConsent(db, c).regs == db.regs
  {
    hide Touches;
    var revoked := db.consents[c := db.consents[c].(revoked := true)];
    ConsentTouches(db, revoked, r);
    assert RevokeConsent(db, c) == db.(consents := revoked);
  }

  lemma RememberKeepsConsents(db: Db, r: Reg)
    requires r in db.regs
    ensures HasConsent(RememberFaces(db, r), r) == HasConsent(db, r)
  {
  }

  lemma WrittenTouches(db: Db, r: Reg, change: Change, reject: bool)
    requires r in db.regs && OwnConsent(db, r, change)
    ensures Touches(db, Written(db, r, change, reject), r)
  {
    hide Touches, HasConsent, FaceIds;
    match change
    case Accept(c) =>
      var accepted := db.(consents := db.consents[c := Consent(r, true, false)]);
      ConsentTouches(db, accepted.consents, r);
      RememberTouches(accepted, r);
      TouchesThen(db, accepted, RememberFaces(accepted, r), r);
    case Revoke(c) =>
      RevokeTouches(db, c, r);
      var revoked := RevokeConsent(db, c);
      var b := RememberFaces(revoked, r);
      RememberTouches(revoked, r);
      TouchesThen(db, revoked, b, r);
      if reject {
        PatchTouches(b, r, RejectedFor(db.regs[r]));
        TouchesThen(db, b, Patch(b, r, RejectedFor(db.regs[r])), r);
      }
    case RejectIfUnauthorized =>
      var b := RememberFaces(db, r);
      RememberTouches(db, r);
      PatchTouches(b, r, RejectedFor(db.regs[r]));
      TouchesThen(db, b, Patch(b, r, RejectedFor(db.regs[r])), r);
      PatchTouches(db, r, db.regs[r]);
      assert Patch(db, r, db.regs[r]) == db;
    case Regularize =>
      var b, x := RememberFaces(db, r), RejectedFor(db.regs[r]).(required := true);
      RememberTouches(db, r);
      PatchTouches(b, r, x);
      TouchesThen(db, b, Patch(b, r, x), r);
    case Sweep(c) =>
      RevokeTouches(db, c, r);
      var b, x := RevokeConsent(db, c), db.regs[r].(removalPending := true);
      PatchTouches(b, r, x);
      TouchesThen(db, b, Patch(b, r, x), r);
  }

  /** A change leaves the registration marked for removal, or lifts blocks only. */
  lemma WrittenCovers(db: Db, r: Reg, change: Change, reject: bool)
    requires r in db.regs && OwnConsent(db, r, change)
    requires !reject ==> !MustReject(db, r, change)
    ensures var b := Written(db, r, change, reject);
            && r in b.regs && (db.regs[r].removalPending ==> b.regs[r].removalPending)
            && (b.regs[r].removalPending || (BlocksIn(b, r) ==> BlocksIn(db, r)))
  {
    var b := Written(db, r, change, reject);
    match change
    case Accept(c) =>
      assert b.consents[c] == Consent(r, true, false);
      assert HasConsent(b, r);
    case Revoke(c) =>
      if !reject {
        var revoked := RevokeConsent(db, c);
        RememberKeepsConsents(revoked, r);
        RevocationOnlyTakes(db, c, r);
      }
    case RejectIfUnauthorized =>
    case Regularize =>
    case Sweep(_) =>
  }

  lemma RevocationOnlyTakes(db: Db, c: ConsentId, r: Reg)
    ensures HasConsent(RevokeConsent(db, c), r) ==> HasConsent(db, r)
  {
  }

  /** After a commit every face that was covered still is. */
  lemma CommitKeepsCover(a: Db, b: Db, r: Reg, f: Face)
    requires r in a.regs && Touches(a, b, r) && Covered(a, f)
    requires a.regs[r].removalPending ==> b.regs[r].removalPending
    requires b.regs[r].removalPending || (BlocksIn(b, r) ==> BlocksIn(a, r))
    ensures Covered(b, f)
  {
    hide HasConsent, FaceIds, Blocks;
    if f !in FaceIds(a, r) {
      OtherFaces(a, b, r, f);
    } else if b.regs[r].removalPending {
      assert f in FaceIds(b, r);
      assert RemovalIntended(b, f);
    } else {
      Relaxed(a, b, r, f);
      if RemovalIntended(a, f) {
        var q :| q in a.regs && f in FaceIds(a, q) && a.regs[q].removalPending;
        assert q != r;
        assert q in b.regs && f in FaceIds(b, q) && b.regs[q].removalPending;
      }
    }
  }

  // ---------- steps that leave the tables alone ----------

  lemma StillCurrent(s: Sys, n: Sys, t: TxId)
    requires t in s.txs && t in n.txs && n.txs[t] == s.txs[t] && Current(s, t)
    requires n.db == s.db
    requires forall f :: f in s.faceLocks && s.faceLocks[f] == t ==> f in n.faceLocks && n.faceLocks[f] == t
    requires forall f :: f in Wanted(s.txs[t]) && f in s.faceLocks && s.faceLocks[f] == t && OnReaders(n, f) ==>
               OnReaders(s, f) || FaceAllowed(s.db, f)
    ensures Current(n, t)
  {
  }

  /** A transaction moves on by itself. */
  lemma TxMoves(s: Sys, t: TxId, tx: Tx)
    requires Inv(s) && t in s.txs
    requires var n := s.(txs := s.txs[t := tx]); Current(n, t)
    requires Wanted(tx) == Wanted(s.txs[t]) && tx.Syncing? == s.txs[t].Syncing?
    requires !tx.Syncing? ==> tx.reg == s.txs[t].reg
    ensures Inv(s.(txs := s.txs[t := tx]))
  {
    hide FaceAllowed, FaceIds, HasConsent, Covered, Current;
    var n := s.(txs := s.txs[t := tx]);
    forall u | u in n.txs ensures Current(n, u) {
      if u != t {
        StillCurrent(s, n, u);
      }
    }
    SameReaders(s, n);
  }

  lemma SameReaders(s: Sys, n: Sys)
    requires n.readers == s.readers && n.db == s.db && Safe(s)
    ensures Safe(n)
  {
  }

  /** A transaction starts; one on a registration takes its row. */
  lemma TxStarts(s: Sys, t: TxId, tx: Tx)
    requires Inv(s) && t !in s.txs
    requires !tx.Syncing? ==> tx.reg in s.db.regs && tx.reg !in s.rowLocks && tx.faces == FaceIds(s.db, tx.reg)
    requires tx.Syncing? ==> !tx.allowed
    requires tx.Changing? ==> tx.decision.Undecided?
    requires tx.Removing? ==> tx.done == {} && tx.current.None? && s.db.regs[tx.reg].removalPending
    ensures Inv(s.(txs := s.txs[t := tx], rowLocks := if tx.Syncing? then s.rowLocks else s.rowLocks[tx.reg := t]))
  {
    hide FaceAllowed, FaceIds, HasConsent, Covered;
    var n := s.(txs := s.txs[t := tx], rowLocks := if tx.Syncing? then s.rowLocks else s.rowLocks[tx.reg := t]);
    forall u | u in n.txs ensures Current(n, u) {
      if u != t {
        StillCurrent(s, n, u);
      }
    }
    SameReaders(s, n);
  }

  lemma LockGranted(s: Sys, t: TxId, f: Face)
    requires Inv(s) && t in s.txs && f in Wanted(s.txs[t]) && f !in s.faceLocks
    ensures Inv(s.(faceLocks := s.faceLocks[f := t]))
  {
    hide FaceAllowed, FaceIds, HasConsent, Covered, Current;
    var n := s.(faceLocks := s.faceLocks[f := t]);
    forall u | u in n.txs ensures Current(n, u) {
      NewLockCurrent(s, n, u, f, t);
    }
    SameReaders(s, n);
  }

  lemma NewLockCurrent(s: Sys, n: Sys, u: TxId, f: Face, t: TxId)
    requires u in s.txs && Current(s, u) && f !in s.faceLocks && n == s.(faceLocks := s.faceLocks[f := t])
    ensures Current(n, u)
  {
  }

  /** A transaction ends; nothing else changes. */
  lemma TxEnds(s: Sys, t: TxId)
    requires Inv(s) && t in s.txs
    ensures Inv(Release(s, t))
  {
    hide FaceAllowed, FaceIds, HasConsent, Covered, Current;
    var n := Release(s, t);
    forall u | u in n.txs ensures Current(n, u) {
      assert forall f :: OnReaders(n, f) ==> OnReaders(s, f);
      StillCurrent(s, n, u);
    }
    SameReaders(s, n);
  }

  // ---------- steps on the readers ----------

  /** A checked sync writes its face, which is allowed. */
  lemma WriteKeeps(s: Sys, t: TxId, reader: Reader)
    requires Inv(s) && t in s.txs && s.txs[t].Syncing? && s.txs[t].allowed && reader in s.readers
    ensures Inv(s.(readers := s.readers[reader := s.readers[reader] + {s.txs[t].face}]))
  {
  }

  lemma EraseKeeps(s: Sys, reader: Reader, face: Face)
    requires Inv(s) && reader in s.readers
    ensures Inv(s.(readers := s.readers[reader := s.readers[reader] - {face}]))
  {
  }

  // ---------- steps on the tables ----------

  lemma OtherMustReject(a: Db, b: Db, r: Reg, q: Reg, change: Change)
    requires Touches(a, b, r) && q in a.regs && q != r
    requires change.Revoke? ==> change.consent in a.consents && a.consents[change.consent].child == q
    ensures MustReject(a, q, change) == MustReject(b, q, change) && LeftWithout(a, q, change) == LeftWithout(b, q, change)
  {
    if change.Revoke? {
      var a', b' := RevokeConsent(a, change.consent), RevokeConsent(b, change.consent);
      assert OtherConsentsSame(a'.consents, b'.consents, r);
      ConsentTouches(a', b'.consents, r);
      assert HasConsent(b', q) == HasConsent(a'.(consents := b'.consents), q);
    }
  }

  /** A change under the locks of transaction t does not disturb another one. */
  lemma OthersUndisturbed(s: Sys, n: Sys, t: TxId, u: TxId, r: Reg)
    requires LocksOk(s) && u in s.txs && u != t && Current(s, u)
    requires Touches(s.db, n.db, r) && r in s.db.regs && r in s.rowLocks && s.rowLocks[r] == t
    requires Holds(s, t, FaceIds(s.db, r))
    requires u in n.txs && n.txs[u] == s.txs[u] && n.readers == s.readers
    requires forall f :: f in s.faceLocks && s.faceLocks[f] == u ==> f in n.faceLocks && n.faceLocks[f] == u
    ensures Current(n, u)
  {
    hide HasConsent, FaceIds, FaceAllowed, MustReject;
    match s.txs[u]
    case Syncing(face, allowed) =>
      if allowed {
        OtherFaces(s.db, n.db, r, face);
      }
    case Changing(q, change, _, decision) =>
      assert q != r;
      if decision.Decided? {
        OtherMustReject(s.db, n.db, r, q, change);
      }
    case Removing(q, faces, done, current) =>
      assert q != r;
      forall f | f in done ensures FaceAllowed(n.db, f) || !OnReaders(n, f) {
        OtherFaces(s.db, n.db, r, f);
        assert OnReaders(n, f) == OnReaders(s, f);
      }
  }

  /** New tables and the end of the transaction that wrote them. */
  lemma TablesCommitted(s: Sys, t: TxId, b: Db, r: Reg)
    requires Inv(s) && t in s.txs && Touches(s.db, b, r) && r in s.db.regs && r in s.rowLocks && s.rowLocks[r] == t
    requires Holds(s, t, FaceIds(s.db, r))
    requires forall f :: OnReaders(s, f) ==> Covered(b, f)
    ensures Inv(Release(s.(db := b), t))
  {
    hide HasConsent, FaceIds, FaceAllowed, Current, Covered;
    var n := Release(s.(db := b), t);
    forall u | u in n.txs ensures Current(n, u) {
      OthersUndisturbed(s, n, t, u, r);
    }
    forall f | OnReaders(n, f) ensures Covered(n.db, f) {
      assert OnReaders(s, f);
    }
  }

  lemma CommitKeeps(s: Sys, t: TxId)
    requires Inv(s) && Enabled(s, Commit(t))
    ensures Inv(Next(s, Commit(t)))
  {
    hide HasConsent, FaceIds, FaceAllowed, MustReject, Written, Covered;
    var tx := s.txs[t];
    var r, reject := tx.reg, tx.decision.reject;
    assert Current(s, t);
    assert OwnConsent(s.db, r, tx.change);
    var b := Written(s.db, r, tx.change, reject);
    WrittenTouches(s.db, r, tx.change, reject);
    WrittenCovers(s.db, r, tx.change, reject);
    forall f | OnReaders(s, f) ensures Covered(b, f) {
      CommitKeepsCover(s.db, b, r, f);
    }
    TablesCommitted(s, t, b, r);
  }

  /** Clearing the intent is safe once each face of the registration is allowed or gone. */
  lemma RemovalKeepsCover(s: Sys, t: TxId, f: Face)
    requires Inv(s) && Enabled(s, CommitRemoval(t)) && OnReaders(s, f)
    ensures var r := s.txs[t].reg;
            Covered(Patch(s.db, r, s.db.regs[r].(removalPending := false)), f)
  {
    hide HasConsent, FaceIds;
    var r := s.txs[t].reg;
    var a, b := s.db, Patch(s.db, r, s.db.regs[r].(removalPending := false));
    PatchTouches(a, r, b.regs[r]);
    assert Current(s, t);
    assert Covered(a, f);
    if f in FaceIds(a, r) {
      assert f in s.txs[t].done;
      Relaxed(a, b, r, f);
    } else {
      OtherFaces(a, b, r, f);
    }
  }

  lemma CommitRemovalKeeps(s: Sys, t: TxId)
    requires Inv(s) && Enabled(s, CommitRemoval(t))
    ensures Inv(Next(s, CommitRemoval(t)))
  {
    hide HasConsent, FaceIds, FaceAllowed, Covered;
    var r := s.txs[t].reg;
    var b := Patch(s.db, r, s.db.regs[r].(removalPending := false));
    PatchTouches(s.db, r, b.regs[r]);
    forall f | OnReaders(s, f) ensures Covered(b, f) {
      RemovalKeepsCover(s, t, f);
    }
    TablesCommitted(s, t, b, r);
  }

  /** A change without locks that lifts blocks only and makes no rejection newly necessary. */
  lemma Lifted(s: Sys, b: Db, r: Reg)
    requires Inv(s) && r in s.db.regs && Touches(s.db, b, r) && b.consents == s.db.consents
    requires BlocksIn(b, r) ==> BlocksIn(s.db, r)
    requires b.regs[r].removalPending == s.db.regs[r].removalPending
    requires r in s.rowLocks ==> (NeedsApproval(b.regs[r]) ==> NeedsApproval(s.db.regs[r])) && b.regs[r].status == s.db.regs[r].status
    ensures Inv(s.(db := b))
  {
    var n := s.(db := b);
    forall t | t in n.txs ensures Current(n, t) {
      LiftedCurrent(s, n, t, r);
    }
    forall f | OnReaders(n, f) ensures Covered(b, f) {
      assert OnReaders(s, f);
      LiftedCover(s.db, b, r, f);
    }
  }

  lemma LiftedCover(a: Db, b: Db, r: Reg, f: Face)
    requires r in a.regs && Touches(a, b, r) && Covered(a, f)
    requires (BlocksIn(b, r) ==> BlocksIn(a, r)) && b.regs[r].removalPending == a.regs[r].removalPending
    ensures Covered(b, f)
  {
    CommitKeepsCover(a, b, r, f);
  }

  lemma LiftedCurrent(s: Sys, n: Sys, t: TxId, r: Reg)
    requires LocksOk(s) && t in s.txs && Current(s, t) && r in s.db.regs && Touches(s.db, n.db, r)
    requires n == s.(db := n.db) && n.db.consents == s.db.consents
    requires BlocksIn(n.db, r) ==> BlocksIn(s.db, r)
    requires n.db.regs[r].removalPending == s.db.regs[r].removalPending
    requires r in s.rowLocks ==>
               (NeedsApproval(n.db.regs[r]) ==> NeedsApproval(s.db.regs[r])) && n.db.regs[r].status == s.db.regs[r].status
    ensures Current(n, t)
  {
    hide FaceIds, FaceAllowed, BlocksIn, NeedsApproval;
    match s.txs[t]
    case Syncing(face, allowed) => Relaxed(s.db, n.db, r, face);
    case Changing(q, change, _, _) =>
      SameConsents(s.db, n.db, q, change);
    case Removing(_, _, done, _) =>
      forall f | f in done ensures FaceAllowed(n.db, f) || !OnReaders(n, f) {
        Relaxed(s.db, n.db, r, f);
        assert OnReaders(n, f) == OnReaders(s, f);
      }
  }

  lemma SameConsents(a: Db, b: Db, q: Reg, change: Change)
    requires a.consents == b.consents
    ensures HasConsent(a, q) == HasConsent(b, q)
    ensures change.Revoke? ==>
              HasConsent(RevokeConsent(a, change.consent), q) == HasConsent(RevokeConsent(b, change.consent), q)
  {
  }

  lemma LiftingStepKeeps(s: Sys, step: Step)
    requires Inv(s) && Enabled(s, step) && (step.Remember? || step.Approve? || step.ComeOfAge?)
    ensures Inv(Next(s, step))
  {
    hide FaceIds, Current, Safe, LocksOk;
    match step
    case Remember(r) =>
      RememberTouches(s.db, r);
      RememberKeepsConsents(s.db, r);
      Lifted(s, RememberFaces(s.db, r), r);
    case Approve(r, status) =>
      PatchTouches(s.db, r, s.db.regs[r].(status := status));
      Lifted(s, Patch(s.db, r, s.db.regs[r].(status := status)), r);
    case ComeOfAge(r) =>
      PatchTouches(s.db, r, s.db.regs[r].(minor := false));
      Lifted(s, Patch(s.db, r, s.db.regs[r].(minor := false)), r);
  }

  // ---------- faces of a registration that change ----------

  /** A change of faces does not concern those linked to the registration before and after, or neither time. */
  lemma RelinkKeepsFace(a: Db, r: Reg, o: Option<Face>, ms: set<Face>, f: Face)
    requires r in a.regs
    requires f in FaceIds(a, r) <==> f in FaceIds(Relinked(a, r, o, ms), r)
    ensures var b := Relinked(a, r, o, ms);
            FaceAllowed(a, f) == FaceAllowed(b, f) && RemovalIntended(a, f) == RemovalIntended(b, f)
  {
    var b := Relinked(a, r, o, ms);
    forall q | q in a.regs ensures f in FaceIds(a, q) <==> f in FaceIds(b, q) {
      if q != r {
        RelinkKeepsOthers(a, r, o, ms, q);
      }
    }
    RelinkKeepsBlocks(a, r, o, ms);
    hide FaceIds, HasConsent, RegistrationsByFace, Blocks;
    forall q | q in a.regs ensures q in RegistrationsByFace(a, f) <==> q in RegistrationsByFace(b, f) {
      LookupsAreInverse(a, q, f);
      LookupsAreInverse(b, q, f);
    }
    assert RegistrationsByFace(a, f) == RegistrationsByFace(b, f) by {
      SameRegistrations(a, b, f);
    }
  }

  lemma SameRegistrations(a: Db, b: Db, f: Face)
    requires a.regs.Keys == b.regs.Keys
    requires forall q :: q in a.regs ==> (q in RegistrationsByFace(a, f) <==> q in RegistrationsByFace(b, f))
    ensures RegistrationsByFace(a, f) == RegistrationsByFace(b, f)
    ensures forall q :: q in RegistrationsByFace(a, f) ==> q in a.regs
  {
  }

  lemma RelinkKeepsOthers(a: Db, r: Reg, o: Option<Face>, ms: set<Face>, q: Reg)
    requires r in a.regs && q in a.regs && q != r
    ensures FaceIds(Relinked(a, r, o, ms), q) == FaceIds(a, q)
  {
  }

  lemma RelinkKeepsBlocks(a: Db, r: Reg, o: Option<Face>, ms: set<Face>)
    requires r in a.regs
    ensures var b := Relinked(a, r, o, ms);
            && b.regs.Keys == a.regs.Keys && b.consents == a.consents
            && forall q :: q in a.regs ==>
                 && BlocksIn(b, q) == BlocksIn(a, q) && HasConsent(b, q) == HasConsent(a, q)
                 && b.regs[q].removalPending == a.regs[q].removalPending && b.regs[q].status == a.regs[q].status
                 && NeedsApproval(b.regs[q]) == NeedsApproval(a.regs[q])
  {
  }

  lemma RelinkCurrent(s: Sys, t: TxId, r: Reg, o: Option<Face>, ms: set<Face>)
    requires Inv(s) && t in s.txs && Enabled(s, Relink(r, o, ms))
    ensures Current(s.(db := Relinked(s.db, r, o, ms)), t)
  {
    var n := s.(db := Relinked(s.db, r, o, ms));
    RelinkKeepsBlocks(s.db, r, o, ms);
    assert Current(s, t);
    hide FaceIds, FaceAllowed, BlocksIn, NeedsApproval, LocksOk, Safe, Relinked;
    match s.txs[t]
    case Syncing(face, allowed) =>
      assert face in Wanted(s.txs[t]);
      RelinkKeepsFace(s.db, r, o, ms, face);
    case Changing(q, change, _, _) =>
      SameConsents(s.db, n.db, q, change);
    case Removing(_, faces, done, _) =>
      forall f | f in done ensures FaceAllowed(n.db, f) || !OnReaders(n, f) {
        assert f in Wanted(s.txs[t]);
        RelinkKeepsFace(s.db, r, o, ms, f);
        assert OnReaders(n, f) == OnReaders(s, f);
      }
  }

  lemma RelinkKeeps(s: Sys, r: Reg, o: Option<Face>, ms: set<Face>)
    requires Inv(s) && Enabled(s, Relink(r, o, ms))
    ensures Inv(Next(s, Relink(r, o, ms)))
  {
    var n := s.(db := Relinked(s.db, r, o, ms));
    forall t | t in n.txs ensures Current(n, t) {
      RelinkCurrent(s, t, r, o, ms);
    }
    hide FaceAllowed, RemovalIntended, HasConsent, Current, FaceIds, Blocks;
    forall f | OnReaders(n, f) ensures Covered(n.db, f) {
      assert OnReaders(s, f) && InUse(s, f);
      RelinkKeepsFace(s.db, r, o, ms, f);
      assert Covered(s.db, f);
    }
    forall t | t in n.txs && !n.txs[t].Syncing? ensures n.txs[t].faces == FaceIds(n.db, n.txs[t].reg) {
      RelinkKeepsOthers(s.db, r, o, ms, s.txs[t].reg);
    }
  }

  /** Faces may be cleared once those in use are recorded. */
  lemma RecordedFacesMayGo(s: Sys, r: Reg)
    requires r in s.db.regs && r !in s.rowLocks
    requires forall f :: (OnReaders(s, f) || exists t :: t in s.txs && f in Wanted(s.txs[t])) && f in FaceIds(s.db, r) ==> (r, f) in s.db.tracked
    ensures Enabled(s, Relink(r, None, {}))
  {
    forall f | InUse(s, f) ensures f in FaceIds(s.db, r) <==> f in FaceIds(Relinked(s.db, r, None, {}), r) {
      StillRecorded(s.db, r, f);
    }
  }

  lemma StillRecorded(db: Db, r: Reg, f: Face)
    requires r in db.regs
    ensures f in FaceIds(Relinked(db, r, None, {}), r) <==> (r, f) in db.tracked
    ensures (r, f) in db.tracked ==> f in FaceIds(db, r)
  {
    LookupsAreInverse(db, r, f);
    LookupsAreInverse(Relinked(db, r, None, {}), r, f);
  }

  /** What the record of faces is for: a blocked face that is cleared stays blocked exactly when it is recorded. */
  lemma RecordDecides(db: Db, r: Reg, f: Face)
    requires r in db.regs && RegistrationsByFace(db, f) == {r} && BlocksIn(db, r)
    ensures FaceAllowed(Relinked(db, r, None, {}), f) <==> (r, f) !in db.tracked
  {
    var b := Relinked(db, r, None, {});
    RelinkKeepsBlocks(db, r, None, {});
    StillRecorded(db, r, f);
    LookupsAreInverse(b, r, f);
    forall q | q in db.regs && q != r ensures q !in RegistrationsByFace(b, f) {
      RelinkKeepsOthers(db, r, None, {}, q);
      LookupsAreInverse(db, q, f);
      LookupsAreInverse(b, q, f);
    }
    hide FaceIds, HasConsent, Blocks;
    forall q | q in RegistrationsByFace(b, f) ensures q in db.regs {
      InRegs(b, q, f);
    }
  }

  // ---------- every step, every run ----------

  lemma DecideKeeps(s: Sys, t: TxId)
    requires Inv(s) && Enabled(s, Decide(t))
    ensures Inv(Next(s, Decide(t)))
  {
    hide HasConsent, FaceIds, FaceAllowed, MustReject, Covered;
    var tx := s.txs[t];
    DecisionIsRight(s.db, tx.reg, tx.change);
    TxMoves(s, t, tx.(decision := Decided(MustReject(s.db, tx.reg, tx.change))));
  }

  lemma DecisionIsRight(db: Db, r: Reg, change: Change)
    requires r in db.regs
    ensures MustReject(db, r, change) ==> (change.Revoke? || change.RejectIfUnauthorized?) && LeftWithout(db, r, change)
  {
  }

  lemma SyncChecked(s: Sys, t: TxId)
    requires Inv(s) && Enabled(s, CheckSync(t))
    ensures Inv(Next(s, CheckSync(t)))
  {
    hide HasConsent, FaceIds, FaceAllowed, Covered;
    TxMoves(s, t, s.txs[t].(allowed := true));
  }

  lemma RemovalStepKeeps(s: Sys, step: Step)
    requires Inv(s) && Enabled(s, step) && (step.SkipFace? || step.PickFace? || step.FaceGone?)
    ensures Inv(Next(s, step))
  {
    hide HasConsent, FaceIds, FaceAllowed, Covered;
    var t := step.tx;
    var tx := s.txs[t];
    assert Current(s, t);
    var moved := match step
      case SkipFace(_, f) => tx.(done := tx.done + {f})
      case PickFace(_, f) => tx.(current := Some(f))
      case FaceGone(_) => tx.(done := tx.done + {tx.current.value}, current := None);
    var n := s.(txs := s.txs[t := moved]);
    assert forall f :: OnReaders(n, f) == OnReaders(s, f);
    TxMoves(s, t, moved);
  }

  lemma StepKeeps(s: Sys, step: Step)
    requires Inv(s) && Enabled(s, step)
    ensures Inv(Next(s, step))
  {
    match step
    case Remember(_) => LiftingStepKeeps(s, step);
    case Approve(_, _) => LiftingStepKeeps(s, step);
    case ComeOfAge(_) => LiftingStepKeeps(s, step);
    case Relink(r, faceId, memberFaces) => RelinkKeeps(s, r, faceId, memberFaces);
    case StartSync(t, f) =>
      TxStarts(s, t, Syncing(f, false));
    case CheckSync(t) => SyncChecked(s, t);
    case Write(t, reader) => WriteKeeps(s, t, reader);
    case Erase(t, reader) => EraseKeeps(s, reader, s.txs[t].face);
    case Begin(t, r, change) => TxStarts(s, t, Changing(r, change, FaceIds(s.db, r), Undecided));
    case Decide(t) => DecideKeeps(s, t);
    case Commit(t) => CommitKeeps(s, t);
    case BeginRemoval(t, r) => TxStarts(s, t, Removing(r, FaceIds(s.db, r), {}, None));
    case SkipFace(_, _) => RemovalStepKeeps(s, step);
    case PickFace(_, _) => RemovalStepKeeps(s, step);
    case FaceGone(_) => RemovalStepKeeps(s, step);
    case RemoveFrom(t, reader) => EraseKeeps(s, reader, s.txs[t].current.value);
    case CommitRemoval(t) => CommitRemovalKeeps(s, t);
    case LockFace(t, f) => LockGranted(s, t, f);
    case End(t) => TxEnds(s, t);
  }

  lemma {:induction false} RunKeeps(s: Sys, steps: seq<Step>)
    requires Inv(s) && IsRun(s, steps)
    ensures Inv(After(s, steps))
    decreases |steps|
  {
    hide Inv, Enabled, Next;
    if steps != [] {
      StepKeeps(s, steps[0]);
      RunKeeps(Next(s, steps[0]), steps[1..]);
    }
  }

  /**
   * In every interleaving of syncs, acceptances, revocations, rejections, regularizations and removals, at
   * every moment, each face on a reader is allowed or linked to a registration marked for removal.
   */
  lemma EveryRunIsSafe(s: Sys, steps: seq<Step>)
    requires Start(s) && IsRun(s, steps)
    ensures Safe(After(s, steps))
  {
    RunKeeps(s, steps);
  }

  /** When every removal has been completed, the readers hold allowed faces only. */
  lemma QuietReadersAreAuthorized(s: Sys, steps: seq<Step>, f: Face)
    requires Start(s) && IsRun(s, steps)
    requires var n := After(s, steps);
             && OnReaders(n, f)
             && forall r :: r in n.db.regs && f in FaceIds(n.db, r) ==> !n.db.regs[r].removalPending
    ensures FaceAllowed(After(s, steps).db, f)
  {
    hide HasConsent, FaceIds, FaceAllowed, After, IsRun;
    EveryRunIsSafe(s, steps);
    assert Covered(After(s, steps).db, f);
  }

  /** A sync that has passed its check writes an allowed face, whatever happens before it ends. */
  lemma SyncStaysAuthorized(s: Sys, steps: seq<Step>, t: TxId)
    requires Start(s) && IsRun(s, steps)
    requires var n := After(s, steps); t in n.txs && n.txs[t].Syncing? && n.txs[t].allowed
    ensures FaceAllowed(After(s, steps).db, After(s, steps).txs[t].face)
  {
    RunKeeps(s, steps);
    assert Current(After(s, steps), t);
  }

  /** A removal that ends early, because a reader failed, leaves the intent in place. */
  lemma FailedRemovalKeepsIntent(s: Sys, steps: seq<Step>, t: TxId)
    requires Start(s) && IsRun(s, steps)
    requires var n := After(s, steps); t in n.txs && n.txs[t].Removing?
    ensures var n := After(s, steps);
            var r := n.txs[t].reg;
            Enabled(n, End(t)) && r in Next(n, End(t)).db.regs && Next(n, End(t)).db.regs[r].removalPending
  {
    RunKeeps(s, steps);
    assert Current(After(s, steps), t);
  }

  // ---------- adults that leave ----------

  /**
   * The protocol's guarantee is about its own transactions; none of them makes the adult of a consent stop
   * fulfilling the conditions. When that happens, an allowed face loses its cover exactly if its minor needs
   * approval, has no other valid consent, and no removal is intended.
   */
  lemma AdultLeavingUncovers(db: Db, r: Reg, c: ConsentId, f: Face)
    requires r in db.regs && f in FaceIds(db, r) && FaceAllowed(db, f)
    requires c in db.consents && db.consents[c] == Consent(r, true, false)
    ensures var b := db.(consents := db.consents[c := Consent(r, false, false)]);
            Covered(b, f) <==>
              || !NeedsApproval(db.regs[r]) || RemovalIntended(db, f)
              || exists d :: d in db.consents && d != c && db.consents[d] == Consent(r, true, false)
  {
    var b := db.(consents := db.consents[c := Consent(r, false, false)]);
    ConsentTouches(db, b.consents, r);
    OthersCount(db, r, c);
    LookupsAreInverse(db, r, f);
    assert HasConsent(db, r);
    hide HasConsent, FaceIds, RegistrationsByFace;
    SameLinks(db, b, r, f);
    assert b.regs == db.regs;
    assert RemovalIntended(b, f) == RemovalIntended(db, f);
    if !NeedsApproval(db.regs[r]) || HasConsent(b, r) {
      Relaxed(db, b, r, f);
    } else {
      assert BlocksIn(b, r);
    }
  }

  lemma OthersCount(db: Db, r: Reg, c: ConsentId)
    requires c in db.consents
    ensures HasConsent(db.(consents := db.consents[c := Consent(r, false, false)]), r) <==>
            exists d :: d in db.consents && d != c && db.consents[d] == Consent(r, true, false)
  {
    var b := db.(consents := db.consents[c := Consent(r, false, false)]);
    if d :| d in db.consents && d != c && db.consents[d] == Consent(r, true, false) {
      assert d in b.consents && b.consents[d] == Consent(r, true, false);
    }
    if HasConsent(b, r) {
      var d :| d in b.consents && b.consents[d] == Consent(r, true, false);
      assert d in db.consents && d != c;
    }
  }

  /** The maintenance sweep over such a consent covers every face of the minor again, whatever was wrong before. */
  lemma SweepRestoresCover(db: Db, r: Reg, c: ConsentId, f: Face)
    requires r in db.regs && OwnConsent(db, r, Sweep(c)) && f in FaceIds(db, r)
    ensures Covered(Written(db, r, Sweep(c), false), f)
  {
    var b := Written(db, r, Sweep(c), false);
    WrittenTouches(db, r, Sweep(c), false);
    assert r in b.regs && f in FaceIds(b, r) && b.regs[r].removalPending;
  }
}
