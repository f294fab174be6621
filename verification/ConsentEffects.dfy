/**
 * What the consent transactions achieve: consents count and cease to count, registrations are rejected, faces
 * lose their access, and removals can be carried out to the end.
 */
module ConsentEffects {
  import opened Wrappers
  import opened ConsentModel
  import opened ConsentSafety

  /** Only the transaction is gone, with its locks; readers and other transactions are as before. */
  ghost predicate OnlyEnds(s: Sys, n: Sys, t: TxId) {
    && n.readers == s.readers && n.txs == s.txs - {t}
    && (forall r :: r in n.rowLocks <==> r in s.rowLocks && s.rowLocks[r] != t)
    && (forall r :: r in n.rowLocks ==> n.rowLocks[r] == s.rowLocks[r])
    && (forall f :: f in n.faceLocks <==> f in s.faceLocks && s.faceLocks[f] != t)
    && (forall f :: f in n.faceLocks ==> n.faceLocks[f] == s.faceLocks[f])
  }

  /** All other registrations are as before, and so are the faces of this one. */
  ghost predicate OnlyOne(a: Db, b: Db, r: Reg)
    requires r in a.regs
  {
    && b.regs.Keys == a.regs.Keys && (forall q :: q in a.regs && q != r ==> b.regs[q] == a.regs[q])
    && b.regs[r].faceId == a.regs[r].faceId && b.regs[r].memberFaces == a.regs[r].memberFaces
    && b.regs[r].isActive == a.regs[r].isActive && b.regs[r].minor == a.regs[r].minor
  }

  /** The recorded faces are as before, or those of one registration have been added. */
  ghost predicate FacesRecorded(a: Db, b: Db, r: Reg)
    requires r in a.regs
  {
    forall q, f :: (q, f) in b.tracked <==> (q, f) in a.tracked || (q == r && f in FaceIds(a, r))
  }

  /** A rejected registration with the intent to remove its faces, which are recorded and allowed no more. */
  ghost predicate Rejects(a: Db, b: Db, r: Reg)
    requires r in a.regs
  {
    && r in b.regs && b.regs[r].status == Rejected && b.regs[r].removalPending
    && FacesRecorded(a, b, r) && forall f :: f in FaceIds(a, r) ==> !FaceAllowed(b, f)
  }

  /** When a face may be on a reader, spelled out over the tables. */
  lemma AllowedMeans(db: Db, f: Face)
    ensures FaceAllowed(db, f) <==>
            forall r :: r in db.regs && (db.regs[r].faceId == Some(f) || f in db.regs[r].memberFaces || (r, f) in db.tracked) ==>
              var x := db.regs[r];
              && (x.removalPending ==> x.isActive && x.status != Rejected)
              && (x.required && x.minor ==>
                    x.isActive && (x.status == Approved || x.status == Blocked)
                    && exists c :: c in db.consents && db.consents[c].child == r && db.consents[c].valid && !db.consents[c].revoked)
  {
    forall r | r in db.regs ensures
        HasConsent(db, r) <==>
        exists c :: c in db.consents && db.consents[c].child == r && db.consents[c].valid && !db.consents[c].revoked
    {
      if HasConsent(db, r) {
        var c :| c in db.consents && db.consents[c] == Consent(r, true, false);
      }
      if c :| c in db.consents && db.consents[c].child == r && db.consents[c].valid && !db.consents[c].revoked {
        assert db.consents[c] == Consent(r, true, false);
      }
    }
    hide HasConsent;
    forall r | r in db.regs ensures
        r in RegistrationsByFace(db, f) <==>
        db.regs[r].faceId == Some(f) || f in db.regs[r].memberFaces || (r, f) in db.tracked
    {
    }
    forall r | r in db.regs ensures
        !BlocksIn(db, r) <==>
          var x := db.regs[r];
          && (x.removalPending ==> x.isActive && x.status != Rejected)
          && (x.required && x.minor ==> x.isActive && (x.status == Approved || x.status == Blocked) && HasConsent(db, r))
    {
    }
    forall r | r in RegistrationsByFace(db, f) ensures r in db.regs {
      InRegs(db, r, f);
    }
    hide RegistrationsByFace, BlocksIn;
  }

  ghost predicate Committing(s: Sys, t: TxId) {
    Inv(s) && Enabled(s, Commit(t))
  }

  /** A transaction about to commit has decided rightly, and its writes are all that happens. */
  lemma Commits(s: Sys, t: TxId)
    requires Committing(s, t)
    ensures Enabled(s, Commit(t)) && t in s.txs && s.txs[t].Changing? && s.txs[t].decision.Decided?
    ensures var tx, n := s.txs[t], Next(s, Commit(t));
            && tx.reg in s.db.regs && OnlyEnds(s, n, t) && n.db == Written(s.db, tx.reg, tx.change, tx.decision.reject)
            && (tx.change.Revoke? || tx.change.Sweep? ==> tx.change.consent in s.db.consents)
            && (!tx.decision.reject ==> !MustReject(s.db, tx.reg, tx.change))
            && (tx.decision.reject ==> LeftWithout(s.db, tx.reg, tx.change))
  {
    hide Written, MustReject, LeftWithout, FaceIds, FaceAllowed, HasConsent, Safe, LocksOk;
    assert Current(s, t);
  }

  lemma BlockedIsNotAllowed(db: Db, r: Reg)
    requires r in db.regs && BlocksIn(db, r)
    ensures forall f :: f in FaceIds(db, r) ==> !FaceAllowed(db, f)
  {
    hide FaceIds, RegistrationsByFace, BlocksIn;
    forall f | f in FaceIds(db, r) ensures !FaceAllowed(db, f) {
      LookupsAreInverse(db, r, f);
    }
  }

  /** Recording faces adds none. */
  lemma SameFaces(a: Db, b: Db, r: Reg)
    requires r in a.regs && r in b.regs
    requires b.regs[r].faceId == a.regs[r].faceId && b.regs[r].memberFaces == a.regs[r].memberFaces
    requires FacesRecorded(a, b, r) || b.tracked == a.tracked
    ensures FaceIds(b, r) == FaceIds(a, r)
  {
    forall f ensures f in FaceIds(b, r) <==> f in FaceIds(a, r) {
      assert f in FaceIds(b, r) <==> b.regs[r].faceId == Some(f) || f in b.regs[r].memberFaces || (r, f) in b.tracked;
      assert f in FaceIds(a, r) <==> a.regs[r].faceId == Some(f) || f in a.regs[r].memberFaces || (r, f) in a.tracked;
    }
  }

  /** A committed acceptance: the consent counts, and an active approved registration blocks nothing any more. */
  lemma AcceptanceCounts(s: Sys, t: TxId)
    requires Committing(s, t) && s.txs[t].change.Accept?
    ensures var n, r, c := Next(s, Commit(t)), s.txs[t].reg, s.txs[t].change.consent;
            && OnlyEnds(s, n, t) && n.db.regs == s.db.regs && FacesRecorded(s.db, n.db, r)
            && n.db.consents == s.db.consents[c := Consent(r, true, false)]
            && (s.db.regs[r].isActive && s.db.regs[r].status in {Approved, Blocked} ==>
                  !BlocksIn(n.db, r) && forall f :: RegistrationsByFace(n.db, f) == {r} ==> FaceAllowed(n.db, f))
  {
    var n, r, c := Next(s, Commit(t)), s.txs[t].reg, s.txs[t].change.consent;
    assert c in n.db.consents && n.db.consents[c] == Consent(r, true, false);
    assert HasConsent(n.db, r);
    hide RegistrationsByFace, FaceIds;
  }

  /** The consents after a revocation. */
  predicate OneRevoked(a: map<ConsentId, Consent>, b: map<ConsentId, Consent>, c: ConsentId) {
    && b.Keys == a.Keys && c in a && b[c] == Consent(a[c].child, a[c].valid, true)
    && forall d :: d in a && d != c ==> b[d] == a[d]
  }

  /** Consents other than one that count for a registration. */
  ghost predicate AnotherCounts(db: Db, r: Reg, c: ConsentId) {
    exists d :: d in db.consents && d != c && db.consents[d] == Consent(r, true, false)
  }

  lemma WithoutTheRevoked(db: Db, r: Reg, c: ConsentId)
    requires c in db.consents
    ensures LeftWithout(db, r, Revoke(c)) <==> !AnotherCounts(db, r, c)
  {
    var after := RevokeConsent(db, c);
    if AnotherCounts(db, r, c) {
      var d :| d in db.consents && d != c && db.consents[d] == Consent(r, true, false);
      assert d in after.consents && after.consents[d] == Consent(r, true, false);
    }
    if HasConsent(after, r) {
      var d :| d in after.consents && after.consents[d] == Consent(r, true, false);
      assert d in db.consents && d != c && db.consents[d] == Consent(r, true, false);
    }
  }

  /**
   * A committed revocation takes the consent away. A minor that needs approval and has no other consent is
   * rejected with the intent to remove its faces, none of which is allowed any more; while another consent
   * counts, nothing else changes.
   */
  lemma RevocationTakes(s: Sys, t: TxId)
    requires Committing(s, t) && s.txs[t].change.Revoke?
    ensures var n, r, c := Next(s, Commit(t)), s.txs[t].reg, s.txs[t].change.consent;
            && OnlyEnds(s, n, t) && OnlyOne(s.db, n.db, r) && OneRevoked(s.db.consents, n.db.consents, c)
            && FacesRecorded(s.db, n.db, r)
            && (NeedsApproval(s.db.regs[r]) && !AnotherCounts(s.db, r, c) ==>
                  && n.db.regs[r].status == Rejected && (forall f :: f in FaceIds(s.db, r) ==> !FaceAllowed(n.db, f))
                  && (s.db.regs[r].status != Rejected ==> Rejects(s.db, n.db, r)))
            && (AnotherCounts(s.db, r, c) ==> n.db.regs == s.db.regs)
  {
    hide Next, Committing, Written, FaceIds, FaceAllowed, LeftWithout, AnotherCounts, HasConsent, Blocks, OnlyEnds;
    Commits(s, t);
    var tx := s.txs[t];
    var n, r, c := Next(s, Commit(t)), tx.reg, tx.change.consent;
    WithoutTheRevoked(s.db, r, c);
    RevokedTables(s.db, r, c, tx.decision.reject);
    SameFaces(s.db, n.db, r);
    if NeedsApproval(s.db.regs[r]) && !AnotherCounts(s.db, r, c) {
      RejectedBlocks(n.db, r);
      BlockedIsNotAllowed(n.db, r);
    }
  }

  lemma RejectedBlocks(db: Db, r: Reg)
    requires r in db.regs && db.regs[r].status == Rejected && (db.regs[r].removalPending || NeedsApproval(db.regs[r]))
    ensures BlocksIn(db, r)
  {
  }

  lemma RevokedTables(db: Db, r: Reg, c: ConsentId, reject: bool)
    requires r in db.regs && c in db.consents
    ensures var b := Written(db, r, Revoke(c), reject);
            && OneRevoked(db.consents, b.consents, c) && FacesRecorded(db, b, r)
            && b.regs == if reject then db.regs[r := db.regs[r].(status := Rejected, removalPending := true)] else db.regs
  {
  }

  /** A committed check rejects a minor without consent, unless it is rejected already, and nobody else. */
  lemma RejectionTakes(s: Sys, t: TxId)
    requires Committing(s, t) && s.txs[t].change.RejectIfUnauthorized?
    ensures var n, r := Next(s, Commit(t)), s.txs[t].reg;
            && OnlyEnds(s, n, t) && OnlyOne(s.db, n.db, r) && n.db.consents == s.db.consents
            && (NeedsApproval(s.db.regs[r]) && !HasConsent(s.db, r) && s.db.regs[r].status != Rejected ==> Rejects(s.db, n.db, r))
            && (HasConsent(s.db, r) ==> n.db == s.db)
  {
    hide Next, Committing, Written, FaceIds, FaceAllowed, HasConsent, Blocks, OnlyEnds;
    Commits(s, t);
    var tx := s.txs[t];
    var n, r := Next(s, Commit(t)), tx.reg;
    RejectedTables(s.db, r, tx.decision.reject);
    if tx.decision.reject {
      SameFaces(s.db, n.db, r);
      RejectedBlocks(n.db, r);
      BlockedIsNotAllowed(n.db, r);
    }
  }

  lemma RejectedTables(db: Db, r: Reg, reject: bool)
    requires r in db.regs
    ensures var b := Written(db, r, RejectIfUnauthorized, reject);
            && b.consents == db.consents && (!reject ==> b == db)
            && (reject ==> FacesRecorded(db, b, r) && b.regs == db.regs[r := db.regs[r].(status := Rejected, removalPending := true)])
  {
  }

  /** A committed regularization puts the minor under the rules and rejects it. */
  lemma RegularizationTakes(s: Sys, t: TxId)
    requires Committing(s, t) && s.txs[t].change.Regularize?
    ensures var n, r := Next(s, Commit(t)), s.txs[t].reg;
            && OnlyEnds(s, n, t) && OnlyOne(s.db, n.db, r) && n.db.consents == s.db.consents
            && n.db.regs[r].required && Rejects(s.db, n.db, r)
  {
    hide Next, Committing, Written, FaceIds, FaceAllowed, HasConsent, Blocks, OnlyEnds;
    Commits(s, t);
    var tx := s.txs[t];
    var n, r := Next(s, Commit(t)), tx.reg;
    RegularizedTables(s.db, r, tx.decision.reject);
    SameFaces(s.db, n.db, r);
    RejectedBlocks(n.db, r);
    BlockedIsNotAllowed(n.db, r);
  }

  lemma RegularizedTables(db: Db, r: Reg, reject: bool)
    requires r in db.regs
    ensures var b := Written(db, r, Regularize, reject);
            && b.consents == db.consents && FacesRecorded(db, b, r)
            && b.regs == db.regs[r := db.regs[r].(status := Rejected, removalPending := true, required := true)]
  {
  }

  /** A committed sweep takes the consent away and sets the intent to remove the faces. */
  lemma SweepTakes(s: Sys, t: TxId)
    requires Committing(s, t) && s.txs[t].change.Sweep?
    ensures var n, r, c := Next(s, Commit(t)), s.txs[t].reg, s.txs[t].change.consent;
            && OnlyEnds(s, n, t) && OneRevoked(s.db.consents, n.db.consents, c) && n.db.tracked == s.db.tracked
            && n.db.regs == s.db.regs[r := s.db.regs[r].(removalPending := true)]
            && (NeedsApproval(s.db.regs[r]) && !AnotherCounts(s.db, r, c) ==> forall f :: f in FaceIds(n.db, r) ==> !FaceAllowed(n.db, f))
  {
    var tx := s.txs[t];
    var n, r, c := Next(s, Commit(t)), tx.reg, tx.change.consent;
    assert Current(s, t);
    if NeedsApproval(s.db.regs[r]) && !AnotherCounts(s.db, r, c) {
      WithoutTheRevoked(s.db, r, c);
      SameConsents(n.db, RevokeConsent(s.db, c), r, tx.change);
      BlockedIsNotAllowed(n.db, r);
    }
  }

  /** A completed removal clears the intent, and each face of the registration is allowed or off every reader. */
  lemma RemovalTakes(s: Sys, t: TxId)
    requires Inv(s) && Enabled(s, CommitRemoval(t))
    ensures var n, r := Next(s, CommitRemoval(t)), s.txs[t].reg;
            && OnlyEnds(s, n, t)
            && n.db == s.db.(regs := s.db.regs[r := s.db.regs[r].(removalPending := false)])
            && forall f :: f in FaceIds(s.db, r) ==> FaceAllowed(s.db, f) || !OnReaders(n, f)
  {
    var n, r := Next(s, CommitRemoval(t)), s.txs[t].reg;
    assert Current(s, t);
    hide FaceIds, FaceAllowed, HasConsent;
    forall f | f in FaceIds(s.db, r) ensures FaceAllowed(s.db, f) || !OnReaders(n, f) {
      assert f in s.txs[t].done;
      assert OnReaders(n, f) == OnReaders(s, f);
    }
  }

  ghost predicate IsRevoked(db: Db, c: ConsentId) {
    c in db.consents && db.consents[c].revoked
  }

  /** Steps of their own: faces are recorded, a status is set, and a minor comes of age. */
  lemma OwnSteps(s: Sys, r: Reg, status: Status)
    requires r in s.db.regs
    ensures Enabled(s, Remember(r)) ==>
              var n := Next(s, Remember(r)); n == s.(db := n.db) && FacesRecorded(s.db, n.db, r) && n.db == s.db.(tracked := n.db.tracked)
    ensures Enabled(s, Approve(r, status)) ==>
              Next(s, Approve(r, status)) == s.(db := s.db.(regs := s.db.regs[r := s.db.regs[r].(status := status)]))
    ensures Next(s, ComeOfAge(r)) == s.(db := s.db.(regs := s.db.regs[r := s.db.regs[r].(minor := false)]))
  {
  }

  lemma StepKeepsRevoked(s: Sys, step: Step, c: ConsentId)
    requires Enabled(s, step) && IsRevoked(s.db, c)
    ensures IsRevoked(Next(s, step).db, c) && Next(s, step).db.consents[c].child == s.db.consents[c].child
  {
    hide FaceIds, FaceAllowed, HasConsent, MustReject;
  }

  /** A revoked consent stays revoked, whatever happens. */
  lemma {:induction false} RevokedForGood(s: Sys, steps: seq<Step>, c: ConsentId)
    requires IsRun(s, steps) && IsRevoked(s.db, c)
    ensures IsRevoked(After(s, steps).db, c)
    decreases |steps|
  {
    hide Enabled, Next;
    if steps != [] {
      StepKeepsRevoked(s, steps[0], c);
      RevokedForGood(Next(s, steps[0]), steps[1..], c);
    }
  }

  // ---------- runs that get there ----------

  lemma {:induction false} RunAppend(s: Sys, a: seq<Step>, b: seq<Step>)
    requires IsRun(s, a) && IsRun(After(s, a), b)
    ensures IsRun(s, a + b) && After(s, a + b) == After(After(s, a), b)
    decreases |a|
  {
    hide Enabled, Next;
    if a == [] {
      assert a + b == b;
    } else {
      assert (a + b)[0] == a[0] && (a + b)[1..] == a[1..] + b;
      RunAppend(Next(s, a[0]), a[1..], b);
    }
  }

  lemma OneStep(s: Sys, step: Step)
    requires Enabled(s, step)
    ensures IsRun(s, [step]) && After(s, [step]) == Next(s, step)
  {
    hide Enabled, Next;
    assert [step][1..] == [];
    assert IsRun(Next(s, step), []);
    assert After(Next(s, step), []) == Next(s, step);
  }

  lemma Then(s: Sys, steps: seq<Step>, step: Step)
    requires IsRun(s, steps) && Enabled(After(s, steps), step)
    ensures IsRun(s, steps + [step]) && After(s, steps + [step]) == Next(After(s, steps), step)
  {
    hide Enabled, Next;
    OneStep(After(s, steps), step);
    RunAppend(s, steps, [step]);
  }

  /** Nothing is going on. */
  predicate Quiet(s: Sys) {
    s.txs == map[] && s.rowLocks == map[] && s.faceLocks == map[]
  }

  /** An allowed face can be put on a reader. */
  lemma AllowedFaceGetsOn(s: Sys, f: Face, reader: Reader) returns (steps: seq<Step>)
    requires Quiet(s) && reader in s.readers && FaceAllowed(s.db, f)
    ensures IsRun(s, steps) && After(s, steps) == s.(readers := s.readers[reader := s.readers[reader] + {f}])
  {
    hide Enabled, Next, IsRun, After, FaceAllowed;
    var checked := SyncCanCheck(s, f);
    var n := s.(txs := map[0 := Syncing(f, true)], faceLocks := map[f := 0]);
    SyncWritesAndEnds(s, n, f, reader);
    steps := checked + [Write(0, reader)];
    Then(s, checked, Write(0, reader));
    Then(s, steps, End(0));
    steps := steps + [End(0)];
  }

  lemma SyncCanCheck(s: Sys, f: Face) returns (steps: seq<Step>)
    requires Quiet(s) && FaceAllowed(s.db, f)
    ensures IsRun(s, steps) && After(s, steps) == s.(txs := map[0 := Syncing(f, true)], faceLocks := map[f := 0])
  {
    hide IsRun, After, FaceAllowed;
    OneStep(s, StartSync(0, f));
    Then(s, [StartSync(0, f)], LockFace(0, f));
    steps := [StartSync(0, f)] + [LockFace(0, f)];
    Then(s, steps, CheckSync(0));
    steps := steps + [CheckSync(0)];
  }

  lemma SyncWritesAndEnds(s: Sys, n: Sys, f: Face, reader: Reader)
    requires Quiet(s) && n == s.(txs := map[0 := Syncing(f, true)], faceLocks := map[f := 0]) && reader in s.readers
    ensures Enabled(n, Write(0, reader)) && Enabled(Next(n, Write(0, reader)), End(0))
    ensures Next(Next(n, Write(0, reader)), End(0)) == s.(readers := s.readers[reader := s.readers[reader] + {f}])
  {
  }

  /** A sync can also take an allowed face off a reader. */
  lemma AllowedFaceGetsOff(s: Sys, f: Face, reader: Reader) returns (steps: seq<Step>)
    requires Quiet(s) && reader in s.readers && FaceAllowed(s.db, f)
    ensures IsRun(s, steps) && After(s, steps) == s.(readers := s.readers[reader := s.readers[reader] - {f}])
  {
    hide Enabled, Next, IsRun, After, FaceAllowed;
    var checked := SyncCanCheck(s, f);
    var n := s.(txs := map[0 := Syncing(f, true)], faceLocks := map[f := 0]);
    SyncErasesAndEnds(s, n, f, reader);
    steps := checked + [Erase(0, reader)];
    Then(s, checked, Erase(0, reader));
    Then(s, steps, End(0));
    steps := steps + [End(0)];
  }

  lemma SyncErasesAndEnds(s: Sys, n: Sys, f: Face, reader: Reader)
    requires Quiet(s) && n == s.(txs := map[0 := Syncing(f, true)], faceLocks := map[f := 0]) && reader in s.readers
    ensures Enabled(n, Erase(0, reader)) && Enabled(Next(n, Erase(0, reader)), End(0))
    ensures Next(Next(n, Erase(0, reader)), End(0)) == s.(readers := s.readers[reader := s.readers[reader] - {f}])
  {
  }

  /** A transaction can lock faces that are free. */
  lemma {:induction false} LocksCanBeTaken(s: Sys, t: TxId, faces: set<Face>) returns (steps: seq<Step>)
    requires t in s.txs && faces <= Wanted(s.txs[t]) && s.faceLocks.Keys !! faces
    ensures IsRun(s, steps) && After(s, steps) == s.(faceLocks := s.faceLocks + map f | f in faces :: t)
    decreases faces
  {
    hide Enabled, Next;
    if faces == {} {
      steps := [];
      assert s.faceLocks + (map f | f in faces :: t) == s.faceLocks;
    } else {
      hide IsRun, After;
      var f :| f in faces;
      LockTaken(s, t, f, faces);
      OneStep(s, LockFace(t, f));
      var more := LocksCanBeTaken(s.(faceLocks := s.faceLocks[f := t]), t, faces - {f});
      RunAppend(s, [LockFace(t, f)], more);
      steps := [LockFace(t, f)] + more;
    }
  }

  lemma LockTaken(s: Sys, t: TxId, f: Face, faces: set<Face>)
    requires t in s.txs && f in Wanted(s.txs[t]) && f !in s.faceLocks && f in faces
    ensures Enabled(s, LockFace(t, f)) && Next(s, LockFace(t, f)) == s.(faceLocks := s.faceLocks[f := t])
    ensures s.faceLocks[f := t] + (map g | g in faces - {f} :: t) == s.faceLocks + (map g | g in faces :: t)
  {
  }

  /** The readers without a face on some of them. */
  function Without(readers: map<Reader, set<Face>>, some: set<Reader>, f: Face): map<Reader, set<Face>> {
    map r | r in readers :: if r in some then readers[r] - {f} else readers[r]
  }

  /** A removal can take its face off readers, one after another. */
  lemma {:induction false} FaceCanGo(s: Sys, t: TxId, some: set<Reader>) returns (steps: seq<Step>)
    requires t in s.txs && s.txs[t].Removing? && s.txs[t].current.Some? && some <= s.readers.Keys
    ensures IsRun(s, steps) && After(s, steps) == s.(readers := Without(s.readers, some, s.txs[t].current.value))
    decreases some
  {
    var f := s.txs[t].current.value;
    if some == {} {
      steps := [];
      assert Without(s.readers, some, f) == s.readers;
    } else {
      var r :| r in some;
      var n := Next(s, RemoveFrom(t, r));
      OneStep(s, RemoveFrom(t, r));
      var more := FaceCanGo(n, t, some - {r});
      assert Without(n.readers, some - {r}, f) == Without(s.readers, some, f);
      hide Enabled, Next, IsRun, After;
      RunAppend(s, [RemoveFrom(t, r)], more);
      steps := [RemoveFrom(t, r)] + more;
    }
  }

  lemma NotOn(s: Sys, readers: map<Reader, set<Face>>, f: Face)
    requires s.readers == Without(readers, readers.Keys, f)
    ensures !OnReaders(s, f)
  {
  }

  /** Faces of a registration that have to go. */
  ghost function Unwanted(db: Db, faces: set<Face>): set<Face> {
    set f | f in faces && !FaceAllowed(db, f)
  }

  function Cleared(readers: map<Reader, set<Face>>, gone: set<Face>): map<Reader, set<Face>> {
    map r | r in readers :: readers[r] - gone
  }

  lemma ClearedParts(readers: map<Reader, set<Face>>, a: set<Face>, b: set<Face>, f: Face)
    ensures Cleared(readers, {}) == readers && Cleared(Cleared(readers, a), b) == Cleared(readers, a + b)
    ensures Without(readers, readers.Keys, f) == Cleared(readers, {f})
  {
    forall r | r in readers ensures readers[r] - {} == readers[r] && (readers[r] - a) - b == readers[r] - (a + b) {
    }
  }

  lemma UnwantedParts(db: Db, faces: set<Face>, f: Face)
    ensures Unwanted(db, {}) == {} && Unwanted(db, {f}) == if FaceAllowed(db, f) then {} else {f}
    ensures f in faces ==> Unwanted(db, {f}) + Unwanted(db, faces - {f}) == Unwanted(db, faces)
  {
    hide FaceAllowed;
    forall g ensures g in Unwanted(db, {f}) <==> g == f && !FaceAllowed(db, f) {
    }
  }

  /** A removal can deal with one of its faces. */
  lemma OneFaceDone(s: Sys, t: TxId, f: Face) returns (steps: seq<Step>)
    requires t in s.txs && s.txs[t].Removing? && s.txs[t].current.None? && f in s.txs[t].faces && Holds(s, t, s.txs[t].faces)
    ensures IsRun(s, steps)
    ensures After(s, steps) == s.(readers := Cleared(s.readers, Unwanted(s.db, {f})),
                                  txs := s.txs[t := s.txs[t].(done := s.txs[t].done + {f})])
  {
    hide FaceAllowed, Cleared, Unwanted, Without;
    ClearedParts(s.readers, {}, {}, f);
    UnwantedParts(s.db, {}, f);
    if FaceAllowed(s.db, f) {
      steps := [SkipFace(t, f)];
      OneStep(s, SkipFace(t, f));
    } else {
      var a := Next(s, PickFace(t, f));
      OneStep(s, PickFace(t, f));
      var erase := FaceCanGo(a, t, a.readers.Keys);
      var b := After(a, erase);
      NotOn(b, s.readers, f);
      OneStep(b, FaceGone(t));
      assert Next(b, FaceGone(t)).txs == s.txs[t := s.txs[t].(done := s.txs[t].done + {f})];
      hide Enabled, Next, IsRun, After;
      RunAppend(s, [PickFace(t, f)], erase);
      RunAppend(s, [PickFace(t, f)] + erase, [FaceGone(t)]);
      steps := [PickFace(t, f)] + erase + [FaceGone(t)];
    }
  }

  lemma {:induction false} FacesDone(s: Sys, t: TxId, todo: set<Face>) returns (steps: seq<Step>)
    requires t in s.txs && s.txs[t].Removing? && s.txs[t].current.None? && todo <= s.txs[t].faces && Holds(s, t, s.txs[t].faces)
    ensures IsRun(s, steps)
    ensures After(s, steps) == s.(readers := Cleared(s.readers, Unwanted(s.db, todo)),
                                  txs := s.txs[t := s.txs[t].(done := s.txs[t].done + todo)])
    decreases todo
  {
    hide FaceAllowed, Cleared, Unwanted;
    if todo == {} {
      steps := [];
      ClearedParts(s.readers, {}, {}, 0);
      UnwantedParts(s.db, {}, 0);
      assert s.txs[t].done + todo == s.txs[t].done;
    } else {
      var f :| f in todo;
      UnwantedParts(s.db, todo, f);
      ClearedParts(s.readers, Unwanted(s.db, {f}), Unwanted(s.db, todo - {f}), f);
      var first := OneFaceDone(s, t, f);
      var n := After(s, first);
      var more := FacesDone(n, t, todo - {f});
      assert n.txs[t].done + (todo - {f}) == s.txs[t].done + todo;
      hide Enabled, Next, IsRun, After;
      RunAppend(s, first, more);
      steps := first + more;
    }
  }

  /**
   * An intent can be carried out: from any quiet state the removal has a run after which the intent is cleared
   * and every face of the registration that is not allowed is off all readers; nothing else has changed.
   */
  lemma RemovalCanFinish(s: Sys, r: Reg) returns (steps: seq<Step>)
    requires Quiet(s) && r in s.db.regs && s.db.regs[r].removalPending
    ensures IsRun(s, steps)
    ensures After(s, steps) == s.(db := s.db.(regs := s.db.regs[r := s.db.regs[r].(removalPending := false)]),
                                  readers := Cleared(s.readers, Unwanted(s.db, FaceIds(s.db, r))))
  {
    hide IsRun, After, FaceAllowed, FaceIds, Unwanted, Cleared;
    var faces := FaceIds(s.db, r);
    RemovalBegins(s, r);
    OneStep(s, BeginRemoval(0, r));
    hide Enabled, Next;
    var a := s.(txs := map[0 := Removing(r, faces, {}, None)], rowLocks := map[r := 0]);
    var locks := LocksCanBeTaken(a, 0, faces);
    var b := After(a, locks);
    AllLocked(b, faces);
    var work := FacesDone(b, 0, faces);
    var c := After(b, work);
    assert {} + faces == faces;
    RemovalEnds(s, b, c, r, faces);
    RunAppend(s, [BeginRemoval(0, r)], locks);
    RunAppend(s, [BeginRemoval(0, r)] + locks, work);
    steps := [BeginRemoval(0, r)] + locks + work;
    Then(s, steps, CommitRemoval(0));
    steps := steps + [CommitRemoval(0)];
  }

  lemma RemovalBegins(s: Sys, r: Reg)
    requires Quiet(s) && r in s.db.regs && s.db.regs[r].removalPending
    ensures Enabled(s, BeginRemoval(0, r))
    ensures Next(s, BeginRemoval(0, r)) == s.(txs := map[0 := Removing(r, FaceIds(s.db, r), {}, None)], rowLocks := map[r := 0])
  {
  }

  lemma AllLocked(s: Sys, faces: set<Face>)
    requires s.faceLocks == map[] + map f | f in faces :: 0
    ensures Holds(s, 0, faces) && s.faceLocks == map f | f in faces :: 0
  {
  }

  lemma RemovalEnds(s: Sys, b: Sys, c: Sys, r: Reg, faces: set<Face>)
    requires Quiet(s) && b.readers == s.readers && b.db == s.db && r in s.db.regs
    requires b.txs == map[0 := Removing(r, faces, {}, None)] && b.rowLocks == map[r := 0] && b.faceLocks == map f | f in faces :: 0
    requires c == b.(readers := c.readers, txs := c.txs) && c.txs == map[0 := Removing(r, faces, faces, None)]
    ensures Enabled(c, CommitRemoval(0))
    ensures Next(c, CommitRemoval(0)) == s.(db := s.db.(regs := s.db.regs[r := s.db.regs[r].(removalPending := false)]), readers := c.readers)
  {
  }

  /** The conditions under which a change is asked for. */
  ghost predicate Asked(db: Db, r: Reg, change: Change)
    requires r in db.regs
  {
    var x := db.regs[r];
    && (change.Accept? ==> change.consent !in db.consents && x.required && x.minor && x.isActive)
    && (change.Revoke? || change.Sweep? ==> change.consent in db.consents && db.consents[change.consent].child == r)
    && (change.Regularize? ==> x.isActive && x.status == Approved && x.minor && !x.required)
  }

  /** Nothing is decided unless it is asked for. */
  lemma OnlyTheAskedIsDecided(s: Sys, t: TxId)
    requires t in s.txs && s.txs[t].Changing? && s.txs[t].reg in s.db.regs
    ensures Enabled(s, Decide(t)) <==> Asked(s.db, s.txs[t].reg, s.txs[t].change)
  {
  }

  /** A change that is asked for in a quiet state can be committed. */
  lemma ChangeCanCommit(s: Sys, r: Reg, change: Change) returns (steps: seq<Step>)
    requires Quiet(s) && r in s.db.regs && Asked(s.db, r, change)
    ensures IsRun(s, steps)
    ensures After(s, steps) == s.(db := Written(s.db, r, change, MustReject(s.db, r, change)))
  {
    hide IsRun, After, FaceAllowed, FaceIds, Written, MustReject, Asked;
    var faces := FaceIds(s.db, r);
    ChangeBegins(s, r, change);
    OneStep(s, Begin(0, r, change));
    hide Enabled, Next;
    var a := s.(txs := map[0 := Changing(r, change, faces, Undecided)], rowLocks := map[r := 0]);
    var locks := LocksCanBeTaken(a, 0, faces);
    var b := After(a, locks);
    AllLocked(b, faces);
    RunAppend(s, [Begin(0, r, change)], locks);
    steps := [Begin(0, r, change)] + locks;
    ChangeEnds(s, b, r, change, faces);
    Then(s, steps, Decide(0));
    steps := steps + [Decide(0)];
    Then(s, steps, Commit(0));
    steps := steps + [Commit(0)];
  }

  lemma ChangeBegins(s: Sys, r: Reg, change: Change)
    requires Quiet(s) && r in s.db.regs
    ensures Enabled(s, Begin(0, r, change))
    ensures Next(s, Begin(0, r, change))
         == s.(txs := map[0 := Changing(r, change, FaceIds(s.db, r), Undecided)], rowLocks := map[r := 0])
  {
  }

  lemma ChangeEnds(s: Sys, b: Sys, r: Reg, change: Change, faces: set<Face>)
    requires Quiet(s) && r in s.db.regs && Asked(s.db, r, change) && Holds(b, 0, faces)
    requires b == s.(txs := map[0 := Changing(r, change, faces, Undecided)], rowLocks := map[r := 0], faceLocks := b.faceLocks)
    requires b.faceLocks == map f | f in faces :: 0
    ensures Enabled(b, Decide(0)) && Enabled(Next(b, Decide(0)), Commit(0))
    ensures Next(Next(b, Decide(0)), Commit(0)) == s.(db := Written(s.db, r, change, MustReject(s.db, r, change)))
  {
    hide Written, MustReject, FaceIds, HasConsent;
  }

  /**
   * A revocation reaches the readers: from any quiet state the last consent of a minor can be revoked and the
   * removal carried out, after which none of its faces is on any reader.
   */
  lemma RevocationCanTakeAway(s: Sys, r: Reg, c: ConsentId) returns (steps: seq<Step>)
    requires Quiet(s) && r in s.db.regs && NeedsApproval(s.db.regs[r]) && s.db.regs[r].status != Rejected
    requires c in s.db.consents && s.db.consents[c].child == r && !AnotherCounts(s.db, r, c)
    ensures IsRun(s, steps) && Quiet(After(s, steps)) && IsRevoked(After(s, steps).db, c)
    ensures forall f :: f in FaceIds(s.db, r) ==> !OnReaders(After(s, steps), f)
  {
    hide IsRun, After, FaceAllowed, FaceIds, AnotherCounts, Written, LeftWithout, Blocks, HasConsent;
    WithoutTheRevoked(s.db, r, c);
    RevokedTables(s.db, r, c, true);
    var first := ChangeCanCommit(s, r, Revoke(c));
    var n := After(s, first);
    SameFaces(s.db, n.db, r);
    RejectedBlocks(n.db, r);
    BlockedIsNotAllowed(n.db, r);
    var removal := RemovalCanFinish(n, r);
    RunAppend(s, first, removal);
    steps := first + removal;
    forall f | f in FaceIds(s.db, r) ensures !OnReaders(After(s, steps), f) {
      assert f in Unwanted(n.db, FaceIds(n.db, r));
    }
  }
}
