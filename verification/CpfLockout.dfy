/** Guessing limit of an approval request: five failed CPF comparisons lock it for fifteen minutes. */
module CpfLockout {
  import opened Wrappers

  const MAX_FAILURES: nat := 5
  const LOCK_MS: nat := 900_000

  datatype Answer = Confirmed | Locked | Mismatch

  /** Locked at a time. */
  predicate LockedAt(lockedUntil: Option<int>, now: int) {
    lockedUntil.Some? && lockedUntil.value > now
  }

  datatype Child = Child(needsApproval: bool, isActive: bool, rejected: bool, requestedAt: Option<int>, unit: Option<nat>)

  datatype Adult = Adult(
    available: bool, isActive: bool, approved: bool, isVisitor: bool, unit: Option<nat>, age: Option<nat>)

  /**
   * What an acceptance reads besides the request's counters. Reachable: the request is not canceled, both
   * registrations exist, and the client is active with approvals switched on.
   */
  datatype Case = Case(
    reachable: bool, child: Child, adult: Adult, unit: Option<nat>, expiresAt: int, termVersion: string,
    consentRevoked: bool)

  datatype Form = Form(cpfMatches: bool, termVersion: string, agreed: bool)

  datatype Reply = Unavailable | CpfError(answer: Answer) | Revoked | AlreadyAccepted | NotEligible | Accepted

  /** An adult of the child's unit may accept before the request expires. */
  predicate Eligible(c: Case, form: Form, now: int) {
    && c.child.needsApproval && c.child.isActive && (c.child.rejected ==> c.child.requestedAt.Some?)
    && c.adult.available && c.adult.isActive && c.adult.approved && !c.adult.isVisitor
    && c.adult.unit == c.child.unit == c.unit
    && c.adult.age.Some? && c.adult.age.value >= 18
    && now <= c.expiresAt && form.termVersion == c.termVersion && form.agreed
  }

  /** The refusals, in the order in which they are given. */
  function ReplyTo(lockedUntil: Option<int>, acceptedAt: Option<int>, c: Case, form: Form, now: int): Reply {
    if !c.reachable then Unavailable
    else if LockedAt(lockedUntil, now) then CpfError(Locked)
    else if !form.cpfMatches then CpfError(Mismatch)
    else if acceptedAt.Some? then if c.consentRevoked then Revoked else AlreadyAccepted
    else if Eligible(c, form, now) then Accepted else NotEligible
  }

  /**
   * One approval request. Its row is locked by every transaction that verifies a CPF, so the calls are one
   * after another, and their times do not decrease.
   */
  class ApprovalRequest {
    var verificationFailures: nat
    var lockedUntil: Option<int>
    var acceptedAt: Option<int>
    /** Times of the comparisons that failed. */
    ghost var failed: seq<int>
    /** Number of comparisons, failed or not. */
    ghost var comparisons: nat
    /** Rounds of five failures that ended in a lock, and when the last lock ends. */
    ghost var rounds: nat
    ghost var lockEnd: int
    /** Failures forgotten by the reset on acceptance. */
    ghost var forgotten: nat
    ghost var clock: int

    ghost predicate Valid()
      reads this
    {
      && (lockedUntil.Some? <==> verificationFailures == MAX_FAILURES)
      && verificationFailures <= MAX_FAILURES
      && |failed| == MAX_FAILURES * rounds + Partial() + forgotten
      && forgotten < MAX_FAILURES && (forgotten > 0 ==> acceptedAt.Some?)
      && (rounds > 0 ==> failed != [] && failed[0] + LOCK_MS * rounds <= lockEnd)
      && (lockedUntil.Some? ==> rounds > 0 && lockedUntil == Some(lockEnd))
      && (failed != [] ==> failed[0] <= failed[|failed| - 1] <= clock)
      && (rounds > 0 && lockedUntil.None? ==> lockEnd <= clock)
      && (failed != [] ==> rounds == 0 || failed[0] + LOCK_MS * (rounds - 1) <= failed[|failed| - 1])
      && (Partial() > 0 && rounds > 0 ==> lockEnd <= failed[|failed| - 1])
    }

    /** Failures of the round that is not complete yet. */
    ghost function Partial(): nat
      reads this
    {
      if lockedUntil.Some? then 0 else verificationFailures
    }

    constructor ()
      ensures Valid() && failed == [] && comparisons == 0 && acceptedAt == None
    {
      verificationFailures, lockedUntil, acceptedAt := 0, None, None;
      failed, comparisons, rounds, lockEnd, forgotten, clock := [], 0, 0, 0, 0, 0;
    }

    /** Compares a CPF unless the request is locked, and counts a failure. */
    method VerifyCpf(matches: bool, now: int) returns (answer: Answer)
      requires Valid() && clock <= now
      modifies this
      ensures Valid() && clock == now && acceptedAt == old(acceptedAt)
      ensures answer == if LockedAt(old(lockedUntil), now) then Locked else if matches then Confirmed else Mismatch
      ensures comparisons == old(comparisons) + if answer == Locked then 0 else 1
      ensures failed == if answer == Mismatch then old(failed) + [now] else old(failed)
      ensures answer != Mismatch ==> verificationFailures == old(verificationFailures) && lockedUntil == old(lockedUntil)
      ensures answer == Mismatch ==> verificationFailures == if old(lockedUntil).Some? then 1 else old(verificationFailures) + 1
      ensures answer == Mismatch ==>
                lockedUntil == if verificationFailures >= MAX_FAILURES then Some(now + LOCK_MS) else None
    {
      hide ApprovalRequest.Valid;
      Pass(now);
      if lockedUntil.Some? && lockedUntil.value > now {
        return Locked;
      }
      Compare();
      if matches {
        return Confirmed;
      }
      CountMismatch(now);
      return Mismatch;
    }

    ghost method Pass(now: int)
      requires Valid() && clock <= now
      modifies this`clock
      ensures Valid() && clock == now
    {
      clock := now;
    }

    ghost method Compare()
      requires Valid()
      modifies this`comparisons
      ensures Valid() && comparisons == old(comparisons) + 1
    {
      comparisons := comparisons + 1;
    }

    /** A failed comparison: one after a lock, otherwise one more, and the fifth locks. */
    method CountMismatch(now: int)
      requires Valid() && clock == now && !LockedAt(lockedUntil, now)
      modifies this`verificationFailures, this`lockedUntil, this`failed, this`rounds, this`lockEnd
      ensures Valid() && failed == old(failed) + [now]
      ensures verificationFailures == if old(lockedUntil).Some? then 1 else old(verificationFailures) + 1
      ensures lockedUntil == if verificationFailures >= MAX_FAILURES then Some(now + LOCK_MS) else None
    {
      var failures := if lockedUntil.Some? then 1 else verificationFailures + 1;
      verificationFailures := failures;
      lockedUntil := if failures >= MAX_FAILURES then Some(now + LOCK_MS) else None;
      failed := failed + [now];
      if failures >= MAX_FAILURES {
        rounds := rounds + 1;
        lockEnd := now + LOCK_MS;
      }
    }

    /** The acceptance is noted and the failures are forgotten. */
    method Grant(now: int)
      requires Valid() && clock == now && !LockedAt(lockedUntil, now) && acceptedAt.None?
      modifies this`verificationFailures, this`lockedUntil, this`acceptedAt, this`forgotten
      ensures Valid() && acceptedAt == Some(now) && verificationFailures == 0 && lockedUntil == None
    {
      forgotten := forgotten + Partial();
      acceptedAt := Some(now);
      verificationFailures, lockedUntil := 0, None;
    }

    /** Accepting verifies the CPF first; the first acceptance of an eligible request forgets earlier failures. */
    method Accept(c: Case, form: Form, now: int) returns (reply: Reply)
      requires Valid() && clock <= now
      modifies this
      ensures Valid() && clock == now
      ensures reply == ReplyTo(old(lockedUntil), old(acceptedAt), c, form, now)
      ensures acceptedAt == if reply == Accepted then Some(now) else old(acceptedAt)
      ensures comparisons == old(comparisons) + if reply in {Unavailable, CpfError(Locked)} then 0 else 1
      ensures failed == if reply == CpfError(Mismatch) then old(failed) + [now] else old(failed)
      ensures verificationFailures
           == if reply == Accepted then 0
              else if reply != CpfError(Mismatch) then old(verificationFailures)
              else if old(lockedUntil).Some? then 1 else old(verificationFailures) + 1
      ensures lockedUntil
           == if reply == Accepted then None
              else if reply != CpfError(Mismatch) then old(lockedUntil)
              else if verificationFailures >= MAX_FAILURES then Some(now + LOCK_MS) else None
    {
      hide ApprovalRequest.Valid;
      Pass(now);
      if !c.reachable {
        return Unavailable;
      }
      var answer := VerifyCpf(form.cpfMatches, now);
      if answer != Confirmed {
        return CpfError(answer);
      }
      if acceptedAt.Some? {
        return if c.consentRevoked then Revoked else AlreadyAccepted;
      }
      if !c.child.needsApproval || !c.child.isActive || (c.child.rejected && c.child.requestedAt == None)
         || !c.adult.available || !c.adult.isActive || !c.adult.approved || c.adult.isVisitor
         || c.adult.unit != c.child.unit || c.child.unit != c.unit
         || (if c.adult.age.Some? then c.adult.age.value else -1) < 18
         || c.expiresAt < now || form.termVersion != c.termVersion || !form.agreed {
        return NotEligible;
      }
      Grant(now);
      return Accepted;
    }

    /** However the calls came, few comparisons failed for the time they took. */
    lemma FewFailures()
      requires Valid() && failed != []
      ensures var span := failed[|failed| - 1] - failed[0];
              |failed| <= MAX_FAILURES * (1 + span / LOCK_MS) + (if acceptedAt.Some? then MAX_FAILURES - 1 else 0)
      ensures verificationFailures <= MAX_FAILURES
    {
    }
  }
}
