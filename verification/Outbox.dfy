/** The e-mail outbox of approval requests: claims with a lease, bounded attempts and growing pauses. */
module Outbox {
  import opened Wrappers

  const LEASE_MS: int := 120_000
  const MAX_ATTEMPTS: nat := 8
  const MAX_PAUSE_MS: int := 3_600_000

  function Pow2(n: nat): (p: int)
    ensures p > 0
  {
    if n == 0 then 1 else 2 * Pow2(n - 1)
  }

  /** Pause after the attempt with the given number. */
  function Pause(attempt: nat): int {
    var growing := 30_000 * Pow2(attempt);
    if growing < MAX_PAUSE_MS then growing else MAX_PAUSE_MS
  }

  /** The pauses double, from half a minute up to an hour, where they stay. */
  lemma PausesDouble(attempt: nat)
    ensures Pause(0) == 30_000 && Pause(attempt + 1) == if Pause(attempt) <= 1_800_000 then 2 * Pause(attempt) else 3_600_000
  {
  }

  /** An attempt of some dispatcher to send the e-mail; `sent` once the e-mail is out. */
  datatype Attempt = Attempt(claimedAt: int, number: nat, sent: bool)

  /** How an attempt that reported back ended. */
  datatype Ending = Ending(at: int, number: nat, error: bool)

  /** A success was reported. */
  predicate Succeeded(endings: seq<Ending>) {
    exists i :: 0 <= i < |endings| && !endings[i].error
  }

  /** The last report is a success. */
  predicate LastSucceeded(endings: seq<Ending>) {
    endings != [] && !endings[|endings| - 1].error
  }

  lemma SucceededMore(endings: seq<Ending>, e: Ending)
    ensures Succeeded(endings + [e]) <==> Succeeded(endings) || !e.error
    ensures LastSucceeded(endings + [e]) <==> !e.error
  {
    var more := endings + [e];
    assert more[|endings|] == e;
    if Succeeded(endings) {
      var i :| 0 <= i < |endings| && !endings[i].error;
      assert !more[i].error;
    }
  }

  /** Someone is at work longer than the lease. */
  ghost predicate Overdue(running: map<nat, Attempt>, now: int) {
    exists a :: a in running && running[a].claimedAt + LEASE_MS < now
  }

  /** Attempts whose lease is over are overdue. */
  lemma LeaseOver(running: map<nat, Attempt>, lockedAt: Option<int>, now: int)
    requires forall a :: a in running ==> lockedAt == Some(running[a].claimedAt)
    requires lockedAt.Some? ==> lockedAt.value < now - LEASE_MS
    ensures running != map[] ==> Overdue(running, now)
  {
    if running != map[] {
      var a :| a in running;
      assert running[a].claimedAt + LEASE_MS < now;
    }
  }

  lemma LastIsSuccess(endings: seq<Ending>)
    ensures LastSucceeded(endings) ==> Succeeded(endings)
  {
  }

  /**
   * One request, worked on by any number of dispatchers. Their steps interleave; the times of the steps
   * do not decrease.
   */
  class Request {
    var canceledAt: Option<int>
    var acceptedAt: Option<int>
    var emailSentAt: Option<int>
    var emailAttempts: nat
    var emailNextAttemptAt: int
    var emailLockedAt: Option<int>
    /** Attempts that have neither ended nor crashed. */
    ghost var running: map<nat, Attempt>
    ghost var nextAttempt: nat
    /** Claims, e-mails that went out, and reports of attempts, since the last resend. */
    ghost var claims: nat
    ghost var mails: nat
    ghost var endings: seq<Ending>
    /** Every attempt so far ended or crashed within the lease. */
    ghost var prompt: bool
    /** Every attempt that sent the e-mail reported success, or is still running. */
    ghost var faithful: bool
    ghost var clock: int

    ghost predicate Valid()
      reads this
    {
      && claims == emailAttempts <= MAX_ATTEMPTS
      && (forall a :: a in running ==> a < nextAttempt && running[a].number <= MAX_ATTEMPTS && running[a].claimedAt <= clock)
      && (endings != [] ==> emailNextAttemptAt >= endings[|endings| - 1].at + Pause(endings[|endings| - 1].number))
      && (emailLockedAt.Some? ==> emailLockedAt.value <= clock)
      && (emailSentAt.Some? <==> LastSucceeded(endings))
      && (prompt ==> Exclusive())
      && (prompt && faithful && mails > 0 ==> Accounted())
    }

    /** Only one attempt runs; it holds the lease and no success was reported yet. */
    ghost predicate Exclusive()
      reads this
    {
      && (forall a, b :: a in running && b in running ==> a == b)
      && (forall a :: a in running ==> emailLockedAt == Some(running[a].claimedAt) && !Succeeded(endings))
      && (Succeeded(endings) ==> emailSentAt.Some?)
    }

    /** The e-mail that went out is marked, or its attempt is about to report. */
    ghost predicate Accounted()
      reads this
    {
      emailSentAt.Some? || exists a :: a in running && running[a].sent
    }

    constructor (now: int)
      ensures canceledAt == acceptedAt == emailSentAt == emailLockedAt == None
      ensures emailNextAttemptAt == now && emailAttempts == 0
      ensures Valid() && claims == 0 && mails == 0 && endings == [] && prompt && faithful && running == map[] && clock == now
    {
      canceledAt, acceptedAt, emailSentAt, emailLockedAt := None, None, None, None;
      emailAttempts, emailNextAttemptAt := 0, now;
      running, nextAttempt, claims, mails, endings, clock := map[], 0, 0, 0, [], now;
      prompt, faithful := true, true;
    }

    /** Time passes up to a step; an attempt that outlives its lease is noticed. */
    ghost method Pass(now: int)
      requires Valid() && clock <= now
      modifies this`clock, this`prompt
      ensures Valid() && clock == now && prompt == (old(prompt) && !Overdue(running, now))
    {
      prompt := prompt && !Overdue(running, now);
      clock := now;
    }

    /** Open, with attempts left, due and not leased. */
    predicate Claimable(now: int)
      reads this
    {
      && canceledAt.None? && acceptedAt.None? && emailSentAt.None?
      && emailAttempts < MAX_ATTEMPTS && emailNextAttemptAt <= now
      && (emailLockedAt.None? || emailLockedAt.value < now - LEASE_MS)
    }

    /** A dispatcher takes the request if it is open, due and not leased. */
    method Claim(now: int) returns (claimed: bool, ghost attempt: nat)
      requires Valid() && clock <= now
      modifies this
      ensures Valid() && clock == now && prompt == (old(prompt) && !Overdue(old(running), now)) && faithful == old(faithful)
      ensures claimed == old(Claimable(now))
      ensures claims == emailAttempts == old(claims) + (if claimed then 1 else 0) <= MAX_ATTEMPTS
      ensures running == if claimed then old(running)[attempt := Attempt(now, claims, false)] else old(running)
      ensures claimed ==> attempt !in old(running) && emailLockedAt == Some(now)
      ensures !claimed ==> unchanged(`emailLockedAt)
      ensures unchanged(`canceledAt) && unchanged(`acceptedAt) && unchanged(`emailSentAt) && unchanged(`emailNextAttemptAt)
      ensures endings == old(endings) && mails == old(mails)
      ensures claimed && prompt ==> old(running) == map[] && !Succeeded(endings)
      ensures claimed && prompt && faithful ==> mails == 0
      ensures claimed && endings != [] ==> now >= endings[|endings| - 1].at + Pause(endings[|endings| - 1].number)
    {
      hide Pause, Succeeded, LastSucceeded, Overdue;
      attempt := nextAttempt;
      Pass(now);
      if canceledAt.Some? || acceptedAt.Some? || emailSentAt.Some? || emailAttempts >= 8 || emailNextAttemptAt > now
         || (emailLockedAt.Some? && emailLockedAt.value >= now - 120_000) {
        return false, attempt;
      }
      if prompt {
        LeaseOver(running, emailLockedAt, now);
      }
      assert prompt ==> running == map[];
      emailLockedAt := Some(now);
      emailAttempts := emailAttempts + 1;
      claims := claims + 1;
      running := running[attempt := Attempt(now, claims, false)];
      nextAttempt := nextAttempt + 1;
      return true, attempt;
    }

    /** The e-mail of an attempt goes out. */
    ghost method Send(attempt: nat, now: int)
      requires Valid() && clock <= now && attempt in running && !running[attempt].sent
      modifies this`running, this`mails, this`clock, this`prompt
      ensures Valid() && clock == now && prompt == (old(prompt) && !Overdue(old(running), now))
      ensures running == old(running)[attempt := old(running)[attempt].(sent := true)] && mails == old(mails) + 1
    {
      hide Pause, Succeeded, LastSucceeded, Overdue;
      Pass(now);
      running := running[attempt := running[attempt].(sent := true)];
      mails := mails + 1;
      assert running[attempt].sent;
    }

    /** An attempt reports success, after its e-mail went out, or an error. */
    method Finish(ghost attempt: nat, number: nat, error: bool, now: int)
      requires Valid() && clock <= now && attempt in running && running[attempt].number == number
      requires !error ==> running[attempt].sent
      modifies this
      ensures Valid() && clock == now && prompt == (old(prompt) && !Overdue(old(running), now))
      ensures faithful == (old(faithful) && !(error && old(running)[attempt].sent))
      ensures running == old(running) - {attempt} && claims == old(claims) && mails == old(mails)
      ensures endings == old(endings) + [Ending(now, number, error)]
      ensures emailNextAttemptAt == now + Pause(number)
      ensures emailSentAt == if error then None else Some(now)
      ensures emailLockedAt == None && emailAttempts == claims
      ensures unchanged(`canceledAt) && unchanged(`acceptedAt)
    {
      hide Pause, Succeeded, LastSucceeded, Overdue;
      Pass(now);
      LastIsSuccess(endings);
      assert prompt ==> !Succeeded(endings) && emailSentAt.None? && forall a :: a in running ==> a == attempt;
      assert prompt && faithful && mails > 0 ==> running[attempt].sent;
      Report(attempt, number, error, now);
      emailSentAt := if error then None else Some(now);
      emailLockedAt := None;
      emailNextAttemptAt := now + Pause(number);
    }

    /** What the history records of a report. */
    ghost method Report(attempt: nat, number: nat, error: bool, now: int)
      requires attempt in running
      modifies this`running, this`endings, this`faithful
      ensures running == old(running) - {attempt}
      ensures endings == old(endings) + [Ending(now, number, error)]
      ensures faithful == (old(faithful) && !(error && old(running)[attempt].sent))
      ensures Succeeded(endings) <==> Succeeded(old(endings)) || !error
      ensures LastSucceeded(endings) <==> !error
    {
      SucceededMore(endings, Ending(now, number, error));
      faithful := faithful && !(error && running[attempt].sent);
      running := running - {attempt};
      endings := endings + [Ending(now, number, error)];
    }

    /** An attempt finds the request no longer eligible and cancels it instead of sending. */
    method CancelIneligible(ghost attempt: nat, now: int)
      requires Valid() && clock <= now && attempt in running && !running[attempt].sent
      modifies this
      ensures Valid() && clock == now && canceledAt == Some(now) && claims == old(claims) && mails == old(mails)
      ensures emailLockedAt == None
      ensures unchanged(`acceptedAt) && unchanged(`emailSentAt) && unchanged(`emailAttempts) && unchanged(`emailNextAttemptAt)
      ensures running == old(running) - {attempt} && endings == old(endings)
      ensures prompt == (old(prompt) && !Overdue(old(running), now)) && faithful == old(faithful)
    {
      hide Pause, Succeeded, LastSucceeded, Overdue;
      Pass(now);
      canceledAt := Some(now);
      emailLockedAt := None;
      running := running - {attempt};
    }

    /** The process of an attempt dies; the row stays as it is. */
    ghost method Crash(attempt: nat, now: int)
      requires Valid() && clock <= now && attempt in running
      modifies this`running, this`clock, this`prompt, this`faithful
      ensures Valid() && clock == now && running == old(running) - {attempt}
      ensures prompt == (old(prompt) && !Overdue(old(running), now)) && faithful == (old(faithful) && !old(running)[attempt].sent)
    {
      hide Pause, Succeeded, LastSucceeded, Overdue;
      Pass(now);
      faithful := faithful && !running[attempt].sent;
      running := running - {attempt};
    }

    /** The request is accepted or canceled by another transaction. */
    method Close(accepted: bool, now: int)
      requires Valid() && clock <= now
      modifies this
      ensures Valid() && clock == now && claims == old(claims) && running == old(running)
      ensures endings == old(endings) && mails == old(mails)
      ensures acceptedAt == (if accepted then Some(now) else old(acceptedAt))
      ensures canceledAt == (if accepted then old(canceledAt) else Some(now))
      ensures unchanged(`emailSentAt) && unchanged(`emailAttempts) && unchanged(`emailNextAttemptAt) && unchanged(`emailLockedAt)
    {
      Pass(now);
      if accepted {
        acceptedAt := Some(now);
      } else {
        canceledAt := Some(now);
      }
    }

    /** An administrator asks for the e-mail again: attempts start anew. */
    method Resend(now: int)
      requires Valid() && clock <= now
      modifies this
      ensures Valid() && clock == now && claims == 0 && mails == 0 && endings == [] && running == old(running)
      ensures emailSentAt == None && emailAttempts == 0 && emailNextAttemptAt == now
      ensures unchanged(`canceledAt) && unchanged(`acceptedAt) && unchanged(`emailLockedAt)
    {
      Pass(now);
      emailSentAt := None;
      emailAttempts := 0;
      emailNextAttemptAt := now;
      claims, mails, endings := 0, 0, [];
    }

    /** A reported success is marked no more exactly when the last report, after it, is an error. */
    lemma MarkLostIff()
      requires Valid()
      ensures Succeeded(endings) && emailSentAt.None? <==>
              exists i :: 0 <= i < |endings| - 1 && !endings[i].error && endings[|endings| - 1].error
    {
      if Succeeded(endings) && emailSentAt.None? {
        var i :| 0 <= i < |endings| && !endings[i].error;
      }
    }
  }

  /**
   * Promptness is needed: an attempt that fails after its lease, when another one has already succeeded, clears
   * the sent mark, and the request whose e-mail was sent is claimed again.
   */
  method LateFailureResends() returns (r: Request)
    ensures fresh(r) && r.Valid() && !r.prompt && r.faithful && r.claims == 3 && r.mails == 1
    ensures r.endings == [Ending(130_000, 2, false), Ending(200_000, 1, true)]
    ensures exists a :: a in r.running && r.running[a].claimedAt == 260_000
  {
    r := new Request(0);
    ghost var slow, quick, third: nat;
    var claimed;
    claimed, slow := r.Claim(0);
    claimed, quick := r.Claim(120_001);
    r.Send(quick, 125_000);
    r.Finish(quick, 2, false, 130_000);
    r.Finish(slow, 1, true, 200_000);
    assert Pause(1) == 60_000;
    claimed, third := r.Claim(260_000);
    assert r.running[third].claimedAt == 260_000;
  }
}
