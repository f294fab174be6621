/** Notification of readers that stay offline: one timer a reader, armed when it drops and cleared when it returns. */
module OfflineNotifier {
  import opened Wrappers

  type Reader = string

  datatype Action = Schedule | Cancel | NoAction

  function DecideOfflineNotifyAction(
    previous: Option<bool>, next: bool, alreadyNotified: bool, hasPendingTimer: bool): Action
  {
    if next && previous != Some(true) then Cancel
    else if !next && previous != Some(false) then
      (if alreadyNotified || hasPendingTimer then NoAction else Schedule)
    else NoAction
  }

  predicate ShouldEmit(currentlyConnected: bool, alreadyNotified: bool) {
    !currentlyConnected && !alreadyNotified
  }

  // ---------- what happened, as an observer saw it ----------

  /**
   * A status update recorded a reader's connection, a reader was entered without one, a reader was dropped from
   * monitoring, a notification went out.
   */
  datatype Entry =
    | Recorded(reader: Reader, connected: bool, at: nat)
    | Entered(reader: Reader, connected: bool, at: nat)
    | TornDown(reader: Reader)
    | Notified(reader: Reader, at: nat)

  /** `dropped` says that the absence began with a status update. */
  datatype Presence = Unknown | Online | Offline(since: nat, dropped: bool)

  /** What an entry about a reader does to its presence and to whether it was notified. */
  function Effect(e: Entry, before: Presence, notified: bool): (Presence, bool) {
    match e
    case Recorded(_, connected, at) =>
      if connected then (Online, false) else (if before.Offline? then before else Offline(at, true), notified)
    case Entered(_, connected, at) =>
      if connected then (Online, false) else (if before.Offline? then before else Offline(at, false), notified)
    case TornDown(_) => (Unknown, false)
    case Notified(_, _) => (before, true)
  }

  /** Presence of a reader after a history: since when it has been offline without interruption. */
  function PresenceOf(log: seq<Entry>, r: Reader): Presence {
    if log == [] then Unknown else
      var before, e := PresenceOf(log[..|log| - 1], r), log[|log| - 1];
      if e.reader == r then Effect(e, before, false).0 else before
  }

  /** A notification for the reader went out after its last return online or teardown. */
  predicate NotifiedSince(log: seq<Entry>, r: Reader) {
    if log == [] then false else
      var before, e := NotifiedSince(log[..|log| - 1], r), log[|log| - 1];
      if e.reader == r then Effect(e, Unknown, before).1 else before
  }

  /** The notification at position k is due after a recorded drop, and it is the first since the reader's last return. */
  ghost predicate Justified(log: seq<Entry>, k: nat, debounce: nat)
    requires k < |log| && log[k].Notified?
  {
    var presence := PresenceOf(log[..k], log[k].reader);
    presence.Offline? && presence.dropped && presence.since + debounce <= log[k].at && !NotifiedSince(log[..k], log[k].reader)
  }

  ghost predicate AllJustified(log: seq<Entry>, debounce: nat) {
    forall k :: 0 <= k < |log| && log[k].Notified? ==> Justified(log, k, debounce)
  }

  lemma JustifiedStays(log: seq<Entry>, e: Entry, debounce: nat)
    requires AllJustified(log, debounce)
    requires e.Notified? ==> Justified(log + [e], |log|, debounce)
    ensures AllJustified(log + [e], debounce)
  {
    forall k | 0 <= k < |log| + 1 && (log + [e])[k].Notified? ensures Justified(log + [e], k, debounce) {
      if k < |log| {
        assert (log + [e])[..k] == log[..k];
      }
    }
  }

  /** A reader is back, or monitored no more. */
  predicate Returns(e: Entry) {
    e.TornDown? || ((e.Recorded? || e.Entered?) && e.connected)
  }

  /** Two notifications for one reader have its return online or its teardown between them. */
  lemma {:induction false} ReturnBetween(log: seq<Entry>, debounce: nat, i: nat, j: nat)
    requires AllJustified(log, debounce)
    requires i < j < |log| && log[i].Notified? && log[j].Notified? && log[i].reader == log[j].reader
    ensures exists k :: i < k < j && log[k].reader == log[i].reader && Returns(log[k])
  {
    var r := log[i].reader;
    assert Justified(log, j, debounce);
    var k := j;
    while !(log[k - 1].reader == r && Returns(log[k - 1]))
      invariant i < k <= j && !NotifiedSince(log[..k], r)
      invariant forall n :: k <= n < j ==> log[n] != TornDown(r)
      decreases k
    {
      assert log[..k][..k - 1] == log[..k - 1];
      k := k - 1;
      assert k != i;
    }
    assert log[..i + 1][..i] == log[..i];
    assert k - 1 != i;
  }

  // ---------- the service ----------

  datatype Timer = Timer(reader: Reader, due: nat)

  /** What the service keeps about one reader. */
  datatype Watch = Watch(status: Option<bool>, due: Option<nat>, notified: bool)

  /**
   * The tables agree with the history: a timer is pending exactly for a reader whose drop a status update
   * recorded and that was not notified since, and it is due a debounce after the drop; notified means offline
   * without a timer.
   */
  ghost predicate Agrees(w: Watch, presence: Presence, notified: bool, now: nat, debounce: nat) {
    && w.notified == notified
    && (presence.Unknown? <==> w.status.None?)
    && (presence.Online? <==> w.status == Some(true))
    && (presence.Offline? ==> presence.since <= now)
    && w.due == (if presence.Offline? && presence.dropped && !notified then Some(presence.since + debounce) else None)
    && (w.notified ==> presence.Offline? && presence.dropped)
  }

  function Acted(w: Watch, action: Action, now: nat, debounce: nat): Watch {
    match action
    case Cancel => w.(due := None, notified := false)
    case Schedule => w.(due := Some(now + debounce))
    case NoAction => w
  }

  /** What a status update makes of a reader's entries in the tables. */
  function Updated(w: Watch, next: bool, now: nat, debounce: nat): Watch {
    Acted(w.(status := Some(next)), DecideOfflineNotifyAction(w.status, next, w.notified, w.due.Some?), now, debounce)
  }

  lemma UpdateAgrees(w: Watch, presence: Presence, notified: bool, r: Reader, next: bool, now: nat, debounce: nat)
    requires w.status.Some? && Agrees(w, presence, notified, now, debounce)
    ensures var (p, n) := Effect(Recorded(r, next, now), presence, notified);
            Agrees(Updated(w, next, now, debounce), p, n, now, debounce)
  {
    if next {
      if w.status == Some(true) {
        assert w.due == None;
      } else {
        assert Updated(w, next, now, debounce) == Watch(Some(true), None, false);
      }
    } else if w.status == Some(false) {
      assert Updated(w, next, now, debounce) == w;
    } else {
      assert w.status == Some(w.status.value) && w.status.value;
      assert presence.Online?;
      assert w.due == None && !w.notified;
    }
  }

  class Listener {
    const debounce: nat
    var now: nat
    /** Connection state of the monitored readers. */
    var statuses: map<Reader, bool>
    /** The pending timer of a reader. */
    var offlineNotifyTimers: map<Reader, nat>
    var offlineNotifiedAt: map<Reader, nat>
    /** Timers of the event loop that are armed. */
    var armed: map<nat, Timer>
    var nextTimer: nat
    ghost var log: seq<Entry>

    ghost predicate Valid()
      reads this
    {
      && TimersMatch()
      && (forall r :: Agrees(WatchOf(r), PresenceOf(log, r), NotifiedSince(log, r), now, debounce))
      && AllJustified(log, debounce)
    }

    ghost function WatchOf(r: Reader): Watch
      reads this`statuses, this`offlineNotifyTimers, this`armed, this`offlineNotifiedAt, this`nextTimer
      requires TimersMatch()
    {
      Watch(if r in statuses then Some(statuses[r]) else None,
            if r in offlineNotifyTimers then Some(armed[offlineNotifyTimers[r]].due) else None,
            r in offlineNotifiedAt)
    }

    /** The armed timers are exactly those in the table. */
    ghost predicate TimersMatch()
      reads this`offlineNotifyTimers, this`armed, this`nextTimer
    {
      && (forall id :: id in armed ==> id < nextTimer)
      && (forall r :: r in offlineNotifyTimers ==> offlineNotifyTimers[r] in armed && armed[offlineNotifyTimers[r]].reader == r)
      && (forall id :: id in armed ==> armed[id].reader in offlineNotifyTimers && offlineNotifyTimers[armed[id].reader] == id)
    }

    constructor (debounce: nat)
      ensures Valid() && log == [] && this.debounce == debounce
    {
      this.debounce := debounce;
      now, statuses, nextTimer := 0, map[], 0;
      offlineNotifyTimers, offlineNotifiedAt, armed := map[], map[], map[];
      log := [];
    }

    /** The clock moves on. */
    method Tick(later: nat)
      requires Valid() && now <= later
      modifies this`now
      ensures Valid() && now == later
    {
      now := later;
    }

    /** Appends to the history; every reader but the one concerned is unaffected. */
    ghost method Append(e: Entry)
      requires AllJustified(log, debounce) && (e.Notified? ==> Justified(log + [e], |log|, debounce))
      modifies this`log
      ensures log == old(log) + [e] && AllJustified(log, debounce)
      ensures forall q :: q != e.reader ==>
                PresenceOf(log, q) == PresenceOf(old(log), q) && NotifiedSince(log, q) == NotifiedSince(old(log), q)
      ensures (PresenceOf(log, e.reader), NotifiedSince(log, e.reader))
           == Effect(e, PresenceOf(old(log), e.reader), NotifiedSince(old(log), e.reader))
    {
      JustifiedStays(log, e, debounce);
      assert (log + [e])[..|log|] == log;
      log := log + [e];
    }

    /** Records a reader that is not monitored yet, or sets a monitored one offline at start-up. */
    method SetStatus(r: Reader, connected: bool)
      requires Valid() && (r in statuses ==> !connected)
      modifies this
      ensures Valid() && log == old(log) + [Entered(r, connected, now)] && now == old(now)
    {
      hide PresenceOf, NotifiedSince, AllJustified;
      assert Agrees(WatchOf(r), PresenceOf(log, r), NotifiedSince(log, r), now, debounce);
      statuses := statuses[r := connected];
      Append(Entered(r, connected, now));
      assert forall q :: q != r ==> WatchOf(q) == old(WatchOf(q));
    }

    /** A partial status update; without a connection state it changes nothing here. */
    method UpdateStatus(r: Reader, connected: Option<bool>)
      requires Valid()
      modifies this
      ensures Valid() && now == old(now)
      ensures log == if r in old(statuses) && connected.Some? then old(log) + [Recorded(r, connected.value, now)] else old(log)
    {
      if r !in statuses {
        return;
      }
      var current := statuses[r];
      if connected == None {
        return;
      }
      hide PresenceOf, NotifiedSince, AllJustified, Agrees, Effect, DecideOfflineNotifyAction, Acted;
      ghost var was, presence, notified := WatchOf(r), PresenceOf(log, r), NotifiedSince(log, r);
      assert Agrees(was, presence, notified, now, debounce);
      statuses := statuses[r := connected.value];
      var action := DecideOfflineNotifyAction(
        Some(current), connected.value, r in offlineNotifiedAt, r in offlineNotifyTimers);
      UpdateAgrees(was, presence, notified, r, connected.value, now, debounce);
      Append(Recorded(r, connected.value, now));
      assert WatchOf(r) == was.(status := connected);
      assert forall q :: q != r ==> WatchOf(q) == old(WatchOf(q));
      Act(r, action);
    }

    method Act(r: Reader, action: Action)
      requires TimersMatch()
      modifies this`armed, this`offlineNotifyTimers, this`offlineNotifiedAt, this`nextTimer
      ensures TimersMatch() && WatchOf(r) == Acted(old(WatchOf(r)), action, now, debounce)
      ensures forall q :: q != r ==> WatchOf(q) == old(WatchOf(q))
    {
      if action == Cancel {
        CancelOfflineNotify(r);
      } else if action == Schedule {
        ScheduleOfflineNotify(r);
      }
    }

    /** The reader is back: nothing is pending and the next drop may be notified again. */
    method CancelOfflineNotify(r: Reader)
      requires TimersMatch()
      modifies this`armed, this`offlineNotifyTimers, this`offlineNotifiedAt
      ensures TimersMatch() && WatchOf(r) == old(WatchOf(r)).(due := None, notified := false)
      ensures forall q :: q != r ==> WatchOf(q) == old(WatchOf(q))
    {
      ClearOfflineNotifyTimer(r);
      offlineNotifiedAt := offlineNotifiedAt - {r};
    }

    method ClearOfflineNotifyTimer(r: Reader)
      requires TimersMatch()
      modifies this`armed, this`offlineNotifyTimers
      ensures TimersMatch() && WatchOf(r) == old(WatchOf(r)).(due := None)
      ensures forall q :: q != r ==> WatchOf(q) == old(WatchOf(q))
    {
      if r in offlineNotifyTimers {
        armed := armed - {offlineNotifyTimers[r]};
      }
      offlineNotifyTimers := offlineNotifyTimers - {r};
    }

    method ScheduleOfflineNotify(r: Reader)
      requires TimersMatch()
      modifies this`armed, this`offlineNotifyTimers, this`nextTimer
      ensures TimersMatch() && WatchOf(r) == old(WatchOf(r)).(due := Some(now + debounce))
      ensures forall q :: q != r ==> WatchOf(q) == old(WatchOf(q))
    {
      ClearOfflineNotifyTimer(r);
      label cleared:
      armed := armed[nextTimer := Timer(r, now + debounce)];
      offlineNotifyTimers := offlineNotifyTimers[r := nextTimer];
      nextTimer := nextTimer + 1;
      assert forall q :: q != r ==> WatchOf(q) == old@cleared(WatchOf(q));
    }

    /** An armed timer goes off, no earlier than it is due. It always sends a notification. */
    method TimerFires(id: nat)
      requires Valid() && id in armed && armed[id].due <= now
      modifies this
      ensures Valid() && now == old(now)
      ensures log == old(log) + [Notified(old(armed[id].reader), now)]
    {
      hide PresenceOf, NotifiedSince, AllJustified;
      var r := armed[id].reader;
      assert Agrees(WatchOf(r), PresenceOf(log, r), NotifiedSince(log, r), now, debounce);
      ghost var was := WatchOf(r);
      armed := armed - {id};
      offlineNotifyTimers := offlineNotifyTimers - {r};
      assert forall q :: q != r ==> WatchOf(q) == old(WatchOf(q));
      assert WatchOf(r).(due := was.due) == was;
      EmitOfflineIfStillDown(r, was.due);
    }

    /** `due` is when the timer that went off was due, if one did. */
    method EmitOfflineIfStillDown(r: Reader, ghost due: Option<nat>)
      requires TimersMatch() && AllJustified(log, debounce) && r !in offlineNotifyTimers
      requires forall q :: q != r ==> Agrees(WatchOf(q), PresenceOf(log, q), NotifiedSince(log, q), now, debounce)
      requires Agrees(WatchOf(r).(due := due), PresenceOf(log, r), NotifiedSince(log, r), now, debounce)
      requires PresenceOf(log, r).Offline? && !NotifiedSince(log, r) ==> due.Some? && due.value <= now
      modifies this`offlineNotifiedAt, this`log
      ensures Valid()
      ensures log == if r in statuses && ShouldEmit(statuses[r], r in old(offlineNotifiedAt))
                     then old(log) + [Notified(r, now)] else old(log)
    {
      if r !in statuses {
        return;
      }
      if !ShouldEmit(statuses[r], r in offlineNotifiedAt) {
        return;
      }
      hide PresenceOf, NotifiedSince, AllJustified;
      offlineNotifiedAt := offlineNotifiedAt[r := now];
      assert (log + [Notified(r, now)])[..|log|] == log;
      Append(Notified(r, now));
      assert forall q :: q != r ==> WatchOf(q) == old(WatchOf(q));
    }

    /** The reader is no longer monitored. */
    method Teardown(r: Reader)
      requires Valid()
      modifies this
      ensures Valid() && log == old(log) + [TornDown(r)] && now == old(now)
    {
      hide PresenceOf, NotifiedSince, AllJustified;
      assert Agrees(WatchOf(r), PresenceOf(log, r), NotifiedSince(log, r), now, debounce);
      CancelOfflineNotify(r);
      statuses := statuses - {r};
      Append(TornDown(r));
      assert forall q :: q != r ==> WatchOf(q) == old(WatchOf(q));
    }

    /** An offline reader is waiting for its notification exactly when a status update recorded its drop. */
    lemma DropIsPending(r: Reader)
      requires Valid() && PresenceOf(log, r).Offline? && !NotifiedSince(log, r)
      ensures var presence := PresenceOf(log, r);
              if presence.dropped
              then r in offlineNotifyTimers && armed[offlineNotifyTimers[r]] == Timer(r, presence.since + debounce)
              else r !in offlineNotifyTimers
    {
      hide PresenceOf, NotifiedSince, AllJustified;
      assert Agrees(WatchOf(r), PresenceOf(log, r), NotifiedSince(log, r), now, debounce);
    }
  }

  /** A reader entered as offline is not notified before it returned. */
  lemma {:induction false} QuietUntilReturn(log: seq<Entry>, debounce: nat, i: nat, j: nat)
    requires AllJustified(log, debounce) && i < j < |log| && log[j].Notified? && log[i].reader == log[j].reader
    requires log[i].Entered? && !log[i].connected && !PresenceOf(log[..i], log[i].reader).Offline?
    ensures exists k :: i < k < j && log[k].reader == log[i].reader && Returns(log[k])
  {
    var r := log[i].reader;
    assert Justified(log, j, debounce);
    assert log[..i + 1][..i] == log[..i];
    var k := i + 1;
    while k < j && !(log[k].reader == r && Returns(log[k]))
      invariant i < k <= j && PresenceOf(log[..k], r).Offline? && !PresenceOf(log[..k], r).dropped
    {
      assert log[..k + 1][..k] == log[..k];
      k := k + 1;
    }
  }
}
