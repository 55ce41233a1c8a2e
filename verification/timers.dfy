/**
  The per-reactor timer manager (`TimerManager`) as a functional state
  machine: every in-loop operation is a pure transition on an immutable
  record holding the two indices, the set of timers cancelled during the
  current firing pass, the firing flag and the deadline last programmed
  into the kernel timer descriptor.

  Callbacks are represented only by the cancel requests they issue while a
  firing pass runs; the clock is a parameter.
 */
module Timers {
  import opened TimerList

  datatype Option<T> = None | Some(value: T)

  datatype TimerManager = TimerManager(
    /** `timers_`: the live timers, ascending by (expiration, identity). */
    timers: seq<Timer>,
    /** `activeTimers_`: the live timers' (identity, sequence) handles. */
    activeTimers: set<TimerId>,
    /** `cancelingTimers_`: handles cancelled while their timer was firing. */
    cancelingTimers: set<TimerId>,
    /** `callingExpiredTimers_`. */
    callingExpiredTimers: bool,
    /** The absolute deadline last programmed into the timer descriptor. */
    armed: Option<Timestamp>)

  /** The index invariant the source checks around every mutation. */
  predicate Inv(m: TimerManager) {
    && Sorted(m.timers)
    && DistinctIds(m.timers)
    && (forall t | t in m.timers :: t.id < MaxId)
    && m.activeTimers == Handles(m.timers)
  }

  /** `Timestamp::valid()`: an unset timestamp is 0. */
  predicate TimestampValid(t: Timestamp) {
    t > 0
  }

  /** The descriptor never fires after the earliest live timer is due. */
  predicate NoLateWakeup(m: TimerManager) {
    |m.timers| > 0 ==> m.armed.Some? && m.armed.value <= m.timers[0].expiration
  }

  /** A manager just constructed: empty indices, nothing firing, descriptor unarmed. */
  function NewTimerManager(): (m: TimerManager)
    ensures Inv(m) && NoLateWakeup(m)
    ensures |m.timers| == 0 && |m.activeTimers| == 0 && !m.callingExpiredTimers
  {
    TimerManager([], {}, {}, false, None)
  }

  /** The two indices always hold the same number of entries. */
  lemma IndexSizesAgree(m: TimerManager)
    requires Inv(m)
    ensures |m.timers| == |m.activeTimers|
  {
    HandlesCardinality(m.timers);
  }

  /**
    `insert`: enters the timer into both indices and reports whether the
    earliest deadline moved, which is when the new timer is due strictly
    before every live timer (an equal timestamp does not count).
   */
  function Insert(m: TimerManager, t: Timer): (r: (TimerManager, bool))
    requires Inv(m)
    requires t.id < MaxId && t.id !in Ids(m.timers)
    ensures Inv(r.0)
    ensures |r.0.timers| == |r.0.activeTimers| == |m.timers| + 1
    ensures forall u :: u in r.0.timers <==> u in m.timers || u == t
    ensures r.0.activeTimers == m.activeTimers + {t.Handle()}
    ensures r.1 <==> forall u | u in m.timers :: t.expiration < u.expiration
    ensures r.1 ==> r.0.timers[0] == t
    ensures !r.1 ==> r.0.timers[0].expiration == m.timers[0].expiration
    ensures r.0.cancelingTimers == m.cancelingTimers
    ensures r.0.callingExpiredTimers == m.callingExpiredTimers
    ensures r.0.armed == m.armed
  {
    var earliestChanged := |m.timers| == 0 || t.expiration < m.timers[0].expiration;
    var timers := InsertSorted(m.timers, t);
    var r := m.(timers := timers, activeTimers := m.activeTimers + {t.Handle()});
    assert r.activeTimers == Handles(timers);
    assert t.Handle() !in m.activeTimers;
    IndexSizesAgree(m);
    IndexSizesAgree(r);
    EarliestChangedMeansEarliest(m.timers, t);
    (r, earliestChanged)
  }

  /** The earliest-deadline test of `insert` against the new first entry of the index. */
  lemma EarliestChangedMeansEarliest(s: seq<Timer>, t: Timer)
    requires Sorted(s) && forall u | u in s :: u.Key() != t.Key()
    ensures var changed := |s| == 0 || t.expiration < s[0].expiration;
            && (changed <==> forall u | u in s :: t.expiration < u.expiration)
            && (changed ==> InsertSorted(s, t)[0] == t)
            && (!changed ==> InsertSorted(s, t)[0].expiration == s[0].expiration)
  {
  }

  /**
    `addTimerInLoop`: inserts the timer and re-arms the descriptor at its
    expiration only when it became the earliest deadline.
   */
  function AddTimerInLoop(m: TimerManager, t: Timer): (r: TimerManager)
    requires Inv(m)
    requires t.id < MaxId && t.id !in Ids(m.timers)
    ensures Inv(r)
    ensures |r.timers| == |r.activeTimers| == |m.timers| + 1
    ensures t in r.timers && t.Handle() in r.activeTimers
    ensures forall u :: u in r.timers <==> u in m.timers || u == t
    ensures r.activeTimers == m.activeTimers + {t.Handle()}
    ensures (forall u | u in m.timers :: t.expiration < u.expiration) ==> r.armed == Some(t.expiration)
    ensures !(forall u | u in m.timers :: t.expiration < u.expiration) ==> r.armed == m.armed
  {
    var (r, earliestChanged) := Insert(m, t);
    if earliestChanged then r.(armed := Some(t.expiration)) else r
  }

  /** Adding a timer keeps the descriptor from firing after the earliest deadline. */
  lemma AddTimerKeepsNoLateWakeup(m: TimerManager, t: Timer)
    requires Inv(m) && NoLateWakeup(m)
    requires t.id < MaxId && t.id !in Ids(m.timers)
    ensures NoLateWakeup(AddTimerInLoop(m, t))
  {
  }

  /**
    `cancelInLoop`: a live handle is removed from both indices (exactly one
    `timers_` entry is erased); a handle that is not live is recorded in
    `cancelingTimers_` while a firing pass runs, and is otherwise ignored.
   */
  function CancelInLoop(m: TimerManager, h: TimerId): (r: TimerManager)
    requires Inv(m)
    ensures Inv(r)
    ensures |r.timers| == |r.activeTimers|
    ensures h in m.activeTimers ==> |r.timers| == |m.timers| - 1
    ensures forall u :: u in r.timers <==> u in m.timers && u.Handle() != h
    ensures r.activeTimers == m.activeTimers - {h}
    ensures h !in m.activeTimers ==> r.timers == m.timers
    ensures r.cancelingTimers == if h !in m.activeTimers && m.callingExpiredTimers
                                 then m.cancelingTimers + {h} else m.cancelingTimers
    ensures r.callingExpiredTimers == m.callingExpiredTimers
    ensures r.armed == m.armed
  {
    IndexSizesAgree(m);
    if h in m.activeTimers then
      var t := TimerOf(m.timers, h);
      var (timers, n) := EraseKey(m.timers, t.Key());
      assert n == 1;
      assert forall u | u in m.timers :: u.Handle() == h <==> u.Key() == t.Key();
      var r := m.(timers := timers, activeTimers := m.activeTimers - {h});
      assert r.activeTimers == Handles(timers);
      IndexSizesAgree(r);
      r
    else if m.callingExpiredTimers then
      m.(cancelingTimers := m.cancelingTimers + {h})
    else
      m
  }

  /** Cancelling the same handle a second time outside a firing pass changes nothing. */
  lemma CancelTwiceIsCancelOnce(m: TimerManager, h: TimerId)
    requires Inv(m) && !m.callingExpiredTimers
    ensures CancelInLoop(CancelInLoop(m, h), h) == CancelInLoop(m, h)
  {
  }

  /** Cancelling an unknown handle, or one whose timer already completed, is a no-op outside a firing pass. */
  lemma CancelUnknownIsNoOp(m: TimerManager, h: TimerId)
    requires Inv(m) && !m.callingExpiredTimers && h !in m.activeTimers
    ensures CancelInLoop(m, h) == m
  {
  }

  /**
    A handle whose identity now belongs to a different timer (a later
    timer at a reused address, with another sequence number) cancels
    nothing.
   */
  lemma StaleHandleCancelsNothing(m: TimerManager, h: TimerId, t: Timer)
    requires Inv(m) && t in m.timers && h.id == t.id && h.sequence != t.sequence
    ensures t in CancelInLoop(m, h).timers && t.Handle() in CancelInLoop(m, h).activeTimers
  {
  }

  /** Cancelling keeps the descriptor from firing after the earliest deadline. */
  lemma CancelKeepsNoLateWakeup(m: TimerManager, h: TimerId)
    requires Inv(m) && NoLateWakeup(m)
    ensures NoLateWakeup(CancelInLoop(m, h))
  {
  }

  /** The sweep's sentinel: `now` paired with an identity no timer has. */
  function Sentinel(now: Timestamp): Entry {
    Entry(now, MaxId)
  }

  /**
    `getExpired`: takes off both indices every timer due at or before `now`
    and returns them in (expiration, identity) order; every timer left is
    due strictly after `now`.
   */
  function GetExpired(m: TimerManager, now: Timestamp): (r: (TimerManager, seq<Timer>))
    requires Inv(m)
    ensures Inv(r.0)
    ensures |r.0.timers| == |r.0.activeTimers|
    ensures r.1 + r.0.timers == m.timers
    ensures r.1 == Due(m.timers, now)
    ensures forall t | t in r.1 :: t.expiration <= now
    ensures forall t | t in r.0.timers :: now < t.expiration
    ensures forall t | t in r.1 :: t.Handle() in m.activeTimers
    ensures r.0.activeTimers == m.activeTimers - Handles(r.1)
    ensures r.0.cancelingTimers == m.cancelingTimers
    ensures r.0.callingExpiredTimers == m.callingExpiredTimers
    ensures r.0.armed == m.armed
  {
    var end := LowerBound(m.timers, Sentinel(now));
    SweepSplitsAtNow(m, now, end);
    var r := m.(timers := m.timers[end..], activeTimers := m.activeTimers - Handles(m.timers[..end]));
    IndexSizesAgree(r);
    (r, m.timers[..end])
  }

  /** The range before `lower_bound` of the sentinel is exactly the timers due at `now`. */
  lemma SweepSplitsAtNow(m: TimerManager, now: Timestamp, end: nat)
    requires Inv(m) && end == LowerBound(m.timers, Sentinel(now))
    ensures end <= |m.timers|
    ensures m.timers[..end] + m.timers[end..] == m.timers
    ensures Due(m.timers, now) == m.timers[..end]
    ensures forall t | t in m.timers[..end] :: t.expiration <= now
    ensures forall t | t in m.timers[end..] :: now < t.expiration
    ensures Inv(m.(timers := m.timers[end..], activeTimers := m.activeTimers - Handles(m.timers[..end])))
  {
    SweepPartition(m.timers, now, end);
    SweepKeepsInv(m, now, end);
  }

  lemma SweepPartition(s: seq<Timer>, now: Timestamp, end: nat)
    requires Sorted(s) && (forall t | t in s :: t.id < MaxId)
    requires end == LowerBound(s, Sentinel(now))
    ensures end <= |s|
    ensures s[..end] + s[end..] == s
    ensures Due(s, now) == s[..end]
    ensures forall t | t in s[..end] :: t.expiration <= now
    ensures forall t | t in s[end..] :: now < t.expiration
  {
    SentinelSplitsAtNow(s, now, end);
    DuePrefix(s, end, now);
    SplitMembers(s, now, end);
  }

  /** The index facts of a split at `now`, stated over the two slices' members. */
  lemma SplitMembers(s: seq<Timer>, now: Timestamp, end: nat)
    requires end <= |s|
    requires forall j | 0 <= j < end :: s[j].expiration <= now
    requires forall j | end <= j < |s| :: now < s[j].expiration
    ensures s[..end] + s[end..] == s
    ensures forall t | t in s[..end] :: t.expiration <= now
    ensures forall t | t in s[end..] :: now < t.expiration
  {
    forall t | t in s[end..] ensures now < t.expiration {
      var j :| 0 <= j < |s| - end && s[end..][j] == t;
      assert t == s[end + j];
    }
  }

  /** An entry is below the sentinel exactly when it is due at `now`. */
  lemma SentinelSplitsAtNow(s: seq<Timer>, now: Timestamp, end: nat)
    requires (forall t | t in s :: t.id < MaxId) && end <= |s|
    requires forall j | 0 <= j < end :: KeyLess(s[j].Key(), Sentinel(now))
    requires forall j | end <= j < |s| :: !KeyLess(s[j].Key(), Sentinel(now))
    ensures forall j | 0 <= j < end :: s[j].expiration <= now
    ensures forall j | end <= j < |s| :: now < s[j].expiration
  {
    forall j | end <= j < |s| ensures now < s[j].expiration {
      assert s[j] in s;
    }
  }

  lemma SweepKeepsInv(m: TimerManager, now: Timestamp, end: nat)
    requires Inv(m) && end <= |m.timers|
    requires forall t | t in m.timers[..end] :: t.expiration <= now
    requires forall t | t in m.timers[end..] :: now < t.expiration
    ensures Inv(m.(timers := m.timers[end..], activeTimers := m.activeTimers - Handles(m.timers[..end])))
  {
    var expired, timers := m.timers[..end], m.timers[end..];
    assert m.timers == expired + timers;
    assert Sorted(timers) by {
      forall i, j | 0 <= i < j < |timers| ensures KeyLess(timers[i].Key(), timers[j].Key()) {
        assert timers[i] == m.timers[end + i] && timers[j] == m.timers[end + j];
      }
    }
    assert m.activeTimers - Handles(expired) == Handles(timers);
  }

  /** Whether `reset` gives an expired timer another round. */
  predicate Rescheduled(canceling: set<TimerId>, t: Timer) {
    t.Repeat() && t.Handle() !in canceling
  }

  /** The timers `reset` puts back, in the order it puts them back: a reference definition. */
  function Rescheduling(canceling: set<TimerId>, expired: seq<Timer>, now: Timestamp): (r: seq<Timer>)
    ensures |r| <= |expired|
  {
    if expired == [] then []
    else
      (if Rescheduled(canceling, expired[0]) then [expired[0].Restart(now)] else [])
      + Rescheduling(canceling, expired[1..], now)
  }

  /**
    Which expired timers come back: exactly the repeating ones not cancelled
    while firing, each with expiration `now` plus its interval.
   */
  lemma {:induction false} ReschedulingFate(canceling: set<TimerId>, expired: seq<Timer>, now: Timestamp)
    requires Sorted(expired) && DistinctIds(expired)
    ensures forall t | t in expired && Rescheduled(canceling, t) :: t.Restart(now) in Rescheduling(canceling, expired, now)
    ensures forall t | t in expired :: t.id in Ids(Rescheduling(canceling, expired, now)) <==> Rescheduled(canceling, t)
    ensures forall u | u in Rescheduling(canceling, expired, now) :: u.id in Ids(expired) && now < u.expiration
  {
    if expired != [] {
      var t := expired[0];
      SortedTail(expired);
      ReschedulingFate(canceling, expired[1..], now);
      var rest := Rescheduling(canceling, expired[1..], now);
      assert forall e | e in expired[1..] :: e.id != t.id;
    }
  }

  /** Everything `reset` puts back is the restart of an expired timer it gives another round. */
  lemma {:induction false} ReschedulingOrigin(canceling: set<TimerId>, expired: seq<Timer>, now: Timestamp)
    ensures forall u | u in Rescheduling(canceling, expired, now) ::
              exists t | t in expired && Rescheduled(canceling, t) :: u == t.Restart(now)
  {
    if expired != [] {
      ReschedulingOrigin(canceling, expired[1..], now);
      assert forall t | t in expired[1..] :: t in expired;
    }
  }

  /**
    The loop of `reset`: each expired timer that repeats and was not
    cancelled while firing is restarted and reinserted; every other one is
    destroyed.
   */
  function Reinsert(m: TimerManager, expired: seq<Timer>, now: Timestamp): (r: TimerManager)
    requires Inv(m)
    requires Sorted(expired) && DistinctIds(expired)
    requires forall t | t in expired :: t.id < MaxId && t.id !in Ids(m.timers)
    ensures Inv(r)
    ensures forall u :: u in r.timers <==> u in m.timers || u in Rescheduling(m.cancelingTimers, expired, now)
    ensures r.cancelingTimers == m.cancelingTimers
    ensures r.callingExpiredTimers == m.callingExpiredTimers
    ensures r.armed == m.armed
    decreases |expired|
  {
    if expired == [] then m
    else
      var t := expired[0];
      SortedTail(expired);
      assert forall e | e in expired[1..] :: e.id != t.id;
      var m1 := if Rescheduled(m.cancelingTimers, t) then Insert(m, t.Restart(now)).0 else m;
      Reinsert(m1, expired[1..], now)
  }

  /**
    `reset`: the reschedule pass, then re-arming the descriptor at the
    earliest live deadline when there is one (and it is a valid timestamp);
    with no timer left the descriptor is left as it was.
   */
  function Reset(m: TimerManager, expired: seq<Timer>, now: Timestamp): (r: TimerManager)
    requires Inv(m)
    requires Sorted(expired) && DistinctIds(expired)
    requires forall t | t in expired :: t.id < MaxId && t.id !in Ids(m.timers)
    ensures Inv(r)
    ensures |r.timers| == |r.activeTimers|
    ensures forall u :: u in r.timers <==> u in m.timers || u in Rescheduling(m.cancelingTimers, expired, now)
    ensures |r.timers| > 0 && TimestampValid(r.timers[0].expiration) ==> r.armed == Some(r.timers[0].expiration)
    ensures !(|r.timers| > 0 && TimestampValid(r.timers[0].expiration)) ==> r.armed == m.armed
    ensures r.cancelingTimers == m.cancelingTimers
    ensures r.callingExpiredTimers == m.callingExpiredTimers
  {
    var r := Reinsert(m, expired, now);
    IndexSizesAgree(r);
    if |r.timers| > 0 && TimestampValid(r.timers[0].expiration) then
      r.(armed := Some(r.timers[0].expiration))
    else
      r
  }

  /** The cancel requests issued by the callbacks of one firing pass, applied in order. */
  function CancelAll(m: TimerManager, cancels: seq<TimerId>): (r: TimerManager)
    requires Inv(m)
    ensures Inv(r)
    ensures forall u :: u in r.timers <==> u in m.timers && u.Handle() !in cancels
    ensures r.activeTimers == m.activeTimers - set h | h in cancels
    ensures m.callingExpiredTimers ==> forall h | h in cancels && h !in m.activeTimers :: h in r.cancelingTimers
    ensures m.cancelingTimers <= r.cancelingTimers
    ensures forall h | h in r.cancelingTimers :: h in m.cancelingTimers || h in cancels
    ensures r.callingExpiredTimers == m.callingExpiredTimers
    ensures r.armed == m.armed
    decreases |cancels|
  {
    if cancels == [] then m
    else
      var m1 := CancelInLoop(m, cancels[0]);
      var r := CancelAll(m1, cancels[1..]);
      CancelAllStep(m, cancels, m1, r);
      r
  }

  lemma CancelAllStep(m: TimerManager, cancels: seq<TimerId>, m1: TimerManager, r: TimerManager)
    requires |cancels| > 0
    requires forall u :: u in m1.timers <==> u in m.timers && u.Handle() != cancels[0]
    requires m1.activeTimers == m.activeTimers - {cancels[0]}
    requires m1.cancelingTimers == if cancels[0] !in m.activeTimers && m.callingExpiredTimers
                                  then m.cancelingTimers + {cancels[0]} else m.cancelingTimers
    requires m1.callingExpiredTimers == m.callingExpiredTimers
    requires forall u :: u in r.timers <==> u in m1.timers && u.Handle() !in cancels[1..]
    requires r.activeTimers == m1.activeTimers - set h | h in cancels[1..]
    requires m1.callingExpiredTimers ==> forall h | h in cancels[1..] && h !in m1.activeTimers :: h in r.cancelingTimers
    requires m1.cancelingTimers <= r.cancelingTimers
    requires forall h | h in r.cancelingTimers :: h in m1.cancelingTimers || h in cancels[1..]
    ensures forall u :: u in r.timers <==> u in m.timers && u.Handle() !in cancels
    ensures r.activeTimers == m.activeTimers - set h | h in cancels
    ensures m.callingExpiredTimers ==> forall h | h in cancels && h !in m.activeTimers :: h in r.cancelingTimers
    ensures m.cancelingTimers <= r.cancelingTimers
    ensures forall h | h in r.cancelingTimers :: h in m.cancelingTimers || h in cancels
  {
  }

  /**
    `handleRead`: one firing pass at time `now`.  The expired timers are
    taken off both indices, the firing flag is raised and the cancellation
    record cleared, the callbacks run (issuing `cancels`), the flag is
    lowered and the expired timers are rescheduled or destroyed.

    The fate of every timer: one due at `now` comes back, restarted,
    exactly when it repeats and no callback of the pass cancelled it; one
    not yet due stays exactly when no callback cancelled it; no timer due
    at `now` is live afterwards; and the descriptor is re-armed at the
    earliest deadline left, or left as it was when no timer is left.
   */
  function HandleRead(m: TimerManager, now: Timestamp, cancels: seq<TimerId>): (r: TimerManager)
    requires Inv(m)
    ensures Inv(r)
    ensures |r.timers| == |r.activeTimers|
    ensures !r.callingExpiredTimers
    ensures forall u | u in r.timers :: now < u.expiration
    ensures forall t | t in m.timers && t.expiration <= now ::
              t.id in Ids(r.timers) <==> t.Repeat() && t.Handle() !in cancels
    ensures forall t | t in m.timers && t.expiration <= now && t.Repeat() && t.Handle() !in cancels ::
              t.Restart(now) in r.timers
    ensures forall u | u in m.timers && now < u.expiration :: u in r.timers <==> u.Handle() !in cancels
    ensures forall u | u in r.timers ::
              u in m.timers || exists t | t in m.timers && t.expiration <= now :: u == t.Restart(now)
    ensures TimestampValid(now) && |r.timers| > 0 ==> r.armed == Some(r.timers[0].expiration)
    ensures |r.timers| == 0 ==> r.armed == m.armed
  {
    var (m1, expired) := GetExpired(m, now);
    var m2 := m1.(callingExpiredTimers := true, cancelingTimers := {});
    var m3 := CancelAll(m2, cancels);
    var m4 := m3.(callingExpiredTimers := false);
    ExpiredFitReinsert(m, now, m1, expired, m4);
    ReschedulingFate(m4.cancelingTimers, expired, now);
    var r := Reset(m4, expired, now);
    FiringPassFate(m, now, cancels, m1, expired, m4, r);
    r
  }

  /**
    The facts behind `handleRead`'s contract: a due timer's handle is in the
    cancellation record exactly when a callback cancelled it, because the
    sweep already took it off `activeTimers_`; and a timer not yet due is
    never among those `reset` puts back.
   */
  lemma FiringPassFate(m: TimerManager, now: Timestamp, cancels: seq<TimerId>,
                       m1: TimerManager, expired: seq<Timer>, m4: TimerManager, r: TimerManager)
    requires Inv(m) && expired + m1.timers == m.timers
    requires forall t | t in expired :: t.expiration <= now
    requires forall t | t in m1.timers :: now < t.expiration
    requires m1.activeTimers == Handles(m1.timers)
    requires forall u :: u in m4.timers <==> u in m1.timers && u.Handle() !in cancels
    requires forall h | h in cancels && h !in m1.activeTimers :: h in m4.cancelingTimers
    requires forall h | h in m4.cancelingTimers :: h in cancels
    requires Sorted(expired) && DistinctIds(expired)
    requires forall t | t in expired :: t.id < MaxId && t.id !in Ids(m4.timers)
    requires forall u :: u in r.timers <==> u in m4.timers || u in Rescheduling(m4.cancelingTimers, expired, now)
    ensures forall t | t in m.timers && t.expiration <= now ::
              t.id in Ids(r.timers) <==> t.Repeat() && t.Handle() !in cancels
    ensures forall t | t in m.timers && t.expiration <= now && t.Repeat() && t.Handle() !in cancels ::
              t.Restart(now) in r.timers
    ensures forall u | u in m.timers && now < u.expiration :: u in r.timers <==> u.Handle() !in cancels
    ensures forall u | u in r.timers ::
              u in m.timers || exists t | t in m.timers && t.expiration <= now :: u == t.Restart(now)
  {
    DueCancelRecord(m, now, cancels, m1, expired, m4.cancelingTimers);
    ReschedulingFate(m4.cancelingTimers, expired, now);
    DueTimerFate(m, now, cancels, expired, m4, r);
    PendingTimerFate(m, now, cancels, m1, expired, m4, r);
    FiringPassAddsNothing(m, now, m1, expired, m4, r);
  }

  /**
    A due timer's handle is off `activeTimers_` while its callbacks run, so
    it is recorded as cancelling exactly when a callback cancelled it.
   */
  lemma DueCancelRecord(m: TimerManager, now: Timestamp, cancels: seq<TimerId>,
                        m1: TimerManager, expired: seq<Timer>, canceling: set<TimerId>)
    requires Inv(m) && expired + m1.timers == m.timers
    requires forall t | t in expired :: t.expiration <= now
    requires forall t | t in m1.timers :: now < t.expiration
    requires m1.activeTimers == Handles(m1.timers)
    requires forall h | h in cancels && h !in m1.activeTimers :: h in canceling
    requires forall h | h in canceling :: h in cancels
    ensures forall t | t in m.timers && t.expiration <= now ::
              t in expired && (t.Handle() in canceling <==> t.Handle() in cancels)
  {
    forall t | t in m.timers && t.expiration <= now
      ensures t in expired && (t.Handle() in canceling <==> t.Handle() in cancels)
    {
      assert t !in m1.timers;
      assert forall u | u in m1.timers :: u in m.timers;
      assert t.Handle() !in m1.activeTimers;
    }
  }

  /** A due timer comes back, restarted, exactly when it repeats and no callback cancelled it. */
  lemma DueTimerFate(m: TimerManager, now: Timestamp, cancels: seq<TimerId>,
                     expired: seq<Timer>, m4: TimerManager, r: TimerManager)
    requires forall t | t in m.timers && t.expiration <= now ::
               t in expired && (t.Handle() in m4.cancelingTimers <==> t.Handle() in cancels)
    requires forall t | t in expired :: t.id !in Ids(m4.timers)
    requires forall t | t in expired && Rescheduled(m4.cancelingTimers, t) ::
               t.Restart(now) in Rescheduling(m4.cancelingTimers, expired, now)
    requires forall t | t in expired ::
               t.id in Ids(Rescheduling(m4.cancelingTimers, expired, now)) <==> Rescheduled(m4.cancelingTimers, t)
    requires forall u :: u in r.timers <==> u in m4.timers || u in Rescheduling(m4.cancelingTimers, expired, now)
    ensures forall t | t in m.timers && t.expiration <= now ::
              t.id in Ids(r.timers) <==> t.Repeat() && t.Handle() !in cancels
    ensures forall t | t in m.timers && t.expiration <= now && t.Repeat() && t.Handle() !in cancels ::
              t.Restart(now) in r.timers
  {
    forall t | t in m.timers && t.expiration <= now
      ensures t.id in Ids(r.timers) <==> t.Repeat() && t.Handle() !in cancels
    {
      var back := Rescheduling(m4.cancelingTimers, expired, now);
      assert Ids(r.timers) == Ids(m4.timers) + Ids(back);
    }
  }

  /** A timer not yet due survives a firing pass exactly when no callback cancelled it. */
  lemma PendingTimerFate(m: TimerManager, now: Timestamp, cancels: seq<TimerId>,
                         m1: TimerManager, expired: seq<Timer>, m4: TimerManager, r: TimerManager)
    requires Inv(m) && expired + m1.timers == m.timers
    requires forall t | t in expired :: t.expiration <= now
    requires forall u :: u in m4.timers <==> u in m1.timers && u.Handle() !in cancels
    requires forall u | u in Rescheduling(m4.cancelingTimers, expired, now) :: u.id in Ids(expired)
    requires forall u :: u in r.timers <==> u in m4.timers || u in Rescheduling(m4.cancelingTimers, expired, now)
    ensures forall u | u in m.timers && now < u.expiration :: u in r.timers <==> u.Handle() !in cancels
  {
    forall u | u in m.timers && now < u.expiration
      ensures u in r.timers <==> u.Handle() !in cancels
    {
      assert u !in expired;
      assert u in m1.timers;
      assert forall e | e in expired :: e in m.timers && e.id != u.id;
      assert u.id !in Ids(expired);
    }
  }

  /** Every timer live after a firing pass was live before it, or is the restart of one that was due. */
  lemma FiringPassAddsNothing(m: TimerManager, now: Timestamp,
                              m1: TimerManager, expired: seq<Timer>, m4: TimerManager, r: TimerManager)
    requires expired + m1.timers == m.timers
    requires forall t | t in expired :: t.expiration <= now
    requires forall u | u in m4.timers :: u in m1.timers
    requires forall u :: u in r.timers <==> u in m4.timers || u in Rescheduling(m4.cancelingTimers, expired, now)
    ensures forall u | u in r.timers ::
              u in m.timers || exists t | t in m.timers && t.expiration <= now :: u == t.Restart(now)
  {
    ReschedulingOrigin(m4.cancelingTimers, expired, now);
    forall u | u in r.timers
      ensures u in m.timers || exists t | t in m.timers && t.expiration <= now :: u == t.Restart(now)
    {
      if u in m4.timers {
        assert u in m1.timers;
      } else {
        var t :| t in expired && Rescheduled(m4.cancelingTimers, t) && u == t.Restart(now);
        assert t in m.timers;
      }
    }
  }

  /**
    A repeating timer whose own callback cancels it (or any timer due in the
    same pass that a callback cancels) is not rescheduled: afterwards it is
    in neither index.
   */
  lemma CancelledWhileFiringNotRescheduled(m: TimerManager, now: Timestamp, cancels: seq<TimerId>, t: Timer)
    requires Inv(m)
    requires t in m.timers && t.expiration <= now && t.Handle() in cancels
    ensures var r := HandleRead(m, now, cancels);
      t.id !in Ids(r.timers) && t.Handle() !in r.activeTimers
  {
  }

  /** A one-shot timer due at `now` fires once and is gone from both indices after the pass. */
  lemma OneShotFiresOnce(m: TimerManager, now: Timestamp, cancels: seq<TimerId>, t: Timer)
    requires Inv(m)
    requires t in m.timers && t.expiration <= now && !t.Repeat()
    ensures var r := HandleRead(m, now, cancels);
      t.id !in Ids(r.timers) && t.Handle() !in r.activeTimers
  {
  }

  /** A firing pass leaves the descriptor armed no later than the earliest deadline left. */
  lemma HandleReadKeepsNoLateWakeup(m: TimerManager, now: Timestamp, cancels: seq<TimerId>)
    requires Inv(m) && TimestampValid(now)
    ensures NoLateWakeup(HandleRead(m, now, cancels))
  {
  }

  lemma ExpiredFitReinsert(m: TimerManager, now: Timestamp, m1: TimerManager, expired: seq<Timer>, m4: TimerManager)
    requires Inv(m) && expired + m1.timers == m.timers
    requires forall t | t in expired :: t.expiration <= now
    requires forall t | t in m1.timers :: now < t.expiration
    requires forall u | u in m4.timers :: u in m1.timers
    ensures Sorted(expired) && DistinctIds(expired)
    ensures forall t | t in expired :: t.id < MaxId && t.id !in Ids(m4.timers)
  {
    assert forall t | t in expired :: t in m.timers;
    assert forall u | u in m1.timers :: u in m.timers;
    assert Sorted(expired) by {
      forall i, j | 0 <= i < j < |expired| ensures KeyLess(expired[i].Key(), expired[j].Key()) {
        assert expired[i] == m.timers[i] && expired[j] == m.timers[j];
      }
    }
  }
}
