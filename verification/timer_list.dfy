/**
  Timers and the ordered index `timers_` of the timer manager.

  A timer's identity is the address of its `Timer` object in the program;
  here it is a natural number below `MaxId` (the value of `UINTPTR_MAX`,
  which the expiry sweep uses as a sentinel).  `timers_` is a `std::set` of
  (expiration, identity) pairs; it is modelled as a sequence strictly
  ascending in that key, so that iteration order, `lower_bound` and
  `erase` can be stated directly.  An entry's timestamp always equals its
  timer's expiration while the timer is indexed, so the entries are the
  timers themselves.
 */
module TimerList {

  /** Microseconds since the epoch. */
  type Timestamp = int

  /** `UINTPTR_MAX`: no timer object can live at this address. */
  const MaxId: nat := 0xFFFF_FFFF_FFFF_FFFF

  /** A cancellation handle: (identity, sequence).  Also the key of `activeTimers_`. */
  datatype TimerId = TimerId(id: nat, sequence: nat)

  /** An entry of `timers_`, (expiration, identity), compared lexicographically. */
  datatype Entry = Entry(when: Timestamp, id: nat)

  /**
    A timer: identity, process-wide sequence number, expiration and repeat
    interval in microseconds (0 for a one-shot timer).
   */
  datatype Timer = Timer(id: nat, sequence: nat, expiration: Timestamp, interval: nat)
  {
    predicate Repeat() {
      interval > 0
    }

    function Handle(): TimerId {
      TimerId(id, sequence)
    }

    function Key(): Entry {
      Entry(expiration, id)
    }

    /** The same timer, due again one interval after `now`. */
    function Restart(now: Timestamp): Timer {
      this.(expiration := now + interval)
    }
  }

  predicate KeyLess(a: Entry, b: Entry) {
    a.when < b.when || (a.when == b.when && a.id < b.id)
  }

  /** Strictly ascending by (expiration, identity): the iteration order of `timers_`. */
  predicate Sorted(s: seq<Timer>) {
    forall i, j | 0 <= i < j < |s| :: KeyLess(s[i].Key(), s[j].Key())
  }

  /** No two different timers share an identity: one object cannot be indexed twice. */
  predicate DistinctIds(s: seq<Timer>) {
    forall u, v | u in s && v in s && u.id == v.id :: u == v
  }

  function Ids(s: seq<Timer>): set<nat> {
    set t | t in s :: t.id
  }

  function Handles(s: seq<Timer>): set<TimerId> {
    set t | t in s :: t.Handle()
  }

  /** The timers of `s` due at or before `now`, in order: a reference definition of the expiry sweep. */
  function Due(s: seq<Timer>, now: Timestamp): (r: seq<Timer>)
    ensures forall t | t in r :: t in s && t.expiration <= now
  {
    if s == [] then []
    else if s[0].expiration <= now then [s[0]] + Due(s[1..], now)
    else Due(s[1..], now)
  }

  /**
    `std::set::insert` of a key not yet present: the new timer is placed at
    its position in key order.
   */
  function InsertSorted(s: seq<Timer>, t: Timer): (r: seq<Timer>)
    requires Sorted(s)
    requires forall u | u in s :: u.Key() != t.Key()
    ensures Sorted(r)
    ensures |r| == |s| + 1
    ensures forall u :: u in r <==> u in s || u == t
    ensures r[0] == t || (|s| > 0 && r[0] == s[0])
  {
    if s == [] || KeyLess(t.Key(), s[0].Key()) then
      [t] + s
    else
      var rest := InsertSorted(s[1..], t);
      assert s == [s[0]] + s[1..];
      [s[0]] + rest
  }

  /**
    `std::set::lower_bound`: the position of the first entry whose key is
    not below `k`.  Every entry before it is below `k`, none from it on is.
   */
  function LowerBound(s: seq<Timer>, k: Entry): (i: nat)
    requires Sorted(s)
    ensures i <= |s|
    ensures forall j | 0 <= j < i :: KeyLess(s[j].Key(), k)
    ensures forall j | i <= j < |s| :: !KeyLess(s[j].Key(), k)
  {
    if s == [] || !KeyLess(s[0].Key(), k) then 0
    else 1 + LowerBound(s[1..], k)
  }

  /**
    `std::set::erase(key)`: the index without the entry of key `k`, and the
    number of entries removed (0 or 1).
   */
  function EraseKey(s: seq<Timer>, k: Entry): (r: (seq<Timer>, nat))
    requires Sorted(s)
    ensures Sorted(r.0)
    ensures r.1 <= 1 && |r.0| == |s| - r.1
    ensures r.1 == 1 <==> exists u :: u in s && u.Key() == k
    ensures forall u :: u in r.0 <==> u in s && u.Key() != k
  {
    var i := LowerBound(s, k);
    if i < |s| && s[i].Key() == k then
      RemoveAt(s, i);
      (s[..i] + s[i + 1..], 1)
    else
      (s, 0)
  }

  /** Removing one position of a sorted index keeps it sorted and drops exactly that entry's key. */
  lemma RemoveAt(s: seq<Timer>, i: nat)
    requires Sorted(s) && i < |s|
    ensures Sorted(s[..i] + s[i + 1..])
    ensures |s[..i] + s[i + 1..]| == |s| - 1
    ensures forall u :: u in s[..i] + s[i + 1..] <==> u in s && u.Key() != s[i].Key()
  {
    var r := s[..i] + s[i + 1..];
    assert Sorted(r) by {
      forall a, b | 0 <= a < b < |r| ensures KeyLess(r[a].Key(), r[b].Key()) {
        var a', b' := if a < i then a else a + 1, if b < i then b else b + 1;
        assert r[a] == s[a'] && r[b] == s[b'];
      }
    }
    forall u ensures u in r <==> u in s && u.Key() != s[i].Key() {
      assert s == s[..i] + [s[i]] + s[i + 1..];
      if u in s && u.Key() == s[i].Key() {
        var j :| 0 <= j < |s| && s[j] == u;
        assert j == i;
      }
    }
  }

  /** The live timer an (identity, sequence) handle refers to. */
  function TimerOf(s: seq<Timer>, h: TimerId): (t: Timer)
    requires h in Handles(s)
    ensures t in s && t.Handle() == h
  {
    if s[0].Handle() == h then s[0]
    else
      assert h in Handles(s[1..]) by {
        var u :| u in s && u.Handle() == h;
        assert u != s[0];
      }
      TimerOf(s[1..], h)
  }

  /** The tail of a sorted index is sorted and lies strictly above its head. */
  lemma SortedTail(s: seq<Timer>)
    requires |s| > 0 && Sorted(s)
    ensures Sorted(s[1..])
    ensures forall u | u in s[1..] :: KeyLess(s[0].Key(), u.Key())
    ensures s == [s[0]] + s[1..]
  {
  }

  /** Distinct identities make the handle set exactly as large as the index. */
  lemma {:induction false} HandlesCardinality(s: seq<Timer>)
    requires Sorted(s) && DistinctIds(s)
    ensures |Handles(s)| == |s|
  {
    if s != [] {
      var rest := s[1..];
      SortedTail(s);
      HandlesCardinality(rest);
      assert Handles(s) == Handles(rest) + {s[0].Handle()};
      assert s[0].Handle() !in Handles(rest);
    }
  }

  /** In a sorted index the timers due at `now` form a prefix, so the sweep's range is exactly `Due`. */
  lemma {:induction false} DuePrefix(s: seq<Timer>, i: nat, now: Timestamp)
    requires i <= |s|
    requires forall j | 0 <= j < i :: s[j].expiration <= now
    requires forall j | i <= j < |s| :: now < s[j].expiration
    ensures Due(s, now) == s[..i]
  {
    if s != [] {
      if i == 0 {
        DuePrefix(s[1..], 0, now);
      } else {
        DuePrefix(s[1..], i - 1, now);
        assert s[..i] == [s[0]] + s[1..][..i - 1];
      }
    }
  }
}
