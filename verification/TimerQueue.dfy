/** The timer queue of src/net/TIme.cpp as functions on values: a multimap from arrival times to events,
    kept as a sorted sequence, and the one-shot timer that has to wake the loop for its first entry. */
module TimerQueue {
  import opened Options

  datatype Entry<E> = Entry(key: int, event: E)

  /** The fields of a time event. */
  datatype Info = Info(arrive: int, interval: int, repeated: bool, cancelled: bool)

  function Later(i: Info, now: int): Info { i.(arrive := now + i.interval) }

  /** `armed` is the time at which the timer descriptor becomes readable. */
  datatype Timers<E> = Timers(pending: seq<Entry<E>>, info: map<E, Info>, armed: Option<int>)

  /** `emplace` puts an entry behind those with an equal key. */
  function Insert<E>(p: seq<Entry<E>>, x: Entry<E>): (r: seq<Entry<E>>)
    ensures |r| == |p| + 1 && r != []
    decreases |p|
  {
    if p == [] || p[0].key > x.key then [x] + p else [p[0]] + Insert(p[1..], x)
  }

  /** Erases the first entry equal to `x`, if there is one. */
  function Erase<E(==)>(p: seq<Entry<E>>, x: Entry<E>): (r: seq<Entry<E>>)
    ensures |r| <= |p|
    decreases |p|
  {
    if p == [] then [] else if p[0] == x then p[1..] else [p[0]] + Erase(p[1..], x)
  }

  /** How many entries at the front are due. */
  function DueCount<E>(p: seq<Entry<E>>, now: int): (n: nat)
    ensures n <= |p| && (forall i :: 0 <= i < n ==> p[i].key <= now) && (n < |p| ==> p[n].key > now)
    decreases |p|
  {
    if p == [] || p[0].key > now then 0 else 1 + DueCount(p[1..], now)
  }

  /** The events of the entries that have not been cancelled, in order. */
  function Alive<E>(p: seq<Entry<E>>, info: map<E, Info>): seq<E>
    requires forall x :: x in p ==> x.event in info
    decreases |p|
  {
    if p == [] then []
    else (if info[p[0].event].cancelled then [] else [p[0].event]) + Alive(p[1..], info)
  }

  ghost predicate Known<E>(t: Timers<E>) { forall x :: x in t.pending ==> x.event in t.info }

  /** `resetArriveTime`: one clock reading `now`; an empty queue leaves the timer as it is. */
  function Rearm<E>(t: Timers<E>, now: int, timeout: int): (r: Timers<E>)
    requires Known(t)
  {
    if t.pending == [] then t
    else
      assert t.pending[0] in t.pending;
      var first := t.info[t.pending[0].event].arrive;
      t.(armed := Some(if first > now then first else now + timeout))
  }

  lemma {:induction false} InsertElements<E>(p: seq<Entry<E>>, x: Entry<E>)
    ensures multiset(Insert(p, x)) == multiset(p) + multiset{x}
    decreases |p|
  {
    if p == [] || p[0].key > x.key {
    } else {
      InsertElements(p[1..], x);
      assert p == [p[0]] + p[1..];
    }
  }

  lemma InsertMembers<E>(p: seq<Entry<E>>, x: Entry<E>)
    ensures forall y :: y in Insert(p, x) ==> y in p || y == x
    ensures forall y :: y in p ==> y in Insert(p, x)
    ensures x in Insert(p, x)
  {
    InsertElements(p, x);
    var r := Insert(p, x);
    forall y | y in r
      ensures y in p || y == x
    {
      assert y in multiset(r);
    }
    forall y | y in p
      ensures y in r
    {
      assert y in multiset(p) && y in multiset(r);
    }
    assert x in multiset(r);
  }

  function Add<E>(t: Timers<E>, e: E, now: int, timeout: int): (r: Timers<E>)
    requires Known(t) && e in t.info
    ensures Known(r) && r.info == t.info
  {
    var arrive := t.info[e].arrive;
    var reset := t.pending == [] || (assert t.pending[0] in t.pending; t.info[t.pending[0].event].arrive > arrive);
    InsertMembers(t.pending, Entry(arrive, e));
    var u := t.(pending := Insert(t.pending, Entry(arrive, e)));
    if reset then Rearm(u, now, timeout) else u
  }

  /** Adds an event again, one interval from now. */
  function AddLater<E>(t: Timers<E>, e: E, now: int, timeout: int): (r: Timers<E>)
    requires Known(t) && e in t.info
    ensures Known(r) && r.info.Keys == t.info.Keys
  {
    Add(t.(info := t.info[e := Later(t.info[e], now)]), e, now, timeout)
  }

  function Cancel<E>(t: Timers<E>, e: E): Timers<E>
    requires e in t.info
  {
    t.(info := t.info[e := t.info[e].(cancelled := true)])
  }

  function Delete<E(==)>(t: Timers<E>, e: E): Timers<E>
    requires e in t.info
  {
    Cancel(t, e).(pending := Erase(t.pending, Entry(t.info[e].arrive, e)))
  }

  /** Gives the repeated ones among the events a new arrival time and adds them again, one by one. */
  function ReAdd<E>(t: Timers<E>, es: seq<E>, now: int, timeout: int): (r: Timers<E>)
    requires Known(t) && forall e :: e in es ==> e in t.info
    ensures Known(r)
    decreases |es|
  {
    if es == [] then t
    else
      var i := t.info[es[0]];
      var u := if i.repeated then AddLater(t, es[0], now, timeout) else t;
      ReAdd(u, es[1..], now, timeout)
  }

  lemma AliveMembers<E>(p: seq<Entry<E>>, info: map<E, Info>)
    requires forall x :: x in p ==> x.event in info
    ensures forall e :: e in Alive(p, info) ==> exists x :: x in p && x.event == e && !info[e].cancelled
    ensures forall x :: x in p && !info[x.event].cancelled ==> x.event in Alive(p, info)
    decreases |p|
  {
    if p != [] {
      AliveMembers(p[1..], info);
      assert p == [p[0]] + p[1..];
    }
  }

  /** The timer event: an expiry that has passed is consumed, what is due leaves the queue, the repeated
      survivors come back, the timer is armed again, and the callbacks run. */
  function OnTime<E>(t: Timers<E>, now: int, timeout: int): (Timers<E>, seq<E>)
    requires Known(t)
  {
    var n := DueCount(t.pending, now);
    var due := t.pending[..n];
    assert forall x :: x in due ==> x in t.pending;
    var fired := Alive(due, t.info);
    AliveMembers(due, t.info);
    var u := t.(pending := t.pending[n..], armed := if t.armed.Some? && t.armed.value <= now then None else t.armed);
    assert forall x :: x in u.pending ==> x in t.pending;
    (Rearm(ReAdd(u, fired, now, timeout), now, timeout), fired)
  }
}
