/** The timer of src/net/TIme.cpp and the events of src/common/TimeEvent.cpp as objects, proved against
    the functions of TimerQueue. Each method reads the clock once, as its parameter `now`. */
module Times {
  import opened Options
  import opened TimerQueue
  import TimerRuns

  class TimeEvent {
    var arriveTime: int
    const interval: int
    const repeated: bool
    var cancelled: bool

    function AsInfo(): Info
      reads this
    {
      Info(arriveTime, interval, repeated, cancelled)
    }

    constructor (now: int, interval: int, repeated: bool)
      ensures AsInfo() == Info(now + interval, interval, repeated, false)
    {
      this.interval, this.repeated := interval, repeated;
      this.cancelled := false;
      this.arriveTime := now + interval;
    }

    method SetCancelled(value: bool)
      modifies this`cancelled
      ensures cancelled == value
    {
      cancelled := value;
    }

    method ResetArriveTime(now: int)
      modifies this`arriveTime
      ensures arriveTime == now + interval
    {
      arriveTime := now + interval;
    }
  }

  ghost function Infos(es: set<TimeEvent>): map<TimeEvent, Info>
    reads es
  {
    map e | e in es :: e.AsInfo()
  }

  ghost function Events(p: seq<Entry<TimeEvent>>): set<TimeEvent> {
    set x | x in p :: x.event
  }

  class Time {
    const timeout: int
    var pending: seq<Entry<TimeEvent>>
    var armed: Option<int>

    /** The timer as a value, with the events `es` described. */
    ghost function View(es: set<TimeEvent>): Timers<TimeEvent>
      reads this, es
    {
      Timers(pending, Infos(es), armed)
    }

    /** A new timer descriptor expires once, `timeout` from now. */
    constructor (now: int, timeout: int)
      ensures pending == [] && armed == Some(now + timeout) && this.timeout == timeout
    {
      this.timeout := timeout;
      pending, armed := [], Some(now + timeout);
    }

    method ResetArriveTime(now: int, ghost es: set<TimeEvent>)
      requires Events(pending) <= es
      modifies this`armed
      ensures View(es) == Rearm(old(View(es)), now, timeout)
    {
      if |pending| == 0 {
        return;
      }
      assert pending[0] in pending;
      if pending[0].event.arriveTime > now {
        armed := Some(now + (pending[0].event.arriveTime - now));
      } else {
        armed := Some(now + timeout);
      }
    }

    method AddTimerEvent(event: TimeEvent, now: int, ghost es: set<TimeEvent>)
      requires Events(pending) <= es && event in es
      modifies this
      ensures Events(pending) <= es
      ensures View(es) == Add(old(View(es)), event, now, timeout)
    {
      var isReset := false;
      if |pending| == 0 {
        isReset := true;
      } else {
        assert pending[0] in pending;
        if pending[0].event.arriveTime > event.arriveTime {
          isReset := true;
        }
      }
      InsertMembers(pending, Entry(event.arriveTime, event));
      pending := Insert(pending, Entry(event.arriveTime, event));
      if isReset {
        ResetArriveTime(now, es);
      }
    }

    /** The search for an event's entry among those with its arrival time. */
    method FindEntry(event: TimeEvent) returns (i: nat)
      requires TimerRuns.Sorted(pending)
      ensures i <= |pending| && Entry(event.arriveTime, event) !in pending[..i]
      ensures i < |pending| ==> pending[i] == Entry(event.arriveTime, event) || pending[i].key > event.arriveTime
    {
      var key := event.arriveTime;
      i := 0;
      while i < |pending| && pending[i].key < key
        invariant i <= |pending| && Entry(key, event) !in pending[..i]
      {
        i := i + 1;
      }
      while i < |pending| && pending[i].key <= key && pending[i].event != event
        invariant i <= |pending| && Entry(key, event) !in pending[..i]
        invariant i < |pending| ==> pending[i].key >= key
      {
        i := i + 1;
      }
    }

    /** Marks the event cancelled and erases its entry. */
    method DeleteTimerEvent(event: TimeEvent, ghost es: set<TimeEvent>)
      requires Events(pending) <= es && event in es && TimerRuns.Sorted(pending)
      modifies this`pending, event`cancelled
      ensures View(es) == Delete(old(View(es)), event)
    {
      hide TimerRuns.Sorted, Erase;
      ghost var before := Infos(es);
      event.SetCancelled(true);
      assert Infos(es) == before[event := event.AsInfo()];
      var i := FindEntry(event);
      EraseAt(pending, Entry(event.arriveTime, event), i);
      if i < |pending| && pending[i].key <= event.arriveTime {
        pending := pending[..i] + pending[i + 1..];
      }
    }

    /** The collection loop: how many entries are due, and the events among them not cancelled. */
    method Collect(now: int, ghost es: set<TimeEvent>) returns (due: nat, tmps: seq<TimeEvent>)
      requires Events(pending) <= es
      ensures due == DueCount(pending, now)
      ensures forall x :: x in pending[..due] ==> x.event in Infos(es)
      ensures tmps == Alive(pending[..due], Infos(es))
    {
      ghost var info := Infos(es);
      due, tmps := 0, [];
      while due < |pending| && pending[due].key <= now
        invariant due <= |pending| && DueCount(pending, now) >= due
        invariant forall x :: x in pending[..due] ==> x.event in info
        invariant tmps == Alive(pending[..due], info)
      {
        DueAt(pending, now, due);
        var event := pending[due].event;
        assert pending[due] in pending && event in es;
        AliveSnoc(pending[..due], pending[due], info);
        assert pending[..due + 1] == pending[..due] + [pending[due]];
        if !event.cancelled {
          tmps := tmps + [event];
        }
        due := due + 1;
      }
    }

    /** The timer callback: an expiry that has passed is read off; due entries are collected, cancelled
        ones without their callback, and erased; repeated events are added again; the timer is armed; and
        the callbacks collected run, which here are returned. */
    method OnTime(now: int) returns (fired: seq<TimeEvent>)
      modifies this, Events(pending)
      ensures var es := old(Events(pending));
        && Events(pending) <= es
        && Known(old(View(es)))
        && (View(es), fired) == TimerQueue.OnTime(old(View(es)), now, timeout)
    {
      hide Alive, DueCount, ReAdd;
      ghost var es, before := Events(pending), View(Events(pending));
      if armed.Some? && armed.value <= now {
        armed := None;
      }
      var due;
      due, fired := Collect(now, es);
      AliveMembers(pending[..due], before.info);
      pending := pending[due..];
      AddRepeated(fired, now, es);
      ResetArriveTime(now, es);
    }

    /** The loop that brings the repeated events back. */
    method AddRepeated(tmps: seq<TimeEvent>, now: int, ghost es: set<TimeEvent>)
      requires Events(pending) <= es && forall e :: e in tmps ==> e in es
      modifies this, es
      ensures Events(pending) <= es
      ensures View(es) == ReAdd(old(View(es)), tmps, now, timeout)
    {
      hide Add;
      ghost var before := View(es);
      for i := 0 to |tmps|
        invariant Events(pending) <= es
        invariant ReAdd(before, tmps, now, timeout) == ReAdd(View(es), tmps[i..], now, timeout)
      {
        var e := tmps[i];
        assert e in tmps && tmps[i..][0] == e && tmps[i..][1..] == tmps[i + 1..];
        ghost var u := View(es);
        ReAddStep(u, tmps[i..], now, timeout);
        if e.repeated {
          ghost var info := Infos(es);
          e.ResetArriveTime(now);
          assert Infos(es) == info[e := e.AsInfo()];
          AddTimerEvent(e, now, es);
        }
      }
    }
  }

  lemma ReAddStep<E>(t: Timers<E>, es: seq<E>, now: int, timeout: int)
    requires Known(t) && es != [] && forall e :: e in es ==> e in t.info
    ensures var i := t.info[es[0]];
      ReAdd(t, es, now, timeout) ==
      ReAdd(if i.repeated then AddLater(t, es[0], now, timeout) else t, es[1..], now, timeout)
  {
  }

  lemma {:induction false} EraseNothing<E>(p: seq<Entry<E>>, x: Entry<E>)
    requires x !in p
    ensures Erase(p, x) == p
    decreases |p|
  {
    if p != [] {
      EraseNothing(p[1..], x);
      assert [p[0]] + p[1..] == p;
    }
  }

  lemma {:induction false} EraseFound<E>(p: seq<Entry<E>>, x: Entry<E>, i: nat)
    requires i < |p| && x !in p[..i] && p[i] == x
    ensures Erase(p, x) == p[..i] + p[i + 1..]
    decreases |p|
  {
    if i > 0 {
      assert p[..i] == [p[0]] + p[1..][..i - 1];
      EraseFound(p[1..], x, i - 1);
      assert p[1..][i..] == p[i + 1..];
      assert [p[0]] + (p[1..][..i - 1] + p[i + 1..]) == p[..i] + p[i + 1..];
    }
  }

  lemma EraseAt<E>(p: seq<Entry<E>>, x: Entry<E>, i: nat)
    requires i <= |p| && x !in p[..i] && TimerRuns.Sorted(p)
    requires i < |p| ==> p[i] == x || p[i].key > x.key
    ensures Erase(p, x) == if i < |p| && p[i].key <= x.key then p[..i] + p[i + 1..] else p
  {
    if i < |p| && p[i].key <= x.key {
      EraseFound(p, x, i);
    } else {
      assert p == p[..i] + p[i..];
      assert forall k :: i <= k < |p| ==> p[k].key > x.key;
      EraseNothing(p, x);
    }
  }

  lemma {:induction false} DueAt<E>(p: seq<Entry<E>>, now: int, i: nat)
    requires i < |p| && p[i].key <= now && DueCount(p, now) >= i
    ensures DueCount(p, now) >= i + 1
  {
  }

  lemma {:induction false} AliveSnoc<E>(p: seq<Entry<E>>, x: Entry<E>, info: map<E, Info>)
    requires forall y :: y in p ==> y.event in info
    requires x.event in info
    ensures Alive(p + [x], info) == Alive(p, info) + if info[x.event].cancelled then [] else [x.event]
    decreases |p|
  {
    if p == [] {
      assert p + [x] == [x];
    } else {
      assert (p + [x])[0] == p[0] && (p + [x])[1..] == p[1..] + [x];
      AliveSnoc(p[1..], x, info);
    }
  }
}
