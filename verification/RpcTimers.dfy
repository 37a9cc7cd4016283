/** Remote calls and the timer queue of their loop together: every call has a timer event in the queue, a reply
    cancels it, and the queue's timer callback runs the timeouts. */
module RpcTimers {
  import opened Bytes
  import opened TinyPB
  import opened TimerQueue
  import opened RpcClient
  import TimerRuns

  /** The events of the queue: one for each call, and others, such as the keepalive round. */
  datatype Name = OfCall(id: bytes) | Other(n: nat)

  /** `deadline` records when the timers of the calls were due at their start. */
  datatype State = State(clock: TimerRuns.Clocked<Name>, client: Client, deadline: map<bytes, int>)

  /** A call starts with `period` milliseconds to go; the client sends; a reply arrives, as one of a batch that
      is handed over one by one; another event is added,
      cancelled or deleted; the timer descriptor is served. */
  datatype Event =
    | Start(at: int, period: int, request: Message, hasClosure: bool, sameController: bool)
    | Send(step: RpcClient.Step)
    | Reply(m: Message)
    | Foreign(at: int, act: TimerRuns.Act<Name>)
    | Fire(at: int)

  predicate IsForeign(act: TimerRuns.Act<Name>) { !act.Fire? && act.e.Other? }

  predicate IsSend(step: RpcClient.Step) { step.Push? || step.Ping? || step.PopPing? || step.Flush? }

  /** What serving the due entries of the queue, in order, means to the calls. */
  function ServeDue(s: Client, due: seq<Entry<Name>>, parses: Parsing): Client
    decreases |due|
  {
    if due == [] then s
    else ServeDue(if due[0].event.OfCall? then Next(s, TimerDue(due[0].event.id), parses) else s, due[1..], parses)
  }

  function Due(t: Timers<Name>, at: int): seq<Entry<Name>> { t.pending[..DueCount(t.pending, at)] }

  ghost function Step(s: State, ev: Event, timeout: int, parses: Parsing): State
    requires Known(s.clock.timers)
  {
    match ev
    case Start(at, period, request, hasClosure, sameController) =>
      var id := request.msgId;
      if at < s.clock.now || period <= 0 || !FreshId(s.client, id) || !Fits(request) then s
      else
        State(TimerRuns.Step(s.clock, at, TimerRuns.Added(OfCall(id), at + period, period, false), timeout),
              Next(s.client, AddTimer(request, hasClosure, sameController), parses),
              s.deadline[id := at + period])
    case Send(step) => if IsSend(step) then s.(client := Next(s.client, step, parses)) else s
    case Reply(m) =>
      var clock :=
        if m.msgId in s.client.readDones && s.client.readDones[m.msgId].ForCall?
        then TimerRuns.Step(s.clock, s.clock.now, TimerRuns.Cancelled(OfCall(s.client.readDones[m.msgId].id)), timeout)
        else s.clock;
      s.(clock := clock, client := Deliver(s.client, m, parses))
    case Foreign(at, act) =>
      if IsForeign(act) then s.(clock := TimerRuns.Step(s.clock, at, act, timeout)) else s
    case Fire(at) =>
      if at < s.clock.now then s
      else s.(clock := TimerRuns.Step(s.clock, at, TimerRuns.Fire, timeout),
              client := ServeDue(s.client, Due(s.clock.timers, at), parses))
  }

  // ---------------------------------------------------------------------------------------------
  // Queue and calls stay coupled
  // ---------------------------------------------------------------------------------------------

  /** The call's timer waits in the queue exactly while it is pending, is cancelled there exactly if the call says
      so, and is due at the call's deadline. */
  ghost predicate CallCoupled(s: State, id: bytes) {
    var e, info := OfCall(id), s.clock.timers.info;
    && id in s.client.calls && id in s.deadline && e in info
    && !info[e].repeated && info[e].arrive == s.deadline[id]
    && info[e].cancelled == s.client.calls[id].timerCancelled
    && (s.client.calls[id].timerPending <==> TimerRuns.Pending(s.clock.timers.pending, e))
  }

  ghost predicate CallsCoupled(s: State) {
    && (forall id :: id in s.client.calls ==> CallCoupled(s, id))
    && (forall e :: e in s.clock.timers.info && e.OfCall? ==> e.id in s.client.calls)
  }

  ghost predicate Coupled(s: State, parses: Parsing) {
    TimerRuns.Good(s.clock) && Ok(s.client, parses) && CallsCoupled(s)
  }

  /** Calls stay, with their deadlines, and a timer that was served stays served. */
  ghost predicate Follows(s: State, t: State) {
    forall id :: id in s.client.calls && id in s.deadline ==>
      && id in t.client.calls && id in t.deadline && t.deadline[id] == s.deadline[id]
      && (!s.client.calls[id].timerPending ==> !t.client.calls[id].timerPending)
  }

  lemma StartKeeps(s: State, at: int, period: int, request: Message, hasClosure: bool, sameController: bool,
                   timeout: int, parses: Parsing)
    requires Coupled(s, parses) && timeout > 0
    ensures var t := Step(s, Start(at, period, request, hasClosure, sameController), timeout, parses);
      Coupled(t, parses) && Follows(s, t)
  {
    hide Ok, Fits, TimerRuns.Sorted, TimerRuns.Distinct, TimerRuns.Armed, TimerRuns.FiredOnce, TimerRuns.Good;
    hide TimerRuns.Step;
    GoodIsKnown(s.clock);
    var id, clock := request.msgId, s.clock;
    if at >= clock.now && period > 0 && FreshId(s.client, id) && Fits(request) {
      var e := OfCall(id);
      var act := TimerRuns.Added(e, at + period, period, false);
      TimerRuns.StepKeepsGood(clock, at, act, timeout);
      NextKeepsOk(s.client, AddTimer(request, hasClosure, sameController), parses);
      NewTimer(clock, at, period, e, timeout);
    }
  }

  /** Adding the timer of a new call. */
  lemma NewTimer(c: TimerRuns.Clocked<Name>, at: int, period: int, e: Name, timeout: int)
    requires TimerRuns.Good(c) && timeout > 0 && at >= c.now && period > 0 && e !in c.timers.info
    ensures var d := TimerRuns.Step(c, at, TimerRuns.Added(e, at + period, period, false), timeout);
      && d.timers.info == c.timers.info[e := Info(at + period, period, false, false)]
      && TimerRuns.Pending(d.timers.pending, e)
      && forall f :: f != e ==> (TimerRuns.Pending(d.timers.pending, f) <==> TimerRuns.Pending(c.timers.pending, f))
  {
    hide TimerRuns.Sorted, TimerRuns.Distinct, TimerRuns.FiredOnce;
    assert !TimerRuns.Pending(c.timers.pending, e);
    var t := c.timers.(info := c.timers.info[e := Info(at + period, period, false, false)]);
    TimerRuns.NotPendingIsFree(c.timers, e, t.info[e]);
    TimerRuns.AddConsistent(t, e, at, timeout);
    var u := Add(t, e, at, timeout);
    TimerRuns.OtherPending(t.pending, u.pending, Entry(at + period, e));
    assert Entry(at + period, e) in u.pending;
  }

  lemma SendKeeps(s: State, step: RpcClient.Step, timeout: int, parses: Parsing)
    requires Coupled(s, parses) && timeout > 0
    ensures var t := Step(s, Send(step), timeout, parses); Coupled(t, parses) && Follows(s, t)
  {
    hide Ok, Fits, TimerRuns.Good;
    if IsSend(step) {
      NextKeepsOk(s.client, step, parses);
    }
  }

  lemma EntryIsOwn(s: Client, id: bytes, parses: Parsing)
    requires Ok(s, parses) && id in s.readDones && s.readDones[id].ForCall?
    ensures s.readDones[id].id == id && id in s.calls
  {
    hide CallOk, Fits, Queued;
    assert Owner(s, id, s.readDones[id]);
  }

  lemma ReplyKeeps(s: State, m: Message, timeout: int, parses: Parsing)
    requires Coupled(s, parses) && timeout > 0
    ensures var t := Step(s, Reply(m), timeout, parses); Coupled(t, parses) && Follows(s, t)
  {
    hide Ok, Fits, TimerRuns.Good;
    DeliverKeepsOk(s.client, m, parses);
    if m.msgId in s.client.readDones && s.client.readDones[m.msgId].ForCall? {
      EntryIsOwn(s.client, m.msgId, parses);
      TimerRuns.StepKeepsGood(s.clock, s.clock.now, TimerRuns.Cancelled(OfCall(m.msgId)), timeout);
    }
  }

  /** An operation on another event leaves the calls' events as they are. */
  lemma ForeignLeavesCalls(c: TimerRuns.Clocked<Name>, at: int, act: TimerRuns.Act<Name>, timeout: int)
    requires TimerRuns.Good(c) && IsForeign(act) && timeout > 0
    ensures var d := TimerRuns.Step(c, at, act, timeout);
      && (forall e: Name :: e.OfCall? ==> (e in d.timers.info <==> e in c.timers.info))
      && (forall e: Name :: e.OfCall? && e in c.timers.info ==> d.timers.info[e] == c.timers.info[e])
      && (forall e: Name :: e.OfCall? ==>
           (TimerRuns.Pending(d.timers.pending, e) <==> TimerRuns.Pending(c.timers.pending, e)))
  {
    hide TimerRuns.Sorted, TimerRuns.Distinct, TimerRuns.FiredOnce;
    var p, e := c.timers.pending, act.e;
    if at >= c.now {
      match act
      case Added(e, arrive, interval, repeated) =>
        if arrive > at && interval > 0 && !TimerRuns.Pending(p, e) {
          var t := c.timers.(info := c.timers.info[e := TimerRuns.InfoFor(c.timers, e, arrive, interval, repeated)]);
          TimerRuns.NotPendingIsFree(c.timers, e, t.info[e]);
          TimerRuns.AddConsistent(t, e, at, timeout);
          TimerRuns.OtherPending(p, Add(t, e, at, timeout).pending, Entry(arrive, e));
        }
      case Deleted(e) =>
        if e in c.timers.info {
          TimerRuns.DeleteKeeps(c.timers, e);
        }
      case Cancelled(e) =>
    }
  }

  lemma ForeignKeeps(s: State, at: int, act: TimerRuns.Act<Name>, timeout: int, parses: Parsing)
    requires Coupled(s, parses) && timeout > 0
    ensures var t := Step(s, Foreign(at, act), timeout, parses); Coupled(t, parses) && Follows(s, t)
  {
    hide Ok, TimerRuns.Step, TimerRuns.Good;
    if IsForeign(act) {
      TimerRuns.StepKeepsGood(s.clock, at, act, timeout);
      ForeignLeavesCalls(s.clock, at, act, timeout);
    }
  }

  ghost predicate IsDue(due: seq<Entry<Name>>, id: bytes) { exists x :: x in due && x.event == OfCall(id) }

  /** The call after its timer has been served. */
  function Served(c: Call): Call {
    var d := c.(timerPending := false);
    if c.timerCancelled then d else OnTimeout(d)
  }

  lemma TimerDueServes(s: Client, id: bytes, parses: Parsing)
    ensures Next(s, TimerDue(id), parses) ==
      if id in s.calls && s.calls[id].timerPending then s.(calls := s.calls[id := Served(s.calls[id])]) else s
    ensures id in s.calls ==> !Served(s.calls[id]).timerPending
  {
  }

  /** Serving the due entries serves the timer of each call among them once, and touches no other call. */
  lemma {:induction false} ServeDueServes(s: Client, due: seq<Entry<Name>>, parses: Parsing)
    requires Ok(s, parses)
    ensures var t := ServeDue(s, due, parses);
      && Ok(t, parses) && t.calls.Keys == s.calls.Keys
      && forall id :: id in s.calls ==>
           t.calls[id] == if s.calls[id].timerPending && IsDue(due, id) then Served(s.calls[id]) else s.calls[id]
    decreases |due|
  {
    hide Ok, Served, Next;
    if due != [] {
      var u := if due[0].event.OfCall? then Next(s, TimerDue(due[0].event.id), parses) else s;
      if due[0].event.OfCall? {
        NextKeepsOk(s, TimerDue(due[0].event.id), parses);
        TimerDueServes(s, due[0].event.id, parses);
      }
      ServeDueServes(u, due[1..], parses);
      assert due == [due[0]] + due[1..];
      assert forall id :: IsDue(due, id) <==> due[0].event == OfCall(id) || IsDue(due[1..], id);
    }
  }

  /** Whose timer is due, and what the queue holds afterwards. */
  lemma FireOnCalls(c: TimerRuns.Clocked<Name>, at: int, timeout: int, id: bytes)
    requires TimerRuns.Good(c) && timeout > 0 && at >= c.now
    requires OfCall(id) in c.timers.info && !c.timers.info[OfCall(id)].repeated
    ensures var d, e := TimerRuns.Step(c, at, TimerRuns.Fire, timeout), OfCall(id);
      && d.timers.info.Keys == c.timers.info.Keys && d.timers.info[e] == c.timers.info[e]
      && (IsDue(Due(c.timers, at), id) <==> TimerRuns.Pending(c.timers.pending, e) && c.timers.info[e].arrive <= at)
      && (TimerRuns.Pending(d.timers.pending, e)
          <==> TimerRuns.Pending(c.timers.pending, e) && c.timers.info[e].arrive > at)
      && (e in OnTime(c.timers, at, timeout).1
          <==> TimerRuns.Pending(c.timers.pending, e) && c.timers.info[e].arrive <= at && !c.timers.info[e].cancelled)
  {
    hide OnTime, DueCount, TimerRuns.Sorted, TimerRuns.Distinct, TimerRuns.FiredOnce, TimerRuns.InArrivalOrder;
    hide TimerRuns.InQueueOrder, TimerRuns.Before, TimerRuns.NoRepeats, TimerRuns.AllAfter;
    TimerRuns.OnTimeFires(c.timers, at, timeout);
    TimerRuns.SplitAtDue(c.timers, at);
    var e, p, q := OfCall(id), c.timers.pending, OnTime(c.timers, at, timeout).0.pending;
    if TimerRuns.Pending(p, e) {
      var x :| x in p && x.event == e;
      assert x.key == c.timers.info[e].arrive;
    }
  }

  lemma FireKeeps(s: State, at: int, timeout: int, parses: Parsing)
    requires Coupled(s, parses) && timeout > 0
    ensures var t := Step(s, Fire(at), timeout, parses); Coupled(t, parses) && Follows(s, t)
  {
    hide Ok, OnTime, Due, IsDue, TimerRuns.Step, TimerRuns.Good, TimerRuns.Pending;
    GoodIsKnown(s.clock);
    if at >= s.clock.now {
      TimerRuns.StepKeepsGood(s.clock, at, TimerRuns.Fire, timeout);
      FireKeepsNames(s.clock, at, timeout);
      ServeDueServes(s.client, Due(s.clock.timers, at), parses);
      forall id | id in s.client.calls
        ensures CallCoupled(Step(s, Fire(at), timeout, parses), id)
      {
        assert CallCoupled(s, id);
        FireOnCalls(s.clock, at, timeout, id);
      }
    }
  }

  lemma FireKeepsNames(c: TimerRuns.Clocked<Name>, at: int, timeout: int)
    requires TimerRuns.Good(c) && timeout > 0 && at >= c.now
    ensures TimerRuns.Step(c, at, TimerRuns.Fire, timeout).timers.info.Keys == c.timers.info.Keys
  {
    hide OnTime, TimerRuns.Sorted, TimerRuns.Distinct, TimerRuns.FiredOnce;
    hide TimerRuns.InQueueOrder, TimerRuns.Before, TimerRuns.NoRepeats, TimerRuns.AllAfter;
    TimerRuns.OnTimeFires(c.timers, at, timeout);
  }

  lemma StepKeeps(s: State, ev: Event, timeout: int, parses: Parsing)
    requires Coupled(s, parses) && timeout > 0
    ensures var t := Step(s, ev, timeout, parses); Coupled(t, parses) && Follows(s, t)
  {
    hide Coupled, Follows;
    match ev
    case Start(at, period, request, hasClosure, sameController) =>
      StartKeeps(s, at, period, request, hasClosure, sameController, timeout, parses);
    case Send(step) => SendKeeps(s, step, timeout, parses);
    case Reply(m) => ReplyKeeps(s, m, timeout, parses);
    case Foreign(at, act) => ForeignKeeps(s, at, act, timeout, parses);
    case Fire(at) => FireKeeps(s, at, timeout, parses);
  }

  // ---------------------------------------------------------------------------------------------
  // Runs
  // ---------------------------------------------------------------------------------------------

  ghost function Run(s: State, evs: seq<Event>, timeout: int, parses: Parsing): State
    requires Coupled(s, parses) && timeout > 0
    decreases |evs|
  {
    if evs == [] then s
    else
      StepKeeps(s, evs[0], timeout, parses);
      Run(Step(s, evs[0], timeout, parses), evs[1..], timeout, parses)
  }

  lemma CoupledIsKnown(s: State, parses: Parsing)
    requires Coupled(s, parses)
    ensures Known(s.clock.timers)
  {
  }

  /** No calls, and a new timer. */
  ghost function Initially(now: int, timeout: int, parses: Parsing): (s: State)
    ensures Coupled(s, parses)
  {
    State(TimerRuns.Started(now, timeout), IDLE, map[])
  }

  lemma {:induction false} RunKeeps(s: State, evs: seq<Event>, timeout: int, parses: Parsing)
    requires Coupled(s, parses) && timeout > 0
    ensures var t := Run(s, evs, timeout, parses); Coupled(t, parses) && Follows(s, t)
    decreases |evs|
  {
    CoupledIsKnown(s, parses);
    hide Step, Coupled, Follows;
    if evs == [] {
      FollowsItself(s);
    } else {
      StepKeeps(s, evs[0], timeout, parses);
      var t := Step(s, evs[0], timeout, parses);
      RunKeeps(t, evs[1..], timeout, parses);
      FollowsOn(s, t, Run(t, evs[1..], timeout, parses), parses);
    }
  }

  lemma FollowsItself(s: State)
    ensures Follows(s, s)
  {
  }

  lemma FollowsOn(s: State, t: State, u: State, parses: Parsing)
    requires Follows(s, t) && Follows(t, u)
    ensures Follows(s, u)
  {
  }

  /** In every reachable state the timer descriptor is armed for no later than the deadline of any call whose timer
      is still pending. */
  lemma ArmedForCalls(now: int, evs: seq<Event>, timeout: int, parses: Parsing, id: bytes)
    requires timeout > 0
    requires var s := Run(Initially(now, timeout, parses), evs, timeout, parses);
      id in s.client.calls && s.client.calls[id].timerPending
    ensures var s := Run(Initially(now, timeout, parses), evs, timeout, parses);
      && id in s.deadline && s.clock.timers.armed.Some?
      && s.clock.timers.armed.value <= s.deadline[id]
  {
    RunKeeps(Initially(now, timeout, parses), evs, timeout, parses);
    var s := Run(Initially(now, timeout, parses), evs, timeout, parses);
    assert CallCoupled(s, id);
    var x :| x in s.clock.timers.pending && x.event == OfCall(id);
    TimerRuns.FirstIsLeast(s.clock.timers.pending, x);
  }

  /** Whenever the descriptor is served at or after a call's deadline, and however the run went before and goes on
      afterwards, the call's timer has been served, and its closure has run as often as it must. */
  lemma DeadlineServesCall(now: int, evs: seq<Event>, at: int, more: seq<Event>, timeout: int, parses: Parsing,
                           id: bytes)
    requires timeout > 0
    requires var s := Run(Initially(now, timeout, parses), evs, timeout, parses);
      at >= s.clock.now && id in s.client.calls && id in s.deadline && at >= s.deadline[id]
    ensures Known(Run(Initially(now, timeout, parses), evs, timeout, parses).clock.timers)
    ensures var t := Step(Run(Initially(now, timeout, parses), evs, timeout, parses), Fire(at), timeout, parses);
      && Coupled(t, parses)
      && var u := Run(t, more, timeout, parses);
         && id in u.client.calls && !u.client.calls[id].timerPending
         && (u.client.calls[id].hasClosure ==> |u.client.calls[id].runs| == RunsWhenServed(u.client.calls[id], parses))
  {
    hide Step, TimerRuns.Good, TimerRuns.Pending, Ok, Run;
    RunKeeps(Initially(now, timeout, parses), evs, timeout, parses);
    var s := Run(Initially(now, timeout, parses), evs, timeout, parses);
    GoodIsKnown(s.clock);
    var t := Step(s, Fire(at), timeout, parses);
    StepKeeps(s, Fire(at), timeout, parses);
    FireServes(s, at, timeout, parses, id);
    RunKeeps(t, more, timeout, parses);
    CountOfServed(Run(t, more, timeout, parses).client, id, parses);
  }

  lemma GoodIsKnown(c: TimerRuns.Clocked<Name>)
    requires TimerRuns.Good(c)
    ensures Known(c.timers)
  {
  }

  lemma FireServes(s: State, at: int, timeout: int, parses: Parsing, id: bytes)
    requires Coupled(s, parses) && timeout > 0 && at >= s.clock.now
    requires id in s.client.calls && id in s.deadline && at >= s.deadline[id]
    ensures var t := Step(s, Fire(at), timeout, parses);
      id in t.client.calls && !t.client.calls[id].timerPending
  {
    hide Ok, OnTime, Due, IsDue, TimerRuns.Step, TimerRuns.Good, TimerRuns.Pending;
    assert CallCoupled(s, id);
    ServeDueServes(s.client, Due(s.clock.timers, at), parses);
    FireOnCalls(s.clock, at, timeout, id);
  }

  lemma CountOfServed(s: Client, id: bytes, parses: Parsing)
    requires Ok(s, parses) && id in s.calls && !s.calls[id].timerPending
    ensures s.calls[id].hasClosure ==> |s.calls[id].runs| == RunsWhenServed(s.calls[id], parses)
  {
    hide Fits;
    assert CallOk(s.calls[id], parses);
  }

  /** The callbacks that a timer event runs for calls are exactly the timeouts of calls that no reply has reached:
      served in time, never twice, and never after a reply. */
  lemma FiredAreTimeouts(s: State, at: int, timeout: int, parses: Parsing, id: bytes)
    requires Coupled(s, parses) && timeout > 0 && at >= s.clock.now && id in s.client.calls
    ensures Known(s.clock.timers) && id in s.deadline
    ensures var t := Step(s, Fire(at), timeout, parses);
      var c := s.client.calls[id];
      && id in t.client.calls
      && (OfCall(id) in OnTime(s.clock.timers, at, timeout).1
          <==> c.timerPending && s.deadline[id] <= at && c.firstReply.None?)
      && t.client.calls[id] ==
         if !c.timerPending || s.deadline[id] > at then c
         else if c.firstReply.Some? then c.(timerPending := false)
         else OnTimeout(c.(timerPending := false))
  {
    hide Ok, OnTime, OnTimeout, Due, IsDue, TimerRuns.Step, TimerRuns.Good, TimerRuns.Pending;
    GoodIsKnown(s.clock);
    assert CallCoupled(s, id);
    ServeDueServes(s.client, Due(s.clock.timers, at), parses);
    FireOnCalls(s.clock, at, timeout, id);
    CancelledIfReplied(s.client, id, parses);
  }

  lemma CancelledIfReplied(s: Client, id: bytes, parses: Parsing)
    requires Ok(s, parses) && id in s.calls
    ensures s.calls[id].timerCancelled <==> s.calls[id].firstReply.Some?
  {
    hide Fits;
    assert CallOk(s.calls[id], parses);
  }

  /** Calls can be made: in every state a call with an id of its own starts with its timer in the queue, due one
      period later. */
  lemma StartAddsCall(s: State, at: int, period: int, request: Message, hasClosure: bool, sameController: bool,
                      timeout: int, parses: Parsing)
    requires Coupled(s, parses) && timeout > 0 && at >= s.clock.now && period > 0
    requires Fits(request) && request.msgId != []
    requires request.msgId !in s.client.calls && request.msgId !in s.client.pings
    ensures Known(s.clock.timers)
    ensures var t := Step(s, Start(at, period, request, hasClosure, sameController), timeout, parses);
      var e := OfCall(request.msgId);
      && t.client.calls == s.client.calls[request.msgId := NewCall(request, hasClosure, sameController)]
      && t.deadline == s.deadline[request.msgId := at + period]
      && TimerRuns.Pending(t.clock.timers.pending, e) && e in t.clock.timers.info
      && t.clock.timers.info[e] == Info(at + period, period, false, false)
  {
    hide Ok, Fits, TimerRuns.Step, TimerRuns.Good;
    GoodIsKnown(s.clock);
    NewTimer(s.clock, at, period, OfCall(request.msgId), timeout);
  }
}
