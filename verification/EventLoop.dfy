/** The wakeup protocol of src/net/EventLoop.cpp: producers push work under a lock and signal an eventfd
    after releasing it; the loop reads the eventfd and then, under the lock, runs the whole queue. */
module EventLoops {
  /** Where the handler of the loop thread stands: outside, between its read and the lock, or holding it. */
  datatype Phase = Idle | Woken | Draining

  /** `signalling` are the producers between their push and their signal; `pushed` and `ran` are history. */
  datatype Loop<J> = Loop(
    queue: seq<J>,
    counter: nat,
    phase: Phase,
    signalling: set<nat>,
    pushed: seq<J>,
    ran: seq<J>)

  /** The largest value an eventfd counter takes; a non-blocking write at it fails and adds nothing. */
  const MAX_COUNTER: nat := 0xFFFF_FFFF_FFFF_FFFE

  datatype Step<J> = Push(producer: nat, job: J) | Signal(producer: nat) | Read | Lock | RunOne | Unlock

  /** Atomic steps of interleaved threads; one that is not enabled changes nothing. Nobody pushes while
      the handler holds the lock. */
  function Next<J>(s: Loop<J>, step: Step<J>): Loop<J> {
    match step
    case Push(p, job) =>
      if p in s.signalling || s.phase == Draining then s
      else s.(queue := s.queue + [job], pushed := s.pushed + [job], signalling := s.signalling + {p})
    case Signal(p) =>
      if p !in s.signalling then s
      else s.(counter := if s.counter < MAX_COUNTER then s.counter + 1 else s.counter, signalling := s.signalling - {p})
    case Read =>
      if s.phase == Idle && s.counter > 0 then s.(counter := 0, phase := Woken) else s
    case Lock =>
      if s.phase == Woken then s.(phase := Draining) else s
    case RunOne =>
      if s.phase == Draining && s.queue != [] then s.(queue := s.queue[1..], ran := s.ran + [s.queue[0]]) else s
    case Unlock =>
      if s.phase == Draining && s.queue == [] then s.(phase := Idle) else s
  }

  /** A push is refused only while the handler holds the lock, or to a producer that has not signalled yet; and
      it joins the end of the queue. */
  lemma PushJoinsQueue<J>(s: Loop<J>, p: nat, job: J)
    requires p !in s.signalling && s.phase != Draining
    ensures var t := Next(s, Push(p, job));
      && t == s.(queue := s.queue + [job], pushed := s.pushed + [job], signalling := s.signalling + {p})
      && Next(t, Signal(p)).counter > 0 && Next(t, Signal(p)).queue == t.queue
  {
  }

  function Run<J>(s: Loop<J>, steps: seq<Step<J>>): Loop<J>
    decreases |steps|
  {
    if steps == [] then s else Run(Next(s, steps[0]), steps[1..])
  }

  function Start<J>(): Loop<J> { Loop([], 0, Idle, {}, [], []) }

  /** Work that waits will be seen: the eventfd is readable, or someone is about to signal it, or the
      handler is on its way to the queue. And what ran, followed by what waits, is what was pushed. */
  ghost predicate NoLostWakeup<J>(s: Loop<J>) {
    && (s.queue != [] ==> s.counter > 0 || s.signalling != {} || s.phase != Idle)
    && s.pushed == s.ran + s.queue
  }

  lemma {:induction false} RunKeepsNoLostWakeup<J>(s: Loop<J>, steps: seq<Step<J>>)
    requires NoLostWakeup(s)
    ensures NoLostWakeup(Run(s, steps))
    decreases |steps|
  {
    if steps != [] {
      var t := Next(s, steps[0]);
      if steps[0].Push? && t != s {
        assert s.ran + (s.queue + [steps[0].job]) == s.pushed + [steps[0].job];
      } else if steps[0].RunOne? && t != s {
        assert s.ran + s.queue == s.ran + [s.queue[0]] + s.queue[1..];
      }
      RunKeepsNoLostWakeup(t, steps[1..]);
    }
  }

  /** In every interleaving: no lost wakeup, and what has run is a prefix of what was pushed, so every
      piece of work runs at most once and in push order. */
  lemma EveryInterleaving<J>(steps: seq<Step<J>>)
    ensures var s := Run(Start(), steps);
      NoLostWakeup(s) && s.ran <= s.pushed
  {
    RunKeepsNoLostWakeup(Start(), steps);
  }

  /** A step other than a push that changes the state. */
  predicate Effective<J(==)>(s: Loop<J>, step: Step<J>) { !step.Push? && Next(s, step) != s }

  /** Bounds the effective steps that can still be taken without a push. */
  function Budget<J>(s: Loop<J>): nat {
    8 * |s.signalling| + (if s.counter > 0 then 4 else 0)
    + (match s.phase case Woken => 2 case Draining => 1 case Idle => 0) + |s.queue|
  }

  lemma StepSpendsBudget<J>(s: Loop<J>, step: Step<J>)
    requires Effective(s, step)
    ensures Budget(Next(s, step)) < Budget(s)
  {
    if step.Signal? {
      assert |s.signalling - {step.producer}| == |s.signalling| - 1;
    }
  }

  ghost predicate AllEffective<J>(s: Loop<J>, steps: seq<Step<J>>)
    decreases |steps|
  {
    steps == [] || (Effective(s, steps[0]) && AllEffective(Next(s, steps[0]), steps[1..]))
  }

  lemma {:induction false} EffectiveStepsAreBounded<J>(s: Loop<J>, steps: seq<Step<J>>)
    requires AllEffective(s, steps)
    ensures |steps| + Budget(Run(s, steps)) <= Budget(s)
    decreases |steps|
  {
    if steps != [] {
      StepSpendsBudget(s, steps[0]);
      EffectiveStepsAreBounded(Next(s, steps[0]), steps[1..]);
    }
  }

  /** Wherever an interleaving stands, once pushes stop the threads can take only so many more effective
      steps, in whatever order, and when none is left everything pushed has run, exactly once and in
      order, and nobody is left with a signal to give. */
  lemma EverythingRuns<J(!new)>(before: seq<Step<J>>, after: seq<Step<J>>)
    requires AllEffective(Run(Start(), before), after)
    ensures var s := Run(Start(), before);
      var t := Run(s, after);
      && |after| <= Budget(s)
      && ((forall step :: !Effective(t, step)) ==>
           t.ran == t.pushed == s.pushed && t.signalling == {} && t.phase == Idle)
  {
    var s := Run(Start(), before);
    var t := Run(s, after);
    RunKeepsNoLostWakeup(Start(), before);
    RunKeepsNoLostWakeup(s, after);
    EffectiveStepsAreBounded(s, after);
    NoPushes(s, after);
    assert t.phase == Draining && t.queue != [] ==> |Next(t, RunOne).queue| < |t.queue|;
    if forall step :: !Effective(t, step) {
      assert t.phase != Woken by { assert !Effective(t, Lock); }
      assert !Effective(t, RunOne) && !Effective(t, Unlock) && !Effective(t, Read);
      if t.signalling != {} {
        var p :| p in t.signalling;
        assert p !in Next(t, Signal(p)).signalling;
        assert Effective(t, Signal(p));
      }
    }
  }

  lemma {:induction false} NoPushes<J>(s: Loop<J>, steps: seq<Step<J>>)
    requires AllEffective(s, steps)
    ensures Run(s, steps).pushed == s.pushed
    decreases |steps|
  {
    if steps != [] {
      NoPushes(Next(s, steps[0]), steps[1..]);
    }
  }

  lemma {:induction false} RunSnoc<J>(s: Loop<J>, steps: seq<Step<J>>, step: Step<J>)
    ensures Run(s, steps + [step]) == Next(Run(s, steps), step)
    decreases |steps|
  {
    if steps == [] {
      assert [step][1..] == [];
    } else {
      assert (steps + [step])[0] == steps[0] && (steps + [step])[1..] == steps[1..] + [step];
      RunSnoc(Next(s, steps[0]), steps[1..], step);
    }
  }

  /** The loop object. The methods below perform their steps without others in between; the theorems
      above say what holds when the steps of several threads are interleaved. */
  class EventLoop<J> {
    var taskQueue: seq<J>
    var wakeups: nat
    ghost var phase: Phase
    ghost var signalling: set<nat>
    ghost var pushed: seq<J>
    ghost var ran: seq<J>

    ghost function AsLoop(): Loop<J>
      reads this
    {
      Loop(taskQueue, wakeups, phase, signalling, pushed, ran)
    }

    constructor ()
      ensures AsLoop() == Start()
    {
      taskQueue, wakeups, phase, signalling, pushed, ran := [], 0, Idle, {}, [], [];
    }

    method Wakeup(ghost producer: nat)
      requires producer in signalling
      modifies this
      ensures AsLoop() == Next(old(AsLoop()), Signal(producer))
      ensures wakeups == if old(wakeups) < 0xFFFF_FFFF_FFFF_FFFE then old(wakeups) + 1 else old(wakeups)
      ensures taskQueue == old(taskQueue) && signalling == old(signalling) - {producer}
    {
      if wakeups < MAX_COUNTER {
        wakeups := wakeups + 1;
      }
      signalling := signalling - {producer};
    }

    method QueueInLoop(job: J, ghost producer: nat)
      requires producer !in signalling && phase != Draining
      modifies this
      ensures AsLoop() == Next(Next(old(AsLoop()), Push(producer, job)), Signal(producer))
      ensures taskQueue == old(taskQueue) + [job] && pushed == old(pushed) + [job] && ran == old(ran)
      ensures wakeups > 0 && signalling == old(signalling)
    {
      taskQueue := taskQueue + [job];
      pushed := pushed + [job];
      signalling := signalling + {producer};
      Wakeup(producer);
    }

    /** On the loop's own thread the work runs at once, ahead of what is queued; from elsewhere it is queued. */
    method RunInLoop(job: J, isLoopThread: bool, ghost producer: nat) returns (ranNow: bool)
      requires isLoopThread || (producer !in signalling && phase != Draining)
      modifies this
      ensures ranNow == isLoopThread
      ensures taskQueue == old(taskQueue) + if isLoopThread then [] else [job]
      ensures !isLoopThread ==> wakeups > 0
      ensures AsLoop() == if isLoopThread then old(AsLoop())
                          else Next(Next(old(AsLoop()), Push(producer, job)), Signal(producer))
    {
      ranNow := isLoopThread;
      if !isLoopThread {
        QueueInLoop(job, producer);
      }
    }

    /** Reads the eventfd; unless that fails, takes the lock and runs queued work until none is left. The
        jobs are returned in the order in which they ran. */
    method HandleWakeup() returns (jobs: seq<J>, ghost steps: seq<Step<J>>)
      requires phase == Idle
      modifies this
      ensures AsLoop() == Run(old(AsLoop()), steps) && forall step :: step in steps ==> !step.Push?
      ensures ran == old(ran) + jobs && phase == Idle && signalling == old(signalling)
      ensures old(wakeups) == 0 ==> jobs == [] && taskQueue == old(taskQueue) && wakeups == 0
      ensures old(wakeups) > 0 ==> jobs == old(taskQueue) && taskQueue == [] && wakeups == 0
    {
      jobs, steps := [], [];
      if wakeups == 0 {
        return;
      }
      wakeups := 0;
      phase := Draining;
      steps := [Read, Lock];
      assert [Step<J>.Read, Lock][1..] == [Step<J>.Lock] && [Step<J>.Lock][1..] == [];
      assert AsLoop() == Run(old(AsLoop()), steps);
      while |taskQueue| > 0
        invariant phase == Draining && wakeups == 0 && signalling == old(signalling)
        invariant AsLoop() == Run(old(AsLoop()), steps) && forall step :: step in steps ==> !step.Push?
        invariant jobs + taskQueue == old(taskQueue) && ran == old(ran) + jobs
        decreases |taskQueue|
      {
        var job := taskQueue[0];
        RunSnoc(old(AsLoop()), steps, RunOne);
        steps := steps + [RunOne];
        taskQueue := taskQueue[1..];
        jobs := jobs + [job];
        ran := ran + [job];
      }
      RunSnoc(old(AsLoop()), steps, Unlock);
      steps := steps + [Unlock];
      phase := Idle;
    }
  }
}
