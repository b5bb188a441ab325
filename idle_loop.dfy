/**
 * The generic idle loop of kernel/sched/idle.c for one CPU: cpu_startup_entry, the iterations of
 * cpu_idle_loop, cpu_idle_poll and the weak arch_cpu_idle. What the hardware, the scheduler and the
 * tick code report at each test is an Env; the hooks the loop calls are recorded as Events.
 */
module IdleLoop {
  import opened IdlePoll

  /** The calls the loop makes that this model records, in the order they happen. */
  datatype Event =
    | Prepare            // arch_cpu_idle_prepare
    | TickIdleEnter      // tick_nohz_idle_enter
    | PlugOff            // tick_set_cpu_plugoff_flag(1)
    | Dead               // arch_cpu_idle_dead
    | IdleEnter          // arch_cpu_idle_enter
    | Polled(spins: nat) // cpu_idle_poll, with the number of cpu_relax() calls it made
    | ArchIdle           // arch_cpu_idle
    | IdleExit           // arch_cpu_idle_exit
    | TickIdleExit       // tick_nohz_idle_exit
    | Schedule           // schedule_preempt_disabled

  /** Which arch_cpu_idle the kernel is built with: the weak one of lines 85-89, or an architecture's. */
  datatype Hook = WeakDefault | ArchSpecific(enablesIrqs: bool)

  /** What one pass of the inner loop observes. */
  datatype Env = Env(
    needResched: bool,       // need_resched() at the loop test, line 106
    offline: bool,           // cpu_is_offline(cpu), line 110
    broadcastExpired: bool,  // tick_check_broadcast_expired(), line 132
    spin: seq<bool>,         // tif_need_resched() at each test of the spin loop, line 72
    reschedAtClear: bool)    // current_clr_polling_and_test(), line 136

  /** The scheduler sets need-resched at some test of a spin: the environment this model assumes. */
  ghost predicate Fair(e: Env) {
    exists i :: 0 <= i < |e.spin| && e.spin[i]
  }

  /** The inner loop is left at some pass: need-resched is seen, or the CPU goes offline. */
  ghost predicate Ends(envs: seq<Env>) {
    exists i :: 0 <= i < |envs| && (envs[i].needResched || envs[i].offline)
  }

  /** What one CPU running the loop can observe of itself and of the poll controller. */
  datatype State = State(
    forcePoll: int,        // cpu_idle_force_poll
    cpuPoll: int,          // this CPU's idle_force_poll
    irqsOn: bool,          // local interrupts enabled
    polling: bool,         // TIF_POLLING_NRFLAG of the idle task
    dead: bool,            // arch_cpu_idle_dead was entered
    trace: seq<Event>,
    warnings: seq<Site>)

  /**
   * The number of cpu_relax() calls of the spin loop (lines 72-74): it stops at the first test that
   * sees need-resched, or at once when neither counter asks for polling.
   */
  function SpinCount(spin: seq<bool>, forced: bool): (n: nat)
    requires |spin| > 0 && (forced ==> exists i :: 0 <= i < |spin| && spin[i])
    ensures n < |spin|
    ensures forall k :: 0 <= k < n ==> !spin[k]
    ensures spin[n] || !forced
    ensures !forced ==> n == 0
    decreases |spin|
  {
    if spin[0] || !forced then 0
    else
      var i :| 0 <= i < |spin| && spin[i];
      assert spin[1..][i - 1];
      1 + SpinCount(spin[1..], forced)
  }

  /** The counters the spin loop re-tests; the broadcast device is not among them. */
  function Forced(s: State): bool {
    s.forcePoll != 0 || s.cpuPoll != 0
  }

  /** arch_cpu_idle: the weak default forces polling from now on and enables interrupts. */
  function ArchIdleEffect(s: State, hook: Hook): (r: State)
    ensures hook.WeakDefault? ==> r.forcePoll == 1 && r.irqsOn
  {
    match hook
    case WeakDefault => s.(forcePoll := 1, irqsOn := true)
    case ArchSpecific(on) => s.(irqsOn := on)
  }

  /**
   * The deep branch of lines 136-149: clear polling and test need-resched in one step; if it is
   * pending only enable interrupts, otherwise run arch_cpu_idle and report interrupts left off.
   * Polling is set again on both paths.
   */
  function DeepIdle(s: State, resched: bool, hook: Hook): State {
    if resched then s.(irqsOn := true, polling := true)
    else
      var a := ArchIdleEffect(s.(polling := false, trace := s.trace + [ArchIdle]), hook);
      a.(warnings := Warn(a.warnings, IrqsOffAfterIdle, !a.irqsOn), polling := true)
  }

  /** One pass of the inner loop body, lines 107-151. An offline CPU ends in arch_cpu_idle_dead. */
  function Iteration(s: State, e: Env, hook: Hook): State
    requires !s.dead && Fair(e)
  {
    if e.offline then s.(dead := true, trace := s.trace + [PlugOff, Dead])
    else
      var entered := s.(irqsOn := false, trace := s.trace + [IdleEnter]);
      var idled :=
        if PollBranch(s.forcePoll, e.broadcastExpired, s.cpuPoll)
        then entered.(irqsOn := true, trace := entered.trace + [Polled(SpinCount(e.spin, Forced(s)))])
        else DeepIdle(entered, e.reschedAtClear, hook);
      idled.(trace := idled.trace + [IdleExit])
  }

  /** The inner loop of lines 106-152, until need-resched is seen or the CPU is dead. */
  function RunInner(s: State, envs: seq<Env>, hook: Hook): (r: State)
    requires !s.dead && Ends(envs) && forall i :: 0 <= i < |envs| ==> Fair(envs[i])
    decreases |envs|
  {
    if envs[0].needResched then s
    else
      var next := Iteration(s, envs[0], hook);
      if next.dead then next
      else
        EndsTail(envs);
        RunInner(next, envs[1..], hook)
  }

  /** A pass that neither sees need-resched nor goes offline leaves the end to the later passes. */
  lemma EndsTail(envs: seq<Env>)
    requires Ends(envs) && forall i :: 0 <= i < |envs| ==> Fair(envs[i])
    requires !envs[0].needResched && !envs[0].offline
    ensures Ends(envs[1..]) && forall i :: 0 <= i < |envs[1..]| ==> Fair(envs[1..][i])
  {
    var i :| 0 <= i < |envs| && (envs[i].needResched || envs[i].offline);
    assert envs[1..][i - 1] == envs[i];
  }

  /** The first pass of the inner loop, when need-resched is not seen at its test. */
  lemma RunInnerStep(s: State, envs: seq<Env>, hook: Hook)
    requires !s.dead && Ends(envs) && forall i :: 0 <= i < |envs| ==> Fair(envs[i])
    requires !envs[0].needResched
    ensures var next := Iteration(s, envs[0], hook);
            && (next.dead ==> RunInner(s, envs, hook) == next)
            && (!next.dead ==>
                  && Ends(envs[1..]) && (forall i :: 0 <= i < |envs[1..]| ==> Fair(envs[1..][i]))
                  && RunInner(s, envs, hook) == RunInner(next, envs[1..], hook))
  {
    if !Iteration(s, envs[0], hook).dead {
      EndsTail(envs);
    }
  }

  /** One round of the outer loop (lines 104-154): the inner loop between tick stop and restart. */
  function Period(s: State, envs: seq<Env>, hook: Hook): State
    requires !s.dead && Ends(envs) && forall i :: 0 <= i < |envs| ==> Fair(envs[i])
  {
    var inner := RunInner(s.(trace := s.trace + [TickIdleEnter]), envs, hook);
    if inner.dead then inner
    else inner.(trace := inner.trace + [TickIdleExit, Schedule])
  }

  /** Lines 175-177 before cpu_idle_loop: polling set, the prepare hook, this CPU's counter zeroed. */
  function Startup(s: State): State {
    s.(polling := true, cpuPoll := 0, trace := s.trace + [Prepare])
  }

  /**
   * A live pass is bracketed by arch_cpu_idle_enter and arch_cpu_idle_exit, with exactly one of
   * cpu_idle_poll, arch_cpu_idle or neither in between; an offline pass ends in the dead hook.
   */
  lemma IterationShape(s: State, e: Env, hook: Hook)
    requires !s.dead && Fair(e)
    ensures var r := Iteration(s, e, hook);
            if e.offline then r.dead && r.trace == s.trace + [PlugOff, Dead]
            else
              && !r.dead
              && (|| r.trace == s.trace + [IdleEnter, Polled(SpinCount(e.spin, Forced(s))), IdleExit]
                  || r.trace == s.trace + [IdleEnter, ArchIdle, IdleExit]
                  || r.trace == s.trace + [IdleEnter, IdleExit])
  {
  }

  /** arch_cpu_idle runs exactly when the poll test fails and need-resched was not pending at the clear. */
  lemma ArchIdleExactly(s: State, e: Env, hook: Hook)
    requires !s.dead && Fair(e) && !e.offline
    ensures var r := Iteration(s, e, hook);
            r.trace == s.trace + [IdleEnter, ArchIdle, IdleExit]
            <==> !PollBranch(s.forcePoll, e.broadcastExpired, s.cpuPoll) && !e.reschedAtClear
  {
    var r := Iteration(s, e, hook);
    var n := |s.trace|;
    if PollBranch(s.forcePoll, e.broadcastExpired, s.cpuPoll) {
      assert r.trace[n + 1] == Polled(SpinCount(e.spin, Forced(s)));
    } else if e.reschedAtClear {
      assert |r.trace| == n + 2;
    }
  }

  /**
   * After a live pass interrupts are enabled, unless an architecture's arch_cpu_idle left them off,
   * and then that has been reported; polling is set again after a deep pass and kept after a poll.
   */
  lemma IterationLeavesIrqsOn(s: State, e: Env, hook: Hook)
    requires !s.dead && Fair(e) && !e.offline
    ensures var r := Iteration(s, e, hook);
            && (r.irqsOn || IrqsOffAfterIdle in r.warnings)
            && (!r.irqsOn ==> hook.ArchSpecific? && !hook.enablesIrqs)
            && r.polling == (s.polling || !PollBranch(s.forcePoll, e.broadcastExpired, s.cpuPoll))
            && s.warnings <= r.warnings && (Distinct(s.warnings) ==> Distinct(r.warnings))
  {
  }

  /** A pass that runs the weak arch_cpu_idle leaves the global counter at 1. */
  lemma WeakDefaultForcesPoll(s: State, e: Env)
    requires !s.dead && Fair(e) && !e.offline
    ensures var r := Iteration(s, e, WeakDefault);
            ArchIdle in r.trace[|s.trace|..] ==> r.forcePoll == 1
  {
    var r := Iteration(s, e, WeakDefault);
    IterationShape(s, e, WeakDefault);
    if ArchIdle in r.trace[|s.trace|..] {
      assert r.trace[|s.trace|..] == [IdleEnter, ArchIdle, IdleExit];
    }
  }

  /** A pass that starts with the global counter nonzero polls, and leaves the counter as it was. */
  lemma ForcedIterationPolls(s: State, e: Env, hook: Hook)
    requires !s.dead && Fair(e) && !e.offline && s.forcePoll != 0
    ensures var r := Iteration(s, e, hook);
            && r.forcePoll == s.forcePoll && r.cpuPoll == s.cpuPoll && !r.dead
            && r.trace == s.trace + [IdleEnter, Polled(SpinCount(e.spin, true)), IdleExit]
  {
  }

  /** No call of arch_cpu_idle in trace from position from on. */
  predicate NoArchIdleFrom(trace: seq<Event>, from: nat) {
    forall k :: from <= k < |trace| ==> trace[k] != ArchIdle
  }

  /** A pass with the global counter nonzero, seen by RunInner: it polls, and the loop goes on. */
  lemma ForcedStep(s: State, envs: seq<Env>, hook: Hook) returns (next: State)
    requires !s.dead && Ends(envs) && forall i :: 0 <= i < |envs| ==> Fair(envs[i])
    requires s.forcePoll != 0 && !envs[0].needResched && !envs[0].offline
    ensures next == Iteration(s, envs[0], hook)
    ensures && !next.dead && next.forcePoll == s.forcePoll
            && next.trace == s.trace + [IdleEnter, Polled(SpinCount(envs[0].spin, true)), IdleExit]
            && Ends(envs[1..]) && (forall i :: 0 <= i < |envs[1..]| ==> Fair(envs[1..][i]))
            && RunInner(s, envs, hook) == RunInner(next, envs[1..], hook)
  {
    next := Iteration(s, envs[0], hook);
    ForcedIterationPolls(s, envs[0], hook);
    RunInnerStep(s, envs, hook);
  }

  /** While the global counter is nonzero no pass of the inner loop changes it. */
  lemma {:induction false} ForcedKeepsCounter(s: State, envs: seq<Env>, hook: Hook)
    requires !s.dead && Ends(envs) && forall i :: 0 <= i < |envs| ==> Fair(envs[i])
    requires s.forcePoll != 0
    ensures RunInner(s, envs, hook).forcePoll == s.forcePoll
    decreases |envs|
  {
    if envs[0].needResched {
    } else if envs[0].offline {
      RunInnerStep(s, envs, hook);
    } else {
      var next := ForcedStep(s, envs, hook);
      ForcedKeepsCounter(next, envs[1..], hook);
    }
  }

  /**
   * While the global counter is nonzero the inner loop never calls arch_cpu_idle: so once the weak
   * arch_cpu_idle has run, every later pass of this CPU polls.
   */
  lemma {:induction false} ForcedNeverIdlesDeep(s: State, envs: seq<Env>, hook: Hook)
    requires !s.dead && Ends(envs) && forall i :: 0 <= i < |envs| ==> Fair(envs[i])
    requires s.forcePoll != 0
    ensures NoArchIdleFrom(RunInner(s, envs, hook).trace, |s.trace|)
    decreases |envs|
  {
    if envs[0].needResched {
    } else if envs[0].offline {
      RunInnerStep(s, envs, hook);
    } else {
      var next := ForcedStep(s, envs, hook);
      ForcedNeverIdlesDeep(next, envs[1..], hook);
      RunInnerEnds(next, envs[1..], hook);
      var r := RunInner(next, envs[1..], hook);
      var pass := [IdleEnter, Polled(SpinCount(envs[0].spin, true)), IdleExit];
      forall k | |s.trace| <= k < |r.trace|
        ensures r.trace[k] != ArchIdle
      {
        if k < |next.trace| {
          assert r.trace[k] == next.trace[k] == pass[k - |s.trace|];
        }
      }
    }
  }

  /**
   * The inner loop only adds to the trace, and when it ends with the CPU dead the last events are
   * the plug-off flag and the dead hook.
   */
  lemma {:induction false} RunInnerEnds(s: State, envs: seq<Env>, hook: Hook)
    requires !s.dead && Ends(envs) && forall i :: 0 <= i < |envs| ==> Fair(envs[i])
    ensures var r := RunInner(s, envs, hook);
            && s.trace <= r.trace
            && (r.dead ==> |r.trace| >= |s.trace| + 2 && r.trace[|r.trace| - 2..] == [PlugOff, Dead])
    decreases |envs|
  {
    var r := RunInner(s, envs, hook);
    if envs[0].needResched {
      assert r == s;
    } else {
      var next := Iteration(s, envs[0], hook);
      IterationShape(s, envs[0], hook);
      RunInnerStep(s, envs, hook);
      if !next.dead {
        RunInnerEnds(next, envs[1..], hook);
      }
    }
  }

  /**
   * A round of the outer loop stops the tick first; unless the CPU died in it, it then restarts the
   * tick and only after that calls into the scheduler.
   */
  lemma PeriodShape(s: State, envs: seq<Env>, hook: Hook)
    requires !s.dead && Ends(envs) && forall i :: 0 <= i < |envs| ==> Fair(envs[i])
    ensures var r := Period(s, envs, hook);
            && s.trace + [TickIdleEnter] <= r.trace
            && (r.dead ==> |r.trace| >= 2 && r.trace[|r.trace| - 2..] == [PlugOff, Dead])
            && (!r.dead ==> r.trace[|r.trace| - 2..] == [TickIdleExit, Schedule])
  {
    RunInnerEnds(s.(trace := s.trace + [TickIdleEnter]), envs, hook);
  }

  /** One CPU running the loop, sharing the poll controller with the others. */
  class IdleCpu {
    /** smp_processor_id() */
    const cpu: nat
    const ctrl: PollControl
    const hook: Hook
    var irqsOn: bool
    var polling: bool
    var dead: bool
    var trace: seq<Event>

    ghost predicate Valid()
      reads this, ctrl
    {
      cpu < |ctrl.perCpu| && ctrl.Valid()
    }

    /** This CPU and the controller, as the specification functions see them. */
    function Snapshot(): State
      reads this, ctrl
      requires cpu < |ctrl.perCpu|
    {
      State(ctrl.forcePoll, ctrl.perCpu[cpu], irqsOn, polling, dead, trace, ctrl.warnings)
    }

    /** A CPU brought up with interrupts off and nothing run yet. */
    constructor (cpu: nat, ctrl: PollControl, hook: Hook)
      requires cpu < |ctrl.perCpu|
      ensures this.cpu == cpu && this.ctrl == ctrl && this.hook == hook
      ensures !irqsOn && !polling && !dead && trace == []
    {
      this.cpu, this.ctrl, this.hook := cpu, ctrl, hook;
      irqsOn, polling, dead, trace := false, false, false, [];
    }

    /** The spin of cpu_idle_poll (lines 72-74), over what the need-resched tests see. */
    method Spin(spin: seq<bool>, forced: bool) returns (n: nat)
      requires |spin| > 0 && (forced ==> exists i :: 0 <= i < |spin| && spin[i])
      ensures n < |spin| && (forall k :: 0 <= k < n ==> !spin[k]) && (spin[n] || !forced)
      ensures n == SpinCount(spin, forced)
    {
      n := 0;
      while !spin[n] && forced
        invariant n < |spin| && forall k :: 0 <= k < n ==> !spin[k]
        invariant SpinCount(spin, forced) == n + SpinCount(spin[n..], forced)
        decreases |spin| - n
      {
        var i :| 0 <= i < |spin| && spin[i];
        assert spin[n + 1..] == spin[n..][1..];
        assert spin[n..][i - n] == spin[i];
        n := n + 1;
      }
    }

    /** cpu_idle_poll (lines 67-78): interrupts on, spin while polling is forced, return 1. */
    method CpuIdlePoll(spin: seq<bool>) returns (r: int)
      requires Valid()
      requires |spin| > 0 && (Forced(Snapshot()) ==> exists i :: 0 <= i < |spin| && spin[i])
      modifies this`irqsOn, this`trace
      ensures r == 1 && irqsOn
      ensures trace == old(trace) + [Polled(SpinCount(spin, Forced(Snapshot())))]
    {
      irqsOn := true;
      var n := Spin(spin, ctrl.forcePoll != 0 || ctrl.perCpu[cpu] != 0);
      trace := trace + [Polled(n)];
      return 1;
    }

    /** arch_cpu_idle (lines 85-89 for the weak default). */
    method ArchCpuIdle()
      requires Valid()
      modifies this`irqsOn, this`trace, ctrl`forcePoll
      ensures Valid()
      ensures Snapshot() == ArchIdleEffect(old(Snapshot()).(trace := old(trace) + [ArchIdle]), hook)
    {
      trace := trace + [ArchIdle];
      match hook
      case WeakDefault =>
        ctrl.forcePoll := 1;
        irqsOn := true;
      case ArchSpecific(on) =>
        irqsOn := on;
    }

    /** One pass of the inner loop body (lines 107-151). */
    method InnerIteration(e: Env)
      requires Valid() && !dead && Fair(e)
      modifies this`irqsOn, this`polling, this`dead, this`trace, ctrl`forcePoll, ctrl`warnings
      ensures Valid()
      ensures Snapshot() == Iteration(old(Snapshot()), e, hook)
    {
      if e.offline {
        trace := trace + [PlugOff, Dead];
        dead := true;
        return;
      }
      irqsOn := false;
      trace := trace + [IdleEnter];
      if PollBranch(ctrl.forcePoll, e.broadcastExpired, ctrl.perCpu[cpu]) {
        var _ := CpuIdlePoll(e.spin);
      } else {
        polling := false;
        if !e.reschedAtClear {
          ArchCpuIdle();
          ctrl.warnings := Warn(ctrl.warnings, IrqsOffAfterIdle, !irqsOn);
        } else {
          irqsOn := true;
        }
        polling := true;
      }
      trace := trace + [IdleExit];
    }

    /** One round of the outer loop of cpu_idle_loop (lines 104-154). */
    method IdlePeriod(envs: seq<Env>)
      requires Valid() && !dead
      requires Ends(envs) && forall i :: 0 <= i < |envs| ==> Fair(envs[i])
      modifies this`irqsOn, this`polling, this`dead, this`trace, ctrl`forcePoll, ctrl`warnings
      ensures Valid()
      ensures Snapshot() == Period(old(Snapshot()), envs, hook)
    {
      ghost var start := Snapshot();
      trace := trace + [TickIdleEnter];
      ghost var entered := Snapshot();
      var i := 0;
      while !envs[i].needResched
        invariant Valid() && !dead && i < |envs| && Ends(envs[i..])
        invariant forall k :: 0 <= k < |envs[i..]| ==> Fair(envs[i..][k])
        invariant RunInner(Snapshot(), envs[i..], hook) == RunInner(entered, envs, hook)
        decreases |envs| - i
      {
        ghost var before := Snapshot();
        InnerIteration(envs[i]);
        RunInnerStep(before, envs[i..], hook);
        if dead {
          return;
        }
        assert envs[i + 1..] == envs[i..][1..];
        i := i + 1;
      }
      trace := trace + [TickIdleExit, Schedule];
    }

    /**
     * cpu_startup_entry (lines 158-179) through the first round of cpu_idle_loop; only this CPU's
     * counter is zeroed.
     */
    method CpuStartupEntry(envs: seq<Env>)
      requires Valid() && !dead
      requires Ends(envs) && forall i :: 0 <= i < |envs| ==> Fair(envs[i])
      modifies this`irqsOn, this`polling, this`dead, this`trace, ctrl`forcePoll, ctrl`warnings, ctrl`perCpu
      ensures Valid()
      ensures |ctrl.perCpu| == |old(ctrl.perCpu)|
      ensures forall c :: 0 <= c < |ctrl.perCpu| && c != cpu ==> ctrl.perCpu[c] == old(ctrl.perCpu[c])
      ensures Snapshot() == Period(Startup(old(Snapshot())), envs, hook)
    {
      polling := true;
      trace := trace + [Prepare];
      ctrl.perCpu := ctrl.perCpu[cpu := 0];
      IdlePeriod(envs);
    }
  }
}
