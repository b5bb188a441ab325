/**
 * The idle poll controller of kernel/sched/idle.c: the process-wide counter cpu_idle_force_poll, the
 * per-CPU counters idle_force_poll, the "nohlt"/"hlt" boot options that set the global one, and the
 * WARN_ON_ONCE reports the code emits.
 */
module IdlePoll {
  /** The WARN_ON_ONCE call sites of idle.c; each has its own once-only flag. */
  datatype Site =
    | ForcePollUnderflow   // line 26
    | CpuPollUnderflow     // line 41
    | IrqsOffAfterIdle     // line 140

  predicate Distinct(log: seq<Site>) {
    forall i, j :: 0 <= i < j < |log| ==> log[i] != log[j]
  }

  /**
   * WARN_ON_ONCE(cond) at site, given the reports emitted so far: the first time cond holds at a
   * site the site is reported, and never again after that.
   */
  function Warn(log: seq<Site>, site: Site, cond: bool): (r: seq<Site>)
    ensures log <= r
    ensures forall x :: x in r <==> x in log || (cond && x == site)
    ensures site in log ==> r == log
    ensures Distinct(log) ==> Distinct(r)
  {
    if cond && site !in log then log + [site] else log
  }

  /**
   * The poll branch test of cpu_idle_loop (lines 131-133): a nonzero counter, global or of this CPU,
   * or an expired broadcast device. The test is "nonzero", so a counter that went negative polls too.
   */
  function PollBranch(forcePoll: int, broadcastExpired: bool, cpuPoll: int): (b: bool)
    ensures forcePoll < 0 || cpuPoll < 0 ==> b
    ensures forcePoll > 0 || cpuPoll > 0 || broadcastExpired ==> b
    ensures !b ==> forcePoll == 0 && cpuPoll == 0 && !broadcastExpired
  {
    forcePoll != 0 || broadcastExpired || cpuPoll != 0
  }

  class PollControl {
    /** cpu_idle_force_poll */
    var forcePoll: int
    /** per_cpu(idle_force_poll, cpu), one entry per possible CPU */
    var perCpu: seq<int>
    /** The WARN_ON_ONCE reports emitted so far, in order. */
    var warnings: seq<Site>

    /** No site is reported twice. */
    ghost predicate Valid()
      reads this
    {
      Distinct(warnings)
    }

    /** The counters as the kernel starts with them (static storage is zero), for ncpus CPUs. */
    constructor (ncpus: nat)
      ensures Valid()
      ensures forcePoll == 0 && |perCpu| == ncpus && warnings == []
      ensures forall c :: 0 <= c < ncpus ==> perCpu[c] == 0
    {
      forcePoll := 0;
      perCpu := seq(ncpus, _ => 0);
      warnings := [];
    }

    /**
     * cpu_idle_poll_ctrl (lines 20-31): one more or one fewer holder of forced polling. The
     * decrement is not clamped; a counter below zero is reported once.
     */
    method CpuIdlePollCtrl(enable: bool)
      requires Valid()
      modifies this`forcePoll, this`warnings
      ensures Valid()
      ensures forcePoll == old(forcePoll) + (if enable then 1 else -1)
      ensures warnings == Warn(old(warnings), ForcePollUnderflow, !enable && forcePoll < 0)
    {
      if enable {
        forcePoll := forcePoll + 1;
      } else {
        forcePoll := forcePoll - 1;
        warnings := Warn(warnings, ForcePollUnderflow, forcePoll < 0);
      }
    }

    /**
     * per_cpu_idle_poll_ctrl (lines 35-49): the same for the counter of one CPU; the global counter
     * and every other CPU's counter stay as they are.
     */
    method PerCpuIdlePollCtrl(cpu: nat, enable: bool)
      requires Valid() && cpu < |perCpu|
      modifies this`perCpu, this`warnings
      ensures Valid()
      ensures |perCpu| == |old(perCpu)|
      ensures perCpu[cpu] == old(perCpu[cpu]) + (if enable then 1 else -1)
      ensures forall c :: 0 <= c < |perCpu| && c != cpu ==> perCpu[c] == old(perCpu[c])
      ensures warnings == Warn(old(warnings), CpuPollUnderflow, !enable && perCpu[cpu] < 0)
    {
      if enable {
        perCpu := perCpu[cpu := perCpu[cpu] + 1];
      } else {
        perCpu := perCpu[cpu := perCpu[cpu] - 1];
        warnings := Warn(warnings, CpuPollUnderflow, perCpu[cpu] < 0);
      }
    }

    /** cpu_idle_poll_setup, the "nohlt" option (lines 52-56): polling forced, option consumed. */
    method PollSetup() returns (r: int)
      modifies this`forcePoll
      ensures forcePoll == 1 && r == 1
    {
      forcePoll := 1;
      return 1;
    }

    /** cpu_idle_nopoll_setup, the "hlt" option (lines 59-63): polling no longer forced, option consumed. */
    method NopollSetup() returns (r: int)
      modifies this`forcePoll
      ensures forcePoll == 0 && r == 1
    {
      forcePoll := 0;
      return 1;
    }
  }
}
