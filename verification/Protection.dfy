/** What the two modes do for a program: the parts put together. */
module Protection {
  import opened Detection
  import opened InternalSS
  import opened Protocol
  import opened Server
  import opened ShadowStack
  import opened Target

  /** Internal mode: however the threads' reports interleave, the group is killed
      iff some thread does a bad return, and until then every thread's stack mirrors
      the return slots of that thread. */
  lemma InternalModeProtects(trace: seq<Tagged>, programs: ThreadId -> seq<Leg>)
    requires forall t: ThreadId :: Project(trace, t) == Emitted(programs(t))
    ensures SystemAfter(trace).Up? <==> forall t: ThreadId :: Clean(BOOT, Actions(programs(t)))
    ensures SystemAfter(trace).Up? ==>
              forall t: ThreadId :: StackOf(SystemAfter(trace).stacks, t) == Mirror(Reached(programs(t)).live)
  {
    ThreadIsolation(trace);
    forall t: ThreadId
      ensures After(Project(trace, t)).Alive? <==> Clean(BOOT, Actions(programs(t)))
      ensures Clean(BOOT, Actions(programs(t))) ==> After(Project(trace, t)) == Alive(Mirror(Reached(programs(t)).live))
    {
      KilledIffBadReturn(programs(t));
    }
    if forall t: ThreadId :: Clean(BOOT, Actions(programs(t))) {
      assert forall t: ThreadId :: After(Project(trace, t)).Alive?;
    }
  }

  /** External mode: at every moment of every interleaving, a program that runs has
      done no bad return, and the server's stack, brought up to date with what is on
      its way, mirrors the program's return slots. When the group is dead, it was
      for a mismatch iff the program did a bad return. */
  lemma ExternalModeProtects(c: Config, legs: seq<Leg>)
    requires Reachable(c) && Emitted(legs) == if c.Live? then c.net.issued else c.issued
    ensures c.Live? && c.net.phase == Running ==>
              && Clean(BOOT, Actions(legs))
              && c.net.served <= |c.net.issued|
              && Run(Alive(c.net.stack), Pending(c.net)) == Alive(Mirror(Reached(legs).live))
    ensures c.Dead? ==> (c.cause == ServerStopped(Mismatch) <==> !Clean(BOOT, Actions(legs)))
  {
    KilledIffBadReturn(legs);
    InvReachable(c);
    match c
    case Live(s) =>
      SplitIssued(s);
      if s.phase == Running {
        RunningIsAccepted(s);
      }
    case Dead(cause, issued, served) =>
      ExternalRefinesInternal(c, 0);
      SingleThread(0, issued);
  }
}
