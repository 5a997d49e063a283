/** The in-process shadow stack: one stack a thread, created when first asked for. */
module InternalSS {
  import opened PointerStacks
  import opened ShadowStack
  import opened Words

  type ThreadId = nat

  /** The process group, as the threads' stacks or gone. */
  datatype System = Up(stacks: map<ThreadId, seq<Word>>) | Down

  datatype Tagged = Tagged(thread: ThreadId, event: Event)

  function StackOf(stacks: map<ThreadId, seq<Word>>, t: ThreadId): seq<Word> {
    if t in stacks then stacks[t] else []
  }

  function SystemStep(s: System, t: ThreadId, e: Event): System {
    if s.Down? then Down
    else
      match Step(Alive(StackOf(s.stacks, t)), e)
      case Alive(stack) => Up(s.stacks[t := stack])
      case Killed => Down
  }

  /** The system after an interleaving of the threads' events. */
  function SystemAfter(trace: seq<Tagged>): System {
    if trace == [] then Up(map[])
    else
      var last := trace[|trace| - 1];
      SystemStep(SystemAfter(trace[..|trace| - 1]), last.thread, last.event)
  }

  /** A thread's own events. */
  function Project(trace: seq<Tagged>, t: ThreadId): seq<Event> {
    if trace == [] then []
    else
      var last := trace[|trace| - 1];
      Project(trace[..|trace| - 1], t) + if last.thread == t then [last.event] else []
  }

  /** Thread isolation: whatever the interleaving, the group is killed iff some
      thread's own events are rejected on their own, and until then every thread
      has the stack its own events alone would give it. */
  lemma {:induction false} ThreadIsolation(trace: seq<Tagged>)
    ensures SystemAfter(trace).Down? <==> exists t: ThreadId :: After(Project(trace, t)).Killed?
    ensures SystemAfter(trace).Up? ==>
              forall t: ThreadId :: After(Project(trace, t)) == Alive(StackOf(SystemAfter(trace).stacks, t))
  {
    if trace == [] {
    } else {
      var before, last := trace[..|trace| - 1], trace[|trace| - 1];
      ThreadIsolation(before);
      assert trace == before + [last];
      forall t: ThreadId
        ensures After(Project(trace, t))
                == if t == last.thread then Step(After(Project(before, t)), last.event) else After(Project(before, t))
      {
        ProjectLast(before, last, t);
      }
      assert After(Project(trace, last.thread)) == Step(After(Project(before, last.thread)), last.event);
      if SystemAfter(before).Down? {
        var t: ThreadId :| After(Project(before, t)).Killed?;
        assert After(Project(trace, t)).Killed?;
      }
    }
  }

  lemma ProjectLast(before: seq<Tagged>, last: Tagged, t: ThreadId)
    ensures After(Project(before + [last], t))
            == if t == last.thread then Step(After(Project(before, t)), last.event) else After(Project(before, t))
  {
    assert (before + [last])[..|before|] == before;
    if t == last.thread {
      RunSnoc(INITIAL, Project(before, t), last.event);
    } else {
      assert Project(before + [last], t) == Project(before, t);
    }
  }

  function TagAll(t: ThreadId, es: seq<Event>): (trace: seq<Tagged>)
    ensures |trace| == |es|
  {
    seq(|es|, i requires 0 <= i < |es| => Tagged(t, es[i]))
  }

  lemma {:induction false} ProjectTagAll(t: ThreadId, u: ThreadId, es: seq<Event>)
    ensures Project(TagAll(t, es), u) == if t == u then es else []
  {
    if es == [] {
    } else {
      var n := |es| - 1;
      ProjectTagAll(t, u, es[..n]);
      assert TagAll(t, es)[..n] == TagAll(t, es[..n]);
      assert TagAll(t, es)[n] == Tagged(t, es[n]);
      assert es == es[..n] + [es[n]];
    }
  }

  /** A target with one thread is the plain machine. */
  lemma SingleThread(t: ThreadId, es: seq<Event>)
    ensures SystemAfter(TagAll(t, es)).Down? <==> After(es).Killed?
    ensures After(es).Alive? ==> After(es).stack == StackOf(SystemAfter(TagAll(t, es)).stacks, t)
  {
    ThreadIsolation(TagAll(t, es));
    forall u: ThreadId
      ensures Project(TagAll(t, es), u) == if t == u then es else []
    {
      ProjectTagAll(t, u, es);
    }
    assert Project(TagAll(t, es), t) == es;
  }

  /** The number of the execve system call on x86-64 and on x86. */
  const SYS_EXECVE: nat := if POINTER_SIZE == 8 then 59 else 11

  class InternalMode {
    var tls: map<ThreadId, PointerStack>
    var killed: bool

    /** No two threads share a stack. */
    ghost predicate Valid()
      reads this
    {
      forall t, u | t in tls && u in tls && t != u :: tls[t] != tls[u]
    }

    ghost function View(): System
      reads this, tls.Values
    {
      if killed then Down else Up(map t | t in tls :: tls[t].items)
    }

    constructor ()
      ensures Valid() && View() == Up(map[]) && tls == map[]
    {
      tls := map[];
      killed := false;
    }

    method Get(t: ThreadId) returns (stack: PointerStack)
      requires Valid()
      modifies this`tls
      ensures Valid() && t in tls && tls[t] == stack
      ensures t in old(tls) ==> tls == old(tls)
      ensures t !in old(tls) ==> fresh(stack) && stack.items == [] && tls == old(tls)[t := stack]
    {
      if t in tls {
        return tls[t];
      }
      stack := new PointerStack();
      tls := tls[t := stack];
    }

    twostate lemma OneStackChanged(t: ThreadId)
      requires !old(killed) && !killed && t in tls
      requires tls.Keys == old(tls).Keys + {t}
      requires forall u | u in old(tls) && u != t :: tls[u] == old(tls[u]) && tls[u].items == old(tls[u].items)
      ensures View() == Up(old(View()).stacks[t := tls[t].items])
    {
    }

    method OnCall(t: ThreadId, returnTo: Word)
      requires Valid() && !killed
      modifies this, tls.Values
      ensures Valid() && fresh(tls.Values - old(tls.Values))
      ensures View() == SystemStep(old(View()), t, Call(returnTo))
    {
      var stack := Get(t);
      stack.Push(returnTo);
      OneStackChanged(t);
    }

    method OnSignal(t: ThreadId)
      requires Valid() && !killed
      modifies this, tls.Values
      ensures Valid() && fresh(tls.Values - old(tls.Values))
      ensures View() == SystemStep(old(View()), t, Signal)
    {
      var stack := Get(t);
      stack.Push(WILDCARD);
      OneStackChanged(t);
    }

    method OnRet(t: ThreadId, target: Word)
      requires Valid() && !killed
      modifies this, tls.Values
      ensures Valid() && fresh(tls.Values - old(tls.Values))
      ensures View() == SystemStep(old(View()), t, Ret(target))
    {
      var stack := Get(t);
      if stack.Empty() {
        killed := true;
        return;
      }
      var top := stack.Top();
      if top == target {
        stack.Pop();
        OneStackChanged(t);
      } else if top == WILDCARD {
        stack.Pop();
        OneStackChanged(t);
      } else {
        killed := true;
      }
    }

    method OnExecve(t: ThreadId)
      requires Valid() && !killed
      modifies this, tls.Values
      ensures Valid() && fresh(tls.Values - old(tls.Values))
      ensures View() == SystemStep(old(View()), t, Execve)
    {
      var stack := Get(t);
      while !stack.Empty()
        modifies stack
        decreases |stack.items|
      {
        stack.Pop();
      }
      OneStackChanged(t);
    }

    /** The filter lets only execve through. The same handler runs before the
        call and, should the call come back, after it. */
    method SyscallEvent(t: ThreadId, sysnum: nat)
      requires Valid() && !killed
      modifies this, tls.Values
      ensures Valid() && fresh(tls.Values - old(tls.Values))
      ensures View() == if sysnum == (if POINTER_SIZE == 8 then 59 else 11)
                        then SystemStep(old(View()), t, Execve) else old(View())
    {
      if sysnum == SYS_EXECVE {
        OnExecve(t);
      }
    }
  }
}
