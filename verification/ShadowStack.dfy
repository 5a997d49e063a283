/** The shadow stack as an abstract machine. Both modes are proved against it. */
module ShadowStack {
  import opened Words

  /** What the instrumented target reports. */
  datatype Event = Call(returnTo: Word) | Ret(target: Word) | Signal | Execve

  /** The top of the stack is its last element. Killed is absorbing: the process
      group is gone. */
  datatype State = Alive(stack: seq<Word>) | Killed

  const INITIAL := Alive([])

  predicate IsPush(e: Event) {
    e.Call? || e.Signal?
  }

  function Pushed(e: Event): Word
    requires IsPush(e)
  {
    if e.Call? then e.returnTo else WILDCARD
  }

  /** Whether a return to target may pop the word top. */
  predicate Permits(top: Word, target: Word) {
    top == WILDCARD || top == target
  }

  function Step(s: State, e: Event): State {
    if s.Killed? then Killed
    else match e
      case Call(_) | Signal => Alive(s.stack + [Pushed(e)])
      case Execve => Alive([])
      case Ret(target) =>
        var n := |s.stack|;
        if n > 0 && Permits(s.stack[n - 1], target) then Alive(s.stack[..n - 1]) else Killed
  }

  function Run(s: State, es: seq<Event>): State
    decreases |es|
  {
    if es == [] then s else Run(Step(s, es[0]), es[1..])
  }

  /** The machine that holds the stack of a run. */
  function After(es: seq<Event>): State {
    Run(INITIAL, es)
  }

  lemma {:induction false} RunAppend(s: State, es: seq<Event>, fs: seq<Event>)
    ensures Run(s, es + fs) == Run(Run(s, es), fs)
    decreases |es|
  {
    if es == [] {
      assert es + fs == fs;
    } else {
      assert (es + fs)[1..] == es[1..] + fs;
      RunAppend(Step(s, es[0]), es[1..], fs);
    }
  }

  lemma RunSnoc(s: State, es: seq<Event>, e: Event)
    ensures Run(s, es + [e]) == Step(Run(s, es), e)
  {
    RunAppend(s, es, [e]);
    assert Run(Run(s, es), [e]) == Run(Step(Run(s, es), e), []);
  }

  lemma {:induction false} KilledStays(es: seq<Event>)
    ensures Run(Killed, es) == Killed
  {
    if es == [] {
    } else {
      KilledStays(es[1..]);
    }
  }

  /** Only a return can kill. */
  lemma {:induction false} NoReturnNoKill(s: State, es: seq<Event>)
    requires s.Alive? && forall i | 0 <= i < |es| :: !es[i].Ret?
    ensures Run(s, es).Alive?
    decreases |es|
  {
    if es == [] {
    } else {
      NoReturnNoKill(Step(s, es[0]), es[1..]);
    }
  }

  /** Execve is a barrier: whatever came before it, and however often it is
      reported in a row, what follows is judged from an empty stack. */
  lemma ExecveBarrier(before: seq<Event>, after: seq<Event>)
    requires After(before).Alive?
    ensures After(before + [Execve] + after) == After(after)
    ensures After(before + [Execve, Execve] + after) == After(after)
  {
    RunSnoc(INITIAL, before, Execve);
    RunSnoc(INITIAL, before + [Execve], Execve);
    assert before + [Execve, Execve] == before + [Execve] + [Execve];
    RunAppend(INITIAL, before + [Execve], after);
    RunAppend(INITIAL, before + [Execve, Execve], after);
  }
}
