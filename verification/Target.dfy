/** The protected program as a small abstract machine, running its instrumented
    basic blocks. */
module Target {
  import opened Instrumentation
  import opened ShadowStack
  import opened Words

  /** Where a return finds its target. A call's slot remembers the address the
      call put there; a signal's frame returns to wherever it says. */
  datatype Slot = CallSlot(saved: Word, current: Word) | SignalSlot(current: Word)

  /** The return slots on the program's own stack, the last one on top. The lost
      ones are those that were there when an execve failed. */
  datatype Machine = Machine(lost: seq<Slot>, live: seq<Slot>)

  const BOOT := Machine([], [])

  datatype Transfer = SignalDelivery | OtherTransfer

  /** Anything the program and the kernel may do. A return with no slot left reads
      its target from memory: stray. An overwrite is a write to a return slot. */
  datatype Action =
    | Exec(instr: Instr, stray: Word)
    | Kernel(transfer: Transfer, frame: Word)
    | OverwriteLive(at: nat, value: Word)
    | OverwriteLost(at: nat, value: Word)
    | CallExecve(succeeds: bool)

  function Overwritten(slots: seq<Slot>, at: nat, value: Word): seq<Slot> {
    if at < |slots| then slots[at := slots[at].(current := value)] else slots
  }

  /** The target a return finds. */
  function Found(m: Machine, stray: Word): Word {
    var slots := m.lost + m.live;
    if slots == [] then stray else slots[|slots| - 1].current
  }

  function Act(m: Machine, a: Action): Machine {
    match a
    case Exec(i, _) =>
      (match i.kind
       case CallInstr => m.(live := m.live + [CallSlot(NextPc(i), NextPc(i))])
       case ReturnInstr =>
         if m.live != [] then m.(live := m.live[..|m.live| - 1])
         else if m.lost != [] then m.(lost := m.lost[..|m.lost| - 1])
         else m
       case OtherInstr => m)
    case Kernel(SignalDelivery, frame) => m.(live := m.live + [SignalSlot(frame)])
    case Kernel(OtherTransfer, _) => m
    case OverwriteLive(at, value) => m.(live := Overwritten(m.live, at, value))
    case OverwriteLost(at, value) => m.(lost := Overwritten(m.lost, at, value))
    case CallExecve(succeeds) => if succeeds then BOOT else Machine(m.lost + m.live, [])
  }

  /** What lies in the program's memory: the targets the returns to come will find,
      whatever the shadow stack makes of them. */
  function Memory(m: Machine): (targets: seq<Word>)
    ensures |targets| == |m.lost| + |m.live|
  {
    var slots := m.lost + m.live;
    seq(|slots|, k requires 0 <= k < |slots| => slots[k].current)
  }

  /** What instructions do to it: a call puts the address that is the call's length
      past it on top, and a return takes what is on top. */
  lemma ExecOnMemory(m: Machine, i: Instr, stray: Word)
    ensures var before, after := Memory(m), Memory(Act(m, Exec(i, stray)));
            match i.kind
            case CallInstr =>
              exists w: Word :: after == before + [w] && (w + WORD_LIMIT - i.pc) % WORD_LIMIT == i.length
            case ReturnInstr =>
              && after == (if before == [] then [] else before[..|before| - 1])
              && Found(m, stray) == (if before == [] then stray else before[|before| - 1])
            case OtherInstr => after == before
  {
    NextPcIsPast(i);
    if i.kind == CallInstr {
      assert Memory(Act(m, Exec(i, stray))) == Memory(m) + [NextPc(i)];
    }
  }

  /** And what everything else does: an overwrite changes the one slot it hits, and
      an execve that fails changes nothing. */
  lemma AsideOnMemory(m: Machine, a: Aside)
    ensures var before, after := Memory(m), Memory(Act(m, a));
            match a
            case Kernel(SignalDelivery, frame) => after == before + [frame]
            case Kernel(OtherTransfer, _) => after == before
            case OverwriteLive(at, value) =>
              after == if at < |m.live| then before[|m.lost| + at := value] else before
            case OverwriteLost(at, value) =>
              after == if at < |m.lost| then before[at := value] else before
            case CallExecve(succeeds) => after == if succeeds then [] else before
  {
  }

  /** An action that is not an instruction of a block. */
  type Aside = a: Action | !a.Exec? witness CallExecve(true)

  /** What the callbacks that are not part of a block report: a delivered signal, and
      an execve, before the call and again after it if it comes back. */
  function Noticed(a: Aside): seq<Event> {
    match a
    case Kernel(SignalDelivery, _) => [Signal]
    case Kernel(OtherTransfer, _) => []
    case OverwriteLive(_, _) => []
    case OverwriteLost(_, _) => []
    case CallExecve(succeeds) => if succeeds then [Execve] else [Execve, Execve]
  }

  // ----- The program on its own -----

  /** What should be reported just before an action. */
  function Due(m: Machine, a: Action): seq<Event> {
    match a
    case Exec(i, stray) =>
      (match i.kind
       case CallInstr => [Call(NextPc(i))]
       case ReturnInstr => [Ret(Found(m, stray))]
       case OtherInstr => [])
    case _ => Noticed(a)
  }

  function Final(m: Machine, actions: seq<Action>): Machine {
    if actions == [] then m else Act(Final(m, actions[..|actions| - 1]), actions[|actions| - 1])
  }

  function Trace(m: Machine, actions: seq<Action>): seq<Event> {
    if actions == [] then []
    else
      var n := |actions| - 1;
      Trace(m, actions[..n]) + Due(Final(m, actions[..n]), actions[n])
  }

  lemma Snoc(m: Machine, actions: seq<Action>, a: Action)
    ensures Final(m, actions + [a]) == Act(Final(m, actions), a)
    ensures Trace(m, actions + [a]) == Trace(m, actions) + Due(Final(m, actions), a)
  {
    assert (actions + [a])[..|actions|] == actions;
  }

  lemma SplitLast(actions: seq<Action>, more: seq<Action>)
    requires more != []
    ensures var n := |more| - 1;
            more == more[..n] + [more[n]] && actions + more == actions + more[..n] + [more[n]]
  {
  }

  lemma {:induction false} FinalAppend(m: Machine, actions: seq<Action>, more: seq<Action>)
    ensures Final(m, actions + more) == Final(Final(m, actions), more)
  {
    if more == [] {
      assert actions + more == actions;
    } else {
      var init, last := more[..|more| - 1], more[|more| - 1];
      FinalAppend(m, actions, init);
      Snoc(m, actions + init, last);
      Snoc(Final(m, actions), init, last);
      SplitLast(actions, more);
    }
  }

  lemma Regroup(a: seq<Event>, b: seq<Event>, c: seq<Event>)
    ensures a + b + c == a + (b + c)
  {
  }

  lemma {:induction false} TraceAppend(m: Machine, actions: seq<Action>, more: seq<Action>)
    ensures Trace(m, actions + more) == Trace(m, actions) + Trace(Final(m, actions), more)
  {
    if more == [] {
      assert actions + more == actions;
    } else {
      var init, last := more[..|more| - 1], more[|more| - 1];
      var m' := Final(m, actions);
      TraceAppend(m, actions, init);
      FinalAppend(m, actions, init);
      Snoc(m, actions + init, last);
      Snoc(m', init, last);
      SplitLast(actions, more);
      Regroup(Trace(m, actions), Trace(m', init), Due(Final(m', init), last));
    }
  }

  // ----- The program under instrumentation -----

  /** What happens before an instruction of a block and its handlers, and the target
      a return would find in memory if no slot were left. */
  datatype Moment = Moment(before: seq<Aside>, stray: Word)

  function MomentAt(moments: seq<Moment>, k: nat): Moment {
    if k < |moments| then moments[k] else Moment([], 0)
  }

  function RunAsides(m: Machine, asides: seq<Aside>): (Machine, seq<Event>) {
    if asides == [] then (m, [])
    else
      var n := |asides| - 1;
      var (m', es) := RunAsides(m, asides[..n]);
      (Act(m', asides[n]), es + Noticed(asides[n]))
  }

  /** Running the items of a block. The reports are made by the handlers among the
      items. What else happens does so before the first item after an instruction:
      handlers and the instruction they precede are not interrupted. */
  function RunItems(m: Machine, items: seq<Item>, moments: seq<Moment>): (Machine, seq<Event>) {
    if items == [] then (m, [])
    else
      var n := |items| - 1;
      var moment := MomentAt(moments, |Erase(items[..n])|);
      var (m0, es0) := RunItems(m, items[..n], moments);
      var (m1, es1) := if n == 0 || items[n - 1].App? then RunAsides(m0, moment.before) else (m0, []);
      match items[n]
      case App(i) => (Act(m1, Exec(i, moment.stray)), es0 + es1)
      case OnCall(returnTo) => (m1, es0 + es1 + [Call(returnTo)])
      case OnRet => (m1, es0 + es1 + [Ret(Found(m1, moment.stray))])
  }

  /** A run of the program: instrumented blocks, and what happens between them. */
  datatype Leg = Block(block: seq<Instr>, moments: seq<Moment>) | Between(aside: Aside)

  function RunLegs(m: Machine, legs: seq<Leg>): (Machine, seq<Event>) {
    if legs == [] then (m, [])
    else
      var n := |legs| - 1;
      var (m', es) := RunLegs(m, legs[..n]);
      match legs[n]
      case Block(block, moments) =>
        var (m'', es') := RunItems(m', Instrument(block), moments);
        (m'', es + es')
      case Between(aside) => (Act(m', aside), es + Noticed(aside))
  }

  // ----- Instrumentation does what it should -----

  /** The block's own instructions woven with what happens before each of them. */
  function Woven(block: seq<Instr>, moments: seq<Moment>): seq<Action> {
    if block == [] then []
    else
      var n := |block| - 1;
      var before: seq<Action> := MomentAt(moments, n).before;
      Woven(block[..n], moments) + (before + [Exec(block[n], MomentAt(moments, n).stray)])
  }

  /** What the program does in a run, without the instrumentation. */
  function Actions(legs: seq<Leg>): seq<Action> {
    if legs == [] then []
    else
      var n := |legs| - 1;
      Actions(legs[..n]) + match legs[n]
                           case Block(block, moments) => Woven(block, moments)
                           case Between(aside) => [aside]
  }

  lemma {:induction false} RunAsidesIsTrace(m: Machine, asides: seq<Aside>)
    ensures RunAsides(m, asides) == (Final(m, asides), Trace(m, asides))
  {
    if asides == [] {
    } else {
      RunAsidesIsTrace(m, asides[..|asides| - 1]);
    }
  }

  lemma ItemSnoc(m: Machine, items: seq<Item>, item: Item, moments: seq<Moment>)
    ensures var moment := MomentAt(moments, |Erase(items)|);
            var (m0, es0) := RunItems(m, items, moments);
            var (m1, es1) := if items == [] || items[|items| - 1].App? then RunAsides(m0, moment.before) else (m0, []);
            RunItems(m, items + [item], moments)
            == match item
               case App(i) => (Act(m1, Exec(i, moment.stray)), es0 + es1)
               case OnCall(returnTo) => (m1, es0 + es1 + [Call(returnTo)])
               case OnRet => (m1, es0 + es1 + [Ret(Found(m1, moment.stray))])
  {
    assert (items + [item])[..|items|] == items;
  }

  lemma EraseHandler(handler: Item)
    requires !handler.App?
    ensures Erase([handler]) == []
  {
  }

  /** One instruction with its handlers. */
  lemma RunOne(m: Machine, items: seq<Item>, i: Instr, moments: seq<Moment>)
    requires items == [] || items[|items| - 1].App?
    ensures var (m0, es0) := RunItems(m, items, moments);
            var moment := MomentAt(moments, |Erase(items)|);
            var (m1, es1) := RunAsides(m0, moment.before);
            var exec := Exec(i, moment.stray);
            RunItems(m, items + Handlers(i) + [App(i)], moments) == (Act(m1, exec), es0 + es1 + Due(m1, exec))
  {
    var (m0, es0) := RunItems(m, items, moments);
    var (m1, es1) := RunAsides(m0, MomentAt(moments, |Erase(items)|).before);
    if i.kind == OtherInstr {
      assert items + Handlers(i) == items && es0 + es1 + [] == es0 + es1;
      ItemSnoc(m, items, App(i), moments);
    } else {
      var handler := Handlers(i)[0];
      EraseAppend(items, [handler]);
      EraseHandler(handler);
      assert Erase(items) + [] == Erase(items);
      ItemSnoc(m, items, handler, moments);
      ItemSnoc(m, items + [handler], App(i), moments);
      var es := es0 + es1 + Due(m1, Exec(i, MomentAt(moments, |Erase(items)|).stray));
      assert RunItems(m, items + [handler], moments) == (m1, es);
      assert es + [] == es;
    }
  }

  /** Running an instrumented block does to the machine what the block does, whatever
      happens between its instructions, and reports each call, and each return with
      its actual target, just before it happens. */
  lemma {:induction false} RunInstrumented(m: Machine, block: seq<Instr>, moments: seq<Moment>)
    ensures RunItems(m, Instrument(block), moments)
            == (Final(m, Woven(block, moments)), Trace(m, Woven(block, moments)))
  {
    if block == [] {
    } else {
      var n := |block| - 1;
      var items, actions := Instrument(block[..n]), Woven(block[..n], moments);
      var moment := MomentAt(moments, n);
      var before: seq<Action> := moment.before;
      var m0 := Final(m, actions);
      RunInstrumented(m, block[..n], moments);
      EraseInstrument(block[..n]);
      RunOne(m, items, block[n], moments);
      RunAsidesIsTrace(m0, moment.before);
      WovenOne(m, actions, before, Exec(block[n], moment.stray));
    }
  }

  lemma WovenOne(m: Machine, actions: seq<Action>, before: seq<Action>, exec: Action)
    ensures var m0 := Final(m, actions);
            var m1 := Final(m0, before);
            && Final(m, actions + (before + [exec])) == Act(m1, exec)
            && Trace(m, actions + (before + [exec])) == Trace(m, actions) + Trace(m0, before) + Due(m1, exec)
  {
    assert actions + (before + [exec]) == actions + before + [exec];
    FinalAppend(m, actions, before);
    TraceAppend(m, actions, before);
    Snoc(m, actions + before, exec);
  }

  /** What a run reports when something happens between two blocks. */
  lemma BetweenReports(m: Machine, legs: seq<Leg>, a: Aside)
    ensures RunLegs(m, legs + [Between(a)]).1
            == RunLegs(m, legs).1 + match a
                                    case Kernel(SignalDelivery, _) => [Signal]
                                    case CallExecve(true) => [Execve]
                                    case CallExecve(false) => [Execve, Execve]
                                    case _ => []
  {
    assert (legs + [Between(a)])[..|legs|] == legs;
  }

  /** The same for a whole run. */
  lemma {:induction false} RunLegsIsTrace(m: Machine, legs: seq<Leg>)
    ensures RunLegs(m, legs) == (Final(m, Actions(legs)), Trace(m, Actions(legs)))
  {
    if legs == [] {
    } else {
      var n := |legs| - 1;
      var actions := Actions(legs[..n]);
      RunLegsIsTrace(m, legs[..n]);
      match legs[n]
      case Block(block, moments) =>
        RunInstrumented(Final(m, actions), block, moments);
        FinalAppend(m, actions, Woven(block, moments));
        TraceAppend(m, actions, Woven(block, moments));
      case Between(aside) =>
        Snoc(m, actions, aside);
    }
  }
}
