/** What the shadow stack makes of a program that runs instrumented. */
module Detection {
  import opened Instrumentation
  import opened ShadowStack
  import opened Target
  import opened Words

  function Tag(s: Slot): Word {
    if s.CallSlot? then s.saved else WILDCARD
  }

  /** The shadow stack that mirrors these slots. */
  function Mirror(slots: seq<Slot>): (shadow: seq<Word>)
    ensures |shadow| == |slots| && forall k | 0 <= k < |slots| :: shadow[k] == Tag(slots[k])
  {
    if slots == [] then [] else Mirror(slots[..|slots| - 1]) + [Tag(slots[|slots| - 1])]
  }

  /** A return with no slot left, or only slots an execve failed over, or through a
      call's slot that holds something else than the call put there. */
  predicate BadReturn(m: Machine, a: Action) {
    && a.Exec? && a.instr.kind == ReturnInstr
    && (m.live == [] ||
        var top := m.live[|m.live| - 1];
        top.CallSlot? && top.saved != WILDCARD && top.current != top.saved)
  }

  ghost predicate Clean(m: Machine, actions: seq<Action>) {
    forall k | 0 <= k < |actions| :: !BadReturn(Final(m, actions[..k]), actions[k])
  }

  lemma MirrorSnoc(slots: seq<Slot>, s: Slot)
    ensures Mirror(slots + [s]) == Mirror(slots) + [Tag(s)]
  {
    assert (slots + [s])[..|slots|] == slots;
  }

  lemma RunOneEvent(s: State, e: Event)
    ensures Run(s, [e]) == Step(s, e)
  {
  }

  lemma ShadowReturn(m: Machine, i: Instr, stray: Word)
    requires i.kind == ReturnInstr
    ensures Step(Alive(Mirror(m.live)), Ret(Found(m, stray)))
            == if BadReturn(m, Exec(i, stray)) then Killed else Alive(Mirror(Act(m, Exec(i, stray)).live))
  {
    if m.live != [] {
      var n := |m.live| - 1;
      assert m.live == m.live[..n] + [m.live[n]];
      MirrorSnoc(m.live[..n], m.live[n]);
    }
  }

  lemma ShadowExec(m: Machine, i: Instr, stray: Word)
    ensures Run(Alive(Mirror(m.live)), Due(m, Exec(i, stray)))
            == if BadReturn(m, Exec(i, stray)) then Killed else Alive(Mirror(Act(m, Exec(i, stray)).live))
  {
    var s := Alive(Mirror(m.live));
    match i.kind
    case CallInstr =>
      RunOneEvent(s, Call(NextPc(i)));
      MirrorSnoc(m.live, CallSlot(NextPc(i), NextPc(i)));
    case ReturnInstr =>
      RunOneEvent(s, Ret(Found(m, stray)));
      ShadowReturn(m, i, stray);
    case OtherInstr =>
  }

  lemma ClearedTwice(s: State)
    requires s.Alive?
    ensures Run(s, [Execve]) == Run(s, [Execve, Execve]) == Alive([])
  {
    RunOneEvent(s, Execve);
    RunSnoc(s, [Execve], Execve);
    assert [Execve] + [Execve] == [Execve, Execve];
  }

  lemma MirrorOverwritten(slots: seq<Slot>, at: nat, value: Word)
    ensures Mirror(Overwritten(slots, at, value)) == Mirror(slots)
  {
  }

  lemma ShadowAside(m: Machine, a: Aside)
    ensures Run(Alive(Mirror(m.live)), Noticed(a)) == Alive(Mirror(Act(m, a).live))
  {
    var s := Alive(Mirror(m.live));
    match a
    case Kernel(SignalDelivery, frame) =>
      RunOneEvent(s, Signal);
      MirrorSnoc(m.live, SignalSlot(frame));
    case CallExecve(succeeds) =>
      ClearedTwice(s);
    case Kernel(OtherTransfer, _) =>
    case OverwriteLive(at, value) =>
      MirrorOverwritten(m.live, at, value);
    case OverwriteLost(_, _) =>
  }

  lemma ShadowStep(m: Machine, a: Action)
    ensures Run(Alive(Mirror(m.live)), Due(m, a))
            == if BadReturn(m, a) then Killed else Alive(Mirror(Act(m, a).live))
  {
    match a
    case Exec(i, stray) => ShadowExec(m, i, stray);
    case _ => ShadowAside(m, a);
  }

  lemma CleanNext(m: Machine, before: seq<Action>, a: Action)
    ensures Clean(m, before + [a]) <==> Clean(m, before) && !BadReturn(Final(m, before), a)
  {
    var actions, n := before + [a], |before|;
    assert actions[..n] == before && actions[n] == a;
    assert forall k | 0 <= k < n :: before[..k] == actions[..k] && before[k] == actions[k];
  }

  lemma {:induction false} ShadowRun(m: Machine, actions: seq<Action>)
    ensures Run(Alive(Mirror(m.live)), Trace(m, actions))
            == if Clean(m, actions) then Alive(Mirror(Final(m, actions).live)) else Killed
  {
    if actions == [] {
    } else {
      var before, a := actions[..|actions| - 1], actions[|actions| - 1];
      var m' := Final(m, before);
      assert actions == before + [a];
      Snoc(m, before, a);
      ShadowRun(m, before);
      CleanNext(m, before, a);
      ShadowStack.RunAppend(Alive(Mirror(m.live)), Trace(m, before), Due(m', a));
      if Clean(m, before) {
        ShadowStep(m', a);
      } else {
        KilledStays(Due(m', a));
      }
    }
  }

  /** What an instrumented run has reported, and where it has got the program. */
  function Emitted(legs: seq<Leg>): seq<Event> {
    RunLegs(BOOT, legs).1
  }

  function Reached(legs: seq<Leg>): Machine {
    RunLegs(BOOT, legs).0
  }

  /** The group is killed iff the program does a bad return, and until then the
      shadow stack mirrors the program's live return slots: the addresses calls put
      there, and wildcards for signal frames. */
  lemma KilledIffBadReturn(legs: seq<Leg>)
    ensures After(Emitted(legs)).Alive? <==> Clean(BOOT, Actions(legs))
    ensures Clean(BOOT, Actions(legs)) ==> After(Emitted(legs)) == Alive(Mirror(Reached(legs).live))
  {
    RunLegsIsTrace(BOOT, legs);
    ShadowRun(BOOT, Actions(legs));
  }

  /** What action k overwrites: the slot of a call, with something else than the
      call put there. */
  predicate Corrupts(actions: seq<Action>, k: nat, at: nat)
    requires k < |actions|
  {
    var live, a := Final(BOOT, actions[..k]).live, actions[k];
    && a.OverwriteLive? && a.at == at < |live|
    && live[at].CallSlot? && live[at].saved !in {WILDCARD, a.value}
  }

  /** Before action k the slot is there, and action k does not overwrite it. */
  predicate Untouched(actions: seq<Action>, k: nat, at: nat)
    requires k < |actions|
  {
    at < |Final(BOOT, actions[..k]).live| && !(actions[k].OverwriteLive? && actions[k].at == at)
  }

  /** What the tool is for: when the address a call saved is overwritten, however deep
      it lies, and a return that comes to it finds it so, however much later, the group
      is killed. */
  lemma CorruptedReturnIsKilled(legs: seq<Leg>, k: nat, at: nat, j: nat)
    requires k < j < |Actions(legs)| && Corrupts(Actions(legs), k, at)
    requires forall i | k < i < j :: Untouched(Actions(legs), i, at)
    requires Returns(Actions(legs)[j]) && |Final(BOOT, Actions(legs)[..j]).live| == at + 1
    ensures After(Emitted(legs)).Killed?
  {
    CorruptionStays(Actions(legs), k, at, j);
    KilledIffBadReturn(legs);
  }

  lemma {:induction false} CorruptionStays(actions: seq<Action>, k: nat, at: nat, j: nat)
    requires k < j < |actions| && Corrupts(actions, k, at) && at < |Final(BOOT, actions[..j]).live|
    requires forall i | k < i < j :: Untouched(actions, i, at)
    ensures Final(BOOT, actions[..j]).live[at]
            == CallSlot(Final(BOOT, actions[..k]).live[at].saved, actions[k].value)
    decreases j
  {
    FinalNext(actions, j - 1);
    if j == k + 1 {
      SlotHit(Final(BOOT, actions[..k]), at, actions[k].value);
    } else {
      assert Untouched(actions, j - 1, at);
      CorruptionStays(actions, k, at, j - 1);
      SlotStays(Final(BOOT, actions[..j - 1]), actions[j - 1], at);
    }
  }

  lemma FinalNext(actions: seq<Action>, i: nat)
    requires i < |actions|
    ensures Final(BOOT, actions[..i + 1]) == Act(Final(BOOT, actions[..i]), actions[i])
  {
    assert actions[..i + 1] == actions[..i] + [actions[i]];
    Snoc(BOOT, actions[..i], actions[i]);
  }

  lemma SlotHit(m: Machine, at: nat, value: Word)
    requires at < |m.live| && m.live[at].CallSlot?
    ensures Act(m, OverwriteLive(at, value)).live[at] == CallSlot(m.live[at].saved, value)
  {
  }

  lemma SlotStays(m: Machine, a: Action, at: nat)
    requires at < |m.live| && at < |Act(m, a).live| && !(a.OverwriteLive? && a.at == at)
    ensures Act(m, a).live[at] == m.live[at]
  {
  }

  /** In one block: the store hits a return slot and the return comes next. */
  lemma StoreAndReturn(legs: seq<Leg>, store: Instr, ret: Instr, overwrite: Aside)
    ensures var leg := Block([store, ret], [Moment([], 0), Moment([overwrite], 0)]);
            Actions(legs + [leg]) == Actions(legs) + [Exec(store, 0), overwrite, Exec(ret, 0)]
  {
    var leg := Block([store, ret], [Moment([], 0), Moment([overwrite], 0)]);
    assert (legs + [leg])[..|legs|] == legs;
    assert [store, ret][..1] == [store] && [store][..0] == [];
    assert Woven([store], leg.moments) == [Exec(store, 0)];
    assert Woven([store, ret], leg.moments) == [Exec(store, 0), overwrite, Exec(ret, 0)];
  }

  predicate Overwrites(a: Action) {
    a.OverwriteLive? || a.OverwriteLost?
  }

  ghost predicate LeavesSlotsAlone(actions: seq<Action>) {
    forall k | 0 <= k < |actions| :: !Overwrites(actions[k])
  }

  predicate Returns(a: Action) {
    a.Exec? && a.instr.kind == ReturnInstr
  }

  lemma {:induction false} SlotsIntact(actions: seq<Action>, n: nat)
    requires n <= |actions| && LeavesSlotsAlone(actions)
    ensures forall s | s in Final(BOOT, actions[..n]).live :: s.CallSlot? ==> s.current == s.saved
  {
    if n == 0 {
    } else {
      SlotsIntact(actions, n - 1);
      assert actions[..n][..n - 1] == actions[..n - 1];
      assert !Overwrites(actions[n - 1]);
    }
  }

  /** The return at k has no slot to return through that is not lost. */
  predicate NothingToReturnThrough(actions: seq<Action>, k: nat)
    requires k < |actions|
  {
    Returns(actions[k]) && Final(BOOT, actions[..k]).live == []
  }

  /** A program that never overwrites a return slot is killed exactly when it returns
      with no slot left, or only with slots that an execve failed over. */
  lemma KilledIffNothingToReturnThrough(legs: seq<Leg>)
    requires LeavesSlotsAlone(Actions(legs))
    ensures After(Emitted(legs)).Killed?
            <==> exists k | 0 <= k < |Actions(legs)| :: NothingToReturnThrough(Actions(legs), k)
  {
    var actions := Actions(legs);
    KilledIffBadReturn(legs);
    forall k | 0 <= k < |actions|
      ensures BadReturn(Final(BOOT, actions[..k]), actions[k]) <==> NothingToReturnThrough(actions, k)
    {
      SlotsIntact(actions, k);
    }
  }

  lemma {:induction false} NothingLost(actions: seq<Action>, n: nat)
    requires n <= |actions| && CallExecve(false) !in actions
    ensures Final(BOOT, actions[..n]).lost == []
  {
    if n == 0 {
    } else {
      NothingLost(actions, n - 1);
      assert actions[..n][..n - 1] == actions[..n - 1];
      assert actions[n - 1] in actions;
    }
  }

  /** No false positives: a program that leaves its return slots alone, whose execves
      succeed and that only returns from what was called or delivered is never
      killed, however long it runs, and the shadow stack mirrors all its slots. */
  lemma NoFalsePositives(legs: seq<Leg>)
    requires forall a | a in Actions(legs) :: !a.OverwriteLive? && !a.OverwriteLost? && a != CallExecve(false)
    requires forall k | 0 <= k < |Actions(legs)| && Returns(Actions(legs)[k]) ::
               Memory(Final(BOOT, Actions(legs)[..k])) != []
    ensures After(Emitted(legs)) == Alive(Mirror(Reached(legs).live)) && Reached(legs).lost == []
  {
    var actions := Actions(legs);
    assert forall k | 0 <= k < |actions| :: actions[k] in actions;
    forall k | 0 <= k < |actions|
      ensures !NothingToReturnThrough(actions, k)
    {
      NothingLost(actions, k);
    }
    KilledIffNothingToReturnThrough(legs);
    KilledIffBadReturn(legs);
    NothingLost(actions, |actions|);
    assert actions[..|actions|] == actions;
    RunLegsIsTrace(BOOT, legs);
  }

  /** A call, an execve that fails, and a return. */
  function CallExecveReturn(call: Instr, ret: Instr): seq<Leg> {
    [Block([call], []), Between(CallExecve(false)), Block([ret], [])]
  }

  lemma LegSnoc(legs: seq<Leg>, leg: Leg)
    ensures Actions(legs + [leg]) == Actions(legs) + Actions([leg])
  {
    assert (legs + [leg])[..|legs|] == legs && [leg][..0] == [];
  }

  lemma OneInstr(i: Instr)
    ensures Actions([Block([i], [])]) == [Exec(i, 0)]
  {
    var none: seq<Action> := MomentAt([], 0).before;
    assert [i][..0] == [] && [Block([i], [])][..0] == [];
    assert Woven([i], []) == [] + (none + [Exec(i, 0)]);
  }

  lemma CallExecveReturnActions(call: Instr, ret: Instr)
    ensures Actions(CallExecveReturn(call, ret)) == [Exec(call, 0), CallExecve(false), Exec(ret, 0)]
    ensures Actions(CallExecveReturn(call, ret)[..2]) == [Exec(call, 0), CallExecve(false)]
            == Actions(CallExecveReturn(call, ret))[..2]
  {
    var legs := CallExecveReturn(call, ret);
    assert legs[..2] == [legs[0]] + [legs[1]] && legs == legs[..2] + [legs[2]];
    LegSnoc([legs[0]], legs[1]);
    LegSnoc(legs[..2], legs[2]);
    OneInstr(call);
    OneInstr(ret);
    assert Actions([legs[1]]) == [] + [CallExecve(false)];
  }

  lemma AfterFailedExecve(call: Instr)
    requires call.kind == CallInstr
    ensures Final(BOOT, [Exec(call, 0), CallExecve(false)]) == Machine([CallSlot(NextPc(call), NextPc(call))], [])
  {
    Snoc(BOOT, [], Exec(call, 0));
    Snoc(BOOT, [Exec(call, 0)], CallExecve(false));
    assert [] + [Exec(call, 0)] == [Exec(call, 0)];
    assert [Exec(call, 0)] + [CallExecve(false)] == [Exec(call, 0), CallExecve(false)];
  }

  /** The proviso on execve is needed: the stack is cleared before the call is known
      to succeed, so a program that calls, fails an execve and returns is killed
      although its return slot holds what the call put there. */
  lemma FailedExecveIsFatal(call: Instr, ret: Instr)
    requires call.kind == CallInstr && ret.kind == ReturnInstr
    ensures var legs := CallExecveReturn(call, ret);
            && LeavesSlotsAlone(Actions(legs)) && Found(Reached(legs[..2]), 0) == NextPc(call)
            && After(Emitted(legs)).Killed?
  {
    var legs := CallExecveReturn(call, ret);
    CallExecveReturnActions(call, ret);
    AfterFailedExecve(call);
    RunLegsIsTrace(BOOT, legs[..2]);
    ReturnsThroughLost(legs, 2);
  }

  lemma ReturnsThroughLost(legs: seq<Leg>, k: nat)
    requires LeavesSlotsAlone(Actions(legs))
    requires k < |Actions(legs)| && NothingToReturnThrough(Actions(legs), k)
    ensures After(Emitted(legs)).Killed?
  {
    KilledIffNothingToReturnThrough(legs);
  }
}
