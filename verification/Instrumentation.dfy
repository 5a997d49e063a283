/** The instrumentation of basic blocks. */
module Instrumentation {
  import opened Words

  datatype Kind = CallInstr | ReturnInstr | OtherInstr

  datatype Instr = Instr(kind: Kind, pc: Word, length: Word)

  /** The address after the instruction, wrapping around as pointers do. */
  function NextPc(i: Instr): Word {
    var sum := i.pc + i.length;
    if sum < WORD_LIMIT then sum else sum - WORD_LIMIT
  }

  /** The address is exactly the instruction's length past the instruction. */
  lemma NextPcIsPast(i: Instr)
    ensures (NextPc(i) + WORD_LIMIT - i.pc) % WORD_LIMIT == i.length
  {
  }

  /** A basic block under instrumentation: the application's instructions, and the
      handler calls inserted before them. An inserted return handler is given the
      actual target when it runs. */
  datatype Item = App(instr: Instr) | OnCall(returnTo: Word) | OnRet

  function Handlers(i: Instr): seq<Item> {
    match i.kind
    case CallInstr => [OnCall(NextPc(i))]
    case ReturnInstr => [OnRet]
    case OtherInstr => []
  }

  function Instrument(block: seq<Instr>): seq<Item> {
    if block == [] then []
    else
      var last := block[|block| - 1];
      Instrument(block[..|block| - 1]) + Handlers(last) + [App(last)]
  }

  function Apps(block: seq<Instr>): (items: seq<Item>)
    ensures |items| == |block|
  {
    seq(|block|, k requires 0 <= k < |block| => App(block[k]))
  }

  class InstrList {
    var items: seq<Item>

    constructor (block: seq<Instr>)
      ensures items == Apps(block)
    {
      items := Apps(block);
    }

    /** The callback for the instruction at position at. A call's handler is given
        the address that is the call's length past the call. */
    method EventAppInstruction(at: nat) returns (inserted: nat)
      requires at < |items| && items[at].App?
      modifies this
      ensures items == old(items)[..at] + Handlers(old(items)[at].instr) + old(items)[at..]
      ensures inserted == |Handlers(old(items)[at].instr)|
      ensures var i := old(items)[at].instr;
              match i.kind
              case CallInstr =>
                && inserted == 1 && items == old(items)[..at] + [items[at]] + old(items)[at..]
                && items[at].OnCall? && (items[at].returnTo + WORD_LIMIT - i.pc) % WORD_LIMIT == i.length
              case ReturnInstr => inserted == 1 && items == old(items)[..at] + [OnRet] + old(items)[at..]
              case OtherInstr => inserted == 0 && items == old(items)
    {
      var instr := items[at].instr;
      NextPcIsPast(instr);
      inserted := 0;
      if instr.kind == CallInstr {
        var xip := NextPc(instr);
        items := items[..at] + [OnCall(xip)] + items[at..];
        inserted := 1;
      }
      if instr.kind == ReturnInstr {
        items := items[..at] + [OnRet] + items[at..];
        inserted := 1;
      }
    }

    /** DynamoRIO calls the callback once for each instruction of the block. */
    method InstrumentAll(ghost block: seq<Instr>)
      requires items == Apps(block)
      modifies this
      ensures items == Instrument(block)
    {
      var at := 0;
      ghost var done := 0;
      while at < |items|
        invariant done <= |block| && at == |Instrument(block[..done])|
        invariant items == Instrument(block[..done]) + Apps(block[done..])
        decreases |block| - done
      {
        InsertNext(block, done, items);
        var inserted := EventAppInstruction(at);
        at, done := at + inserted + 1, done + 1;
      }
      assert block[..done] == block;
    }
  }

  /** Inserting the handlers of the next instruction of a block that is
      instrumented up to there. */
  lemma InsertNext(block: seq<Instr>, k: nat, items: seq<Item>)
    requires k < |block| && items == Instrument(block[..k]) + Apps(block[k..])
    ensures var at, handlers := |Instrument(block[..k])|, Handlers(block[k]);
            && at < |items| && items[at] == App(block[k])
            && items[..at] + handlers + items[at..] == Instrument(block[..k + 1]) + Apps(block[k + 1..])
            && |Instrument(block[..k + 1])| == at + |handlers| + 1
  {
    var before, i, after := Instrument(block[..k]), block[k], Apps(block[k + 1..]);
    assert block[..k + 1][..k] == block[..k];
    assert Apps(block[k..]) == [App(i)] + after;
    assert items[..|before|] == before && items[|before|..] == [App(i)] + after;
    assert before + Handlers(i) + ([App(i)] + after) == before + Handlers(i) + [App(i)] + after;
  }

  function Erase(items: seq<Item>): seq<Instr> {
    if items == [] then []
    else
      var last := items[|items| - 1];
      Erase(items[..|items| - 1]) + if last.App? then [last.instr] else []
  }

  /** Every call is right after its handler, given the address after the call;
      every return is right after its handler; and there are no other handlers. */
  ghost predicate InPlace(items: seq<Item>) {
    && (forall k | 0 <= k < |items| && items[k].App? :: FollowsHandlers(items, k))
    && (forall k | 0 <= k < |items| && !items[k].App? :: PrecedesItsInstr(items, k))
  }

  predicate FollowsHandlers(items: seq<Item>, k: nat)
    requires k < |items| && items[k].App?
  {
    var handlers := Handlers(items[k].instr);
    k >= |handlers| && items[k - |handlers|..k] == handlers
  }

  predicate PrecedesItsInstr(items: seq<Item>, k: nat)
    requires k < |items|
  {
    k + 1 < |items| && items[k + 1].App? && Handlers(items[k + 1].instr) == [items[k]]
  }

  /** Every call is right after a handler that is given the address that is the
      call's length past it. */
  ghost predicate CallsAnnounced(items: seq<Item>) {
    forall k | 0 <= k < |items| && items[k].App? && items[k].instr.kind == CallInstr ::
      && k > 0 && items[k - 1].OnCall?
      && (items[k - 1].returnTo + WORD_LIMIT - items[k].instr.pc) % WORD_LIMIT == items[k].instr.length
  }

  lemma InPlaceAnnounces(items: seq<Item>)
    requires InPlace(items)
    ensures CallsAnnounced(items)
  {
    forall k | 0 <= k < |items| && items[k].App? && items[k].instr.kind == CallInstr
      ensures k > 0 && items[k - 1] == OnCall(NextPc(items[k].instr))
      ensures (NextPc(items[k].instr) + WORD_LIMIT - items[k].instr.pc) % WORD_LIMIT == items[k].instr.length
    {
      NextPcIsPast(items[k].instr);
      assert FollowsHandlers(items, k);
      assert items[k - 1..k][0] == items[k - 1];
    }
  }

  lemma InPlaceNext(items: seq<Item>, i: Instr)
    requires InPlace(items)
    ensures InPlace(items + Handlers(i) + [App(i)])
  {
    var items' := items + Handlers(i) + [App(i)];
    forall k | 0 <= k < |items'| && items'[k].App?
      ensures FollowsHandlers(items', k)
    {
      if k < |items| {
        assert FollowsHandlers(items, k);
        assert items'[..|items|] == items;
      }
    }
    forall k | 0 <= k < |items'| && !items'[k].App?
      ensures PrecedesItsInstr(items', k)
    {
      if k < |items| {
        assert PrecedesItsInstr(items, k);
      }
    }
  }

  lemma {:induction false} EraseAppend(items: seq<Item>, items': seq<Item>)
    ensures Erase(items + items') == Erase(items) + Erase(items')
  {
    if items' == [] {
      assert items + [] == items;
      assert Erase(items) + [] == Erase(items);
    } else {
      var n := |items'| - 1;
      EraseAppend(items, items'[..n]);
      assert (items + items')[..|items| + n] == items + items'[..n];
    }
  }

  /** Instrumentation is conservative: without the handlers the block is the
      original one. */
  lemma {:induction false} EraseInstrument(block: seq<Instr>)
    ensures Erase(Instrument(block)) == block
  {
    if block == [] {
    } else {
      var n := |block| - 1;
      var items, i := Instrument(block[..n]), block[n];
      calc {
        Erase(Instrument(block));
        Erase(items + Handlers(i) + [App(i)]);
        { EraseAppend(items + Handlers(i), [App(i)]); EraseAppend(items, Handlers(i)); }
        Erase(items) + Erase(Handlers(i)) + Erase([App(i)]);
        { EraseInstrument(block[..n]); EraseOne(i); }
        block[..n] + [] + [i];
        block;
      }
    }
  }

  lemma EraseOne(i: Instr)
    ensures Erase(Handlers(i)) == [] && Erase([App(i)]) == [i]
  {
  }

  /** And the handlers are where they should be and nowhere else. */
  lemma {:induction false} InstrumentInPlace(block: seq<Instr>)
    ensures InPlace(Instrument(block))
    ensures CallsAnnounced(Instrument(block))
  {
    if block == [] {
    } else {
      var n := |block| - 1;
      InstrumentInPlace(block[..n]);
      InPlaceNext(Instrument(block[..n]), block[n]);
      InPlaceAnnounces(Instrument(block));
    }
  }
}
