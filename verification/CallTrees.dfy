/** The call trees a shadow stack accepts, and the parser that recovers them. */
module CallTrees {
  import opened Words
  import opened ShadowStack

  type Push = e: Event | IsPush(e) witness Signal

  /** A call or delivered signal, what ran inside it, the target it returned to,
      and what ran after it. */
  datatype Forest = Leaf | Node(push: Push, body: Forest, target: Word, next: Forest)

  function Flatten(f: Forest): seq<Event> {
    match f
    case Leaf => []
    case Node(push, body, target, next) => [push] + Flatten(body) + [Ret(target)] + Flatten(next)
  }

  /** Every call returns to its return address, or is itself a wildcard. */
  predicate Honest(f: Forest) {
    f.Node? ==> Permits(Pushed(f.push), f.target) && Honest(f.body) && Honest(f.next)
  }

  lemma FlattenNode(push: Push, body: Forest, target: Word, next: Forest, rest: seq<Event>)
    ensures Flatten(Node(push, body, target, next)) + rest
            == [push] + (Flatten(body) + ([Ret(target)] + (Flatten(next) + rest)))
  {
  }

  lemma JoinNode(push: Push, body: Forest, bodyRest: seq<Event>, next: Forest, rest: seq<Event>, es: seq<Event>)
    requires bodyRest != [] && bodyRest[0].Ret?
    requires Flatten(body) + bodyRest == es && Flatten(next) + rest == bodyRest[1..]
    ensures Flatten(Node(push, body, bodyRest[0].target, next)) + rest == [push] + es
  {
    FlattenNode(push, body, bodyRest[0].target, next, rest);
    assert [bodyRest[0]] + bodyRest[1..] == bodyRest;
  }

  datatype Parsed = Parsed(forest: Forest, rest: seq<Event>) | Unclosed

  /** The longest forest at the front of es, up to an unmatched return, an execve
      or the end. Flattening undoes parsing. */
  function Parse(es: seq<Event>): (p: Parsed)
    ensures p.Parsed? ==> Flatten(p.forest) + p.rest == es
    ensures p.Parsed? && p.rest != [] ==> !IsPush(p.rest[0])
    decreases |es|
  {
    if es == [] || !IsPush(es[0]) then Parsed(Leaf, es)
    else ParseAfter(es[0], Parse(es[1..]), es[1..])
  }

  /** The rest of a parse, once what ran inside push is parsed. */
  function ParseAfter(push: Push, body: Parsed, es: seq<Event>): (p: Parsed)
    requires body.Parsed? ==> Flatten(body.forest) + body.rest == es
    ensures p.Parsed? ==> Flatten(p.forest) + p.rest == [push] + es
    ensures p.Parsed? && p.rest != [] ==> !IsPush(p.rest[0])
    decreases |es|, 0
  {
    if body.Unclosed? || body.rest == [] || !body.rest[0].Ret? then Unclosed
    else
      var next := Parse(body.rest[1..]);
      if next.Unclosed? then Unclosed
      else
        JoinNode(push, body.forest, body.rest, next.forest, next.rest, es);
        Parsed(Node(push, body.forest, body.rest[0].target, next.forest), next.rest)
  }

  /** Flattening any forest gives a trace that, from any stack at all, leaves the
      stack as it was if the forest is honest and is killed if it is not. */
  lemma {:induction false} RunFlatten(stack: seq<Word>, f: Forest)
    ensures Run(Alive(stack), Flatten(f)) == if Honest(f) then Alive(stack) else Killed
    decreases f
  {
    match f
    case Leaf =>
    case Node(push, body, target, next) =>
      var inner := stack + [Pushed(push)];
      RunFlatten(inner, body);
      RunFlatten(stack, next);
      KilledStays([Ret(target)]);
      KilledStays(Flatten(next));
      RunSnoc(Alive(stack), [], push);
      RunAppend(Alive(stack), [push], Flatten(body));
      RunSnoc(Alive(stack), [push] + Flatten(body), Ret(target));
      RunAppend(Alive(stack), [push] + Flatten(body) + [Ret(target)], Flatten(next));
      assert inner[..|stack|] == stack;
  }

  /** Parsing undoes flattening, whatever unmatched return or execve follows. */
  lemma {:induction false} ParseFlatten(f: Forest, rest: seq<Event>)
    requires rest == [] || !IsPush(rest[0])
    ensures Parse(Flatten(f) + rest) == Parsed(f, rest)
  {
    match f
    case Leaf =>
      assert Flatten(f) + rest == rest;
    case Node(push, body, target, next) =>
      var after := [Ret(target)] + (Flatten(next) + rest);
      FlattenNode(push, body, target, next, rest);
      ParseFlatten(body, after);
      assert after[1..] == Flatten(next) + rest;
      ParseFlatten(next, rest);
  }

  lemma RunBodyThenReturn(stack: seq<Word>, w: Word, body: Forest, rest: seq<Event>)
    requires rest != [] && rest[0].Ret?
    ensures Run(Alive(stack + [w]), Flatten(body) + rest)
            == if Honest(body) && Permits(w, rest[0].target) then Run(Alive(stack), rest[1..]) else Killed
  {
    RunFlatten(stack + [w], body);
    RunAppend(Alive(stack + [w]), Flatten(body), rest);
    assert (stack + [w])[..|stack|] == stack;
    KilledStays(rest);
    KilledStays(rest[1..]);
  }

  /** The run is killed or leaves more on the stack than there was. */
  ghost predicate LeavesOpen(stack: seq<Word>, es: seq<Event>) {
    var s := Run(Alive(stack), es);
    s.Killed? || |s.stack| > |stack|
  }

  lemma OpenInside(stack: seq<Word>, es: seq<Event>)
    requires es != [] && IsPush(es[0]) && LeavesOpen(stack + [Pushed(es[0])], es[1..])
    ensures LeavesOpen(stack, es)
  {
  }

  /** A trace that does not parse is killed or leaves something open. */
  lemma {:induction false} UnclosedLeavesOpen(stack: seq<Word>, es: seq<Event>)
    requires Parse(es).Unclosed? && forall i | 0 <= i < |es| :: es[i] != Execve
    ensures LeavesOpen(stack, es)
    decreases |es|
  {
    var w := Pushed(es[0]);
    var body := Parse(es[1..]);
    if body.Unclosed? {
      UnclosedLeavesOpen(stack + [w], es[1..]);
      OpenInside(stack, es);
    } else if body.rest == [] {
      NothingAfterBody(stack, es, body.forest);
    } else {
      var rest := body.rest;
      RestHasNoExecve(es, body.forest, rest);
      UnclosedLeavesOpen(stack, rest[1..]);
      OpenAfterReturn(stack, es, body.forest, rest);
    }
  }

  lemma NothingAfterBody(stack: seq<Word>, es: seq<Event>, body: Forest)
    requires es != [] && IsPush(es[0]) && Flatten(body) + [] == es[1..]
    ensures LeavesOpen(stack, es)
  {
    RunFlatten(stack + [Pushed(es[0])], body);
    assert Flatten(body) + [] == Flatten(body);
  }

  lemma RestHasNoExecve(es: seq<Event>, body: Forest, rest: seq<Event>)
    requires es != [] && Flatten(body) + rest == es[1..] && forall i | 0 <= i < |es| :: es[i] != Execve
    ensures forall i | 0 <= i < |rest| :: rest[i] != Execve
  {
    assert forall i | 0 <= i < |rest| :: rest[i] == es[1..][|Flatten(body)| + i];
  }

  lemma OpenAfterReturn(stack: seq<Word>, es: seq<Event>, body: Forest, rest: seq<Event>)
    requires es != [] && IsPush(es[0]) && Flatten(body) + rest == es[1..]
    requires rest != [] && rest[0].Ret? && LeavesOpen(stack, rest[1..])
    ensures LeavesOpen(stack, es)
  {
    RunBodyThenReturn(stack, Pushed(es[0]), body, rest);
  }

  lemma UnmatchedReturnKills(es: seq<Event>)
    requires es != [] ==> !IsPush(es[0]) && Execve !in es
    ensures es != [] ==> After(es) == Killed
  {
    if es != [] {
      assert es[0] in es;
      KilledStays(es[1..]);
    }
  }

  /** Call-tree round trip: the execve-free traces that are accepted and end where
      they began are exactly the flattenings of honest forests. */
  lemma AcceptedIffHonestForest(es: seq<Event>)
    requires Execve !in es
    ensures After(es) == INITIAL <==> exists f :: Honest(f) && Flatten(f) == es
    ensures After(es) == INITIAL ==> Parse(es).Parsed? && Parse(es).rest == []
  {
    if After(es) == INITIAL {
      if Parse(es).Unclosed? {
        assert forall i | 0 <= i < |es| :: es[i] in es;
        UnclosedLeavesOpen([], es);
      } else {
        var f, rest := Parse(es).forest, Parse(es).rest;
        RunFlatten([], f);
        RunAppend(INITIAL, Flatten(f), rest);
        KilledStays(rest);
        UnmatchedReturnKills(rest);
        assert Flatten(f) + [] == Flatten(f);
      }
    }
    forall f | Honest(f) && Flatten(f) == es
      ensures After(es) == INITIAL
    {
      RunFlatten([], f);
    }
  }

  /** A trace flattens from at most one forest, and the parser finds it. */
  lemma ForestUnique(f: Forest, g: Forest)
    requires Flatten(f) == Flatten(g)
    ensures f == g && Parse(Flatten(f)) == Parsed(f, [])
  {
    ParseFlatten(f, []);
    ParseFlatten(g, []);
    assert Flatten(f) + [] == Flatten(f) && Flatten(g) + [] == Flatten(g);
  }
}
