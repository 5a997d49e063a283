/** What the shadow stack accepts, said without a stack: every return has an
    earlier call or signal it matches, by counting events alone. */
module Nesting {
  import opened Words
  import opened ShadowStack

  function Weight(e: Event): int {
    if IsPush(e) then 1 else if e.Ret? then -1 else 0
  }

  /** Calls and signals minus returns among events i up to k. */
  function Depth(es: seq<Event>, i: nat, k: nat): int
    requires i <= k <= |es|
  {
    if i == k then 0 else Depth(es, i, k - 1) + Weight(es[k - 1])
  }

  /** Events i up to k leave nothing open, never go below where they started and
      contain no execve. */
  ghost predicate Balanced(es: seq<Event>, i: nat, k: nat)
    requires i <= k <= |es|
  {
    && (forall m | i <= m < k :: es[m] != Execve)
    && (forall m | i <= m <= k :: Depth(es, i, m) >= 0)
    && Depth(es, i, k) == 0
  }

  /** The return at k closes the call or signal at j. */
  ghost predicate Matches(es: seq<Event>, j: nat, k: nat) {
    j < k < |es| && IsPush(es[j]) && es[k].Ret? && Balanced(es, j + 1, k)
  }

  /** The return at k, if there is one, closes something that permits its target. */
  ghost predicate GoodAt(es: seq<Event>, k: nat)
    requires k < |es|
  {
    es[k].Ret? ==> exists j: nat :: Matches(es, j, k) && Permits(Pushed(es[j]), es[k].target)
  }

  ghost predicate GoodUpTo(es: seq<Event>, n: nat)
    requires n <= |es|
  {
    forall k | 0 <= k < n :: GoodAt(es, k)
  }

  ghost predicate WellNested(es: seq<Event>) {
    GoodUpTo(es, |es|)
  }

  lemma {:induction false} DepthSplit(es: seq<Event>, i: nat, m: nat, k: nat)
    requires i <= m <= k <= |es|
    ensures Depth(es, i, k) == Depth(es, i, m) + Depth(es, m, k)
    decreases k
  {
    if m == k {
    } else {
      DepthSplit(es, i, m, k - 1);
    }
  }

  lemma DepthAcrossPush(es: seq<Event>, i: nat, j: nat, k: nat)
    requires i <= j < k <= |es| && IsPush(es[j])
    ensures Depth(es, i, k) == Depth(es, i, j) + 1 + Depth(es, j + 1, k)
  {
    DepthSplit(es, i, j, k);
    DepthSplit(es, j, j + 1, k);
    assert Depth(es, j, j + 1) == Depth(es, j, j) + Weight(es[j]);
  }

  /** A return closes at most one call or signal. */
  lemma MatchUnique(es: seq<Event>, j: nat, j': nat, k: nat)
    requires Matches(es, j, k) && Matches(es, j', k)
    ensures j == j'
  {
    if j < j' {
      DepthAcrossPush(es, j + 1, j', k);
    } else if j' < j {
      DepthAcrossPush(es, j' + 1, j, k);
    }
  }

  /** The position after the last execve among the first n events. */
  function Base(es: seq<Event>, n: nat): (b: nat)
    requires n <= |es|
    ensures b <= n && (b == 0 || es[b - 1] == Execve)
  {
    if n == 0 then 0 else if es[n - 1] == Execve then n else Base(es, n - 1)
  }

  /** The calls and signals still open after the first n events. */
  ghost function Open(es: seq<Event>, n: nat): seq<nat>
    requires n <= |es|
  {
    if n == 0 then []
    else
      var open := Open(es, n - 1);
      match es[n - 1]
      case Call(_) | Signal => open + [n - 1]
      case Execve => []
      case Ret(_) => if open == [] then [] else open[..|open| - 1]
  }

  /** The open positions between b and n, with balanced stretches around them. */
  ghost predicate Chain(es: seq<Event>, b: nat, open: seq<nat>, n: nat)
    requires n <= |es|
    decreases |open|
  {
    if open == [] then b <= n && Balanced(es, b, n)
    else
      var last := open[|open| - 1];
      && last < n
      && IsPush(es[last])
      && Balanced(es, last + 1, n)
      && Chain(es, b, open[..|open| - 1], last)
  }

  ghost function PushedWords(es: seq<Event>, open: seq<nat>): seq<Word>
    requires forall i | 0 <= i < |open| :: open[i] < |es| && IsPush(es[open[i]])
  {
    seq(|open|, i requires 0 <= i < |open| => Pushed(es[open[i]]))
  }

  lemma BalancedWrap(es: seq<Event>, i: nat, j: nat, k: nat)
    requires i <= j && Matches(es, j, k) && Balanced(es, i, j)
    ensures Balanced(es, i, k + 1)
  {
    forall m | i <= m <= k + 1
      ensures Depth(es, i, m) >= 0
    {
      if m > j {
        DepthAcrossPush(es, i, j, m);
      }
    }
    DepthAcrossPush(es, i, j, k + 1);
  }

  lemma ChainAfterReturn(es: seq<Event>, b: nat, open: seq<nat>, k: nat)
    requires k < |es| && es[k].Ret? && open != [] && Chain(es, b, open, k)
    ensures Chain(es, b, open[..|open| - 1], k + 1)
  {
    var j, rest := open[|open| - 1], open[..|open| - 1];
    BalancedWrap(es, if rest == [] then b else rest[|rest| - 1] + 1, j, k);
  }

  /** With nothing open back to the last execve, nothing can be closed. */
  lemma NothingToMatch(es: seq<Event>, b: nat, j: nat, k: nat)
    requires b <= k <= |es| && Balanced(es, b, k) && (b == 0 || es[b - 1] == Execve)
    ensures !Matches(es, j, k)
  {
    if b <= j && Matches(es, j, k) {
      DepthAcrossPush(es, b, j, k);
    }
  }

  ghost predicate Agrees(es: seq<Event>, n: nat, stack: seq<Word>)
    requires n <= |es|
  {
    var open := Open(es, n);
    && Chain(es, Base(es, n), open, n)
    && (forall i | 0 <= i < |open| :: open[i] < n && IsPush(es[open[i]]))
    && stack == PushedWords(es, open)
  }

  lemma TakeSnoc(es: seq<Event>, n: nat)
    requires n < |es|
    ensures es[..n + 1] == es[..n] + [es[n]]
    ensures After(es[..n + 1]) == Step(After(es[..n]), es[n])
  {
    assert es[..n + 1] == es[..n] + [es[n]];
    RunSnoc(INITIAL, es[..n], es[n]);
  }

  /** The verdict on the event at n is decided by what it matches. */
  lemma GoodStep(es: seq<Event>, n: nat, stack: seq<Word>)
    requires n < |es| && Agrees(es, n, stack)
    ensures Step(Alive(stack), es[n]).Alive? <==> GoodAt(es, n)
  {
    if es[n].Ret? {
      var open := Open(es, n);
      if open == [] {
        forall j: nat
          ensures !Matches(es, j, n)
        {
          NothingToMatch(es, Base(es, n), j, n);
        }
      } else {
        var last := open[|open| - 1];
        assert Matches(es, last, n);
        assert stack[|stack| - 1] == Pushed(es[last]);
        forall j: nat | Matches(es, j, n)
          ensures j == last
        {
          MatchUnique(es, j, last, n);
        }
      }
    }
  }

  lemma AgreesStep(es: seq<Event>, n: nat, stack: seq<Word>)
    requires n < |es| && Agrees(es, n, stack) && Step(Alive(stack), es[n]).Alive?
    ensures Agrees(es, n + 1, Step(Alive(stack), es[n]).stack)
  {
    var open := Open(es, n);
    match es[n]
    case Ret(_) => ChainAfterReturn(es, Base(es, n), open, n);
    case Execve => assert Chain(es, n + 1, [], n + 1);
    case _ =>
      assert (open + [n])[..|open|] == open;
      assert PushedWords(es, open + [n]) == PushedWords(es, open) + [Pushed(es[n])];
  }

  /** The stack of a surviving run holds exactly what its open calls and signals pushed. */
  lemma {:induction false} StackIsOpenPushes(es: seq<Event>, n: nat)
    requires n <= |es| && After(es[..n]).Alive?
    ensures Agrees(es, n, After(es[..n]).stack)
  {
    if n == 0 {
    } else {
      TakeSnoc(es, n - 1);
      StackIsOpenPushes(es, n - 1);
      AgreesStep(es, n - 1, After(es[..n - 1]).stack);
    }
  }

  lemma SurvivesOneMore(es: seq<Event>, n: nat)
    requires n < |es|
    ensures After(es[..n + 1]).Alive? <==> After(es[..n]).Alive? && GoodAt(es, n)
  {
    TakeSnoc(es, n);
    if After(es[..n]).Alive? {
      StackIsOpenPushes(es, n);
      GoodStep(es, n, After(es[..n]).stack);
    }
  }

  /** The machine survives the first n events iff every return among them is
      matched by a call or signal that permits it. */
  lemma {:induction false} SurvivesIffGood(es: seq<Event>, n: nat)
    requires n <= |es|
    ensures After(es[..n]).Alive? <==> GoodUpTo(es, n)
  {
    if n == 0 {
    } else {
      SurvivesIffGood(es, n - 1);
      SurvivesOneMore(es, n - 1);
    }
  }

  lemma AcceptsIffWellNested(es: seq<Event>)
    ensures After(es).Alive? <==> WellNested(es)
  {
    assert es[..|es|] == es;
    SurvivesIffGood(es, |es|);
  }

  /** The kill comes at the first return that is not properly matched. */
  lemma KilledAtFirstBadReturn(es: seq<Event>, k: nat)
    requires k < |es|
    ensures (After(es[..k]).Alive? && After(es[..k + 1]).Killed?)
            <==> (GoodUpTo(es, k) && !GoodAt(es, k))
  {
    SurvivesIffGood(es, k);
    SurvivesOneMore(es, k);
  }

  lemma {:induction false} ChainDepth(es: seq<Event>, b: nat, open: seq<nat>, n: nat)
    requires n <= |es| && Chain(es, b, open, n)
    ensures b <= n && Depth(es, b, n) == |open|
    decreases |open|
  {
    if open == [] {
    } else {
      var last := open[|open| - 1];
      ChainDepth(es, b, open[..|open| - 1], last);
      DepthAcrossPush(es, b, last, n);
    }
  }

  /** Conservation: the stack is as deep as calls and signals outnumber returns
      since the last execve. */
  lemma DepthSinceExecve(es: seq<Event>)
    requires After(es).Alive?
    ensures |After(es).stack| == Depth(es, Base(es, |es|), |es|)
  {
    assert es[..|es|] == es;
    StackIsOpenPushes(es, |es|);
    ChainDepth(es, Base(es, |es|), Open(es, |es|), |es|);
  }
}
