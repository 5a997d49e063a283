/** The std::stack of pointers both modes keep. */
module PointerStacks {
  import opened Words

  class PointerStack {
    var items: seq<Word>

    constructor ()
      ensures items == []
    {
      items := [];
    }

    predicate Empty()
      reads this
    {
      items == []
    }

    function Top(): Word
      requires !Empty()
      reads this
    {
      items[|items| - 1]
    }

    method Push(w: Word)
      modifies this
      ensures items == old(items) + [w]
    {
      items := items + [w];
    }

    method Pop()
      requires !Empty()
      modifies this
      ensures items == old(items)[..|old(items)| - 1]
    {
      items := items[..|items| - 1];
    }
  }
}
