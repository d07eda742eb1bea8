/** Rendering `[['a', 'b']]` into a part and then `[['a', 'b'], 'c']`: the second render keeps
    the item part of `['a', 'b']`, adds a separator after it and moves that item part's end
    marker to the separator (es/index.js:1338), but the item part's own last item part, the
    one showing `'b'`, still ends at the outer end marker. */
module NestedItems {
  import opened Values
  import opened Windows
  import opened Dom
  import opened NodeParts

  /** The outer markers, the text nodes of `'a'` and `'b'` and the separator between them, the
      separator the second render adds and the text node of `'c'`. */
  const S := Created(0)
  const E := Created(1)
  const TA := Created(2)
  const S1 := Created(3)
  const TB := Created(4)
  const S2 := Created(5)
  const TC := Created(6)

  /** After the first render: part 0 is the outer part, part 1 the item part of `['a', 'b']`,
      parts 2 and 3 its item parts. */
  function Before(): seq<Part>
  {
    [Part(S, E, ItemParts([1])), Part(S, E, ItemParts([2, 3])),
     Part(S, S1, Held(Str("a"))), Part(S1, E, Held(Str("b")))]
  }

  function Texts(): map<nat, string>
  {
    map[2 := "a", 3 := "", 4 := "b"]
  }

  function Shown(): seq<Node>
  {
    [S, TA, S1, TB, E]
  }

  /** The children once `'c'` is shown after the new separator. */
  function Later(): seq<Node>
  {
    [S, TA, S1, TB, S2, TC, E]
  }

  lemma ItemWindows()
    ensures Split(Shown(), Ends(Before(), [2, 3])) == [[S, TA, S1], [S1, TB, E]]
  {
    var w := Shown();
    assert Ends(Before(), [2, 3]) == [S1, E];
    assert Find(w[1..], S1) == 1 by { FindFirst(w[1..], 1, S1); }
    assert w[..3] == [S, TA, S1] && w[2..] == [S1, TB, E];
  }

  lemma LeavesWF()
    ensures WF(Before(), Texts(), 2, [S, TA, S1]) && WF(Before(), Texts(), 3, [S1, TB, E])
  {
  }

  lemma LeavesReach()
    ensures Reach(Before(), 2) == {2} && Reach(Before(), 3) == {3}
  {
  }

  lemma InnerWF()
    ensures WF(Before(), Texts(), 1, Shown())
  {
    ItemWindows();
    LeavesWF();
    LeavesReach();
    assert EmptyText(Texts(), Before()[2].end);
    WFItemsIntro(Before(), Texts(), 1, Shown(), [2, 3], [[S, TA, S1], [S1, TB, E]]);
  }

  lemma OuterWF()
    ensures WF(Before(), Texts(), 0, Shown())
  {
    InnerWF();
    assert Ends(Before(), [1]) == [E];
  }

  lemma FirstMatches()
    ensures Matches(Before(), 0, Arr(0, [Arr(1, [Str("a"), Str("b")])]))
  {
    var inner := Arr(1, [Str("a"), Str("b")]);
    assert Matches(Before(), 2, inner.items[0]);
    assert Matches(Before(), 3, inner.items[1]);
    assert Matches(Before(), 1, inner);
  }

  /** Where the nodes of part 3 and the new separator stand once `'c'` is shown. */
  lemma LaterPositions()
    ensures Find(Later(), S1) == 2 && Find(Later(), S2) == 4 && Find(Later(), E) == 6
  {
    var c := Later();
    FindFirst(c, 2, S1);
    FindFirst(c, 4, S2);
    FindFirst(c, 6, E);
  }

  /** The first render leaves a consistent state; the second's separator step moves only the
      inner item part's end marker, so it ends elsewhere than its last item part, which no
      window permits (`NodeParts.ItemsShareEnd`); and part 3's stretch, which `_setText`
      clears on its next new text (es/index.js:1282, es/index.js:1367), then holds the new
      separator: rendering `[['a', 'b2'], 'c']` removes the separator and `'c'`. */
  lemma StaleNestedEnd()
    ensures WF(Before(), Texts(), 0, Shown())
    ensures Matches(Before(), 0, Arr(0, [Arr(1, [Str("a"), Str("b")])]))
    ensures var r := AsWrittenSetEnd(Before(), 1, S2);
      r[1].previous == ItemParts([2, 3]) && r[1].end != r[3].end
      && Find(Later(), r[3].start) < Find(Later(), S2) < Find(Later(), r[3].end)
  {
    OuterWF();
    FirstMatches();
    LaterPositions();
  }
}
