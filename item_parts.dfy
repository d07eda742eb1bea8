/** The steps `_setIterable` (es/index.js:1308-1358) takes on the item parts of a part: making
    the part hold an empty array of item parts, adding an item part, and truncating the array
    of item parts. */
module ItemParts {
  import opened Values
  import opened Windows
  import opened Dom
  import opened NodeParts
  import opened NodePartOps

  /** `this.clear(); this._previousValue = q` for an empty array of item parts
      (es/index.js:1318-1321) or `undefined` (es/index.js:1347-1350): the window is emptied. */
  method Reset(st: State, p: nat, q: Previous, ghost pre: seq<Node>, ghost w: seq<Node>, ghost post: seq<Node>)
    returns (st': State)
    requires Inv(st, p, pre, w, post) && (q == Held(Undefined) || q == ItemParts([]))
    ensures Post(st, st', p, pre, w, post, [w[0], Last(w)])
    ensures st' == st.(children := pre + [w[0], Last(w)] + post, parts := st.parts[p := st.parts[p].(previous := q)])
  {
    var st1 := Clear(st, p, pre, w, post);
    st' := st1.(parts := st.parts[p := st.parts[p].(previous := q)]);
    ReachSelf(st.parts, p);
    assert Reach(st'.parts, p) == {p};
  }

  /** The first item part (es/index.js:1331-1342 with `partIndex` 0): a new part on the owner's
      own markers, holding `undefined`. */
  method AddFirstItem(st: State, p: nat, ghost pre: seq<Node>, ghost w: seq<Node>, ghost post: seq<Node>)
    returns (st': State)
    requires Inv(st, p, pre, w, post) && st.parts[p].previous == ItemParts([])
    ensures Post(st, st', p, pre, w, post, w)
    ensures st' == st.(parts := st.parts[p := st.parts[p].(previous := ItemParts([|st.parts|]))]
                                + [Part(st.parts[p].start, st.parts[p].end, Held(Undefined))])
  {
    var n := |st.parts|;
    var parts := st.parts[p := st.parts[p].(previous := ItemParts([n]))] + [Part(st.parts[p].start, st.parts[p].end, Held(Undefined))];
    st' := st.(parts := parts);
    assert Split(w, Ends(parts, [n])) == [w];
    assert Reach(parts, n) == {n};
    assert WF(parts, st.text, n, w);
    assert Reach(parts, p) == {p, n};
    ReachSelf(st.parts, p);
  }

  /** Changing an iterable's part itself leaves its item parts, what they reach, and the
      windows they own alone. */
  lemma OwnerAside(parts: seq<Part>, text: map<nat, string>, p: nat, w: seq<Node>, x: Part, j: nat)
    requires p < |parts| && WF(parts, text, p, w) && parts[p].previous.ItemParts?
    requires parts[p].previous.items != [] && j < |parts[p].previous.items|
    ensures var items := parts[p].previous.items; var parts0 := parts[p := x];
      items[j] < |parts| && p !in Reach(parts, items[j])
      && Reach(parts0, items[j]) == Reach(parts, items[j])
      && WF(parts0, text, items[j], Split(w, Ends(parts, items))[j])
  {
    var items := parts[p].previous.items;
    var parts0 := parts[p := x];
    var ws := Split(w, Ends(parts, items));
    assert WF(parts, text, items[j], ws[j]);
    ReachBounds(parts, items[j]);
    WFClosed(parts, text, items[j], ws[j]);
    ReachFrame(parts, parts0, items[j]);
    WFFrame(parts, parts0, text, text, items[j], ws[j]);
  }

  /** Where the nodes after item window `k - 1` stand: from its end marker up to the owner's
      end marker. */
  lemma TruncateWindows(ws: seq<seq<Node>>, k: nat, pre: seq<Node>, w: seq<Node>, post: seq<Node>, c: seq<Node>)
    requires Chained(ws) && 0 < k < |ws| && Glue(ws) == w && c == pre + w + post
    ensures c == (pre + Lead(ws, k)) + (ws[k] + Trail(ws, k)) + post
    ensures |ws[k] + Trail(ws, k)| >= 2 && (ws[k] + Trail(ws, k))[0] == Last(ws[k - 1])
    ensures Last(ws[k] + Trail(ws, k)) == Last(w)
    ensures (pre + Lead(ws, k)) + [Last(w)] + post == pre + (Lead(ws, k) + [Last(w)]) + post
    ensures |Lead(ws, k)| >= 1 && Lead(ws, k)[0] == w[0] && w == Lead(ws, k) + (ws[k] + Trail(ws, k))
  {
    var l := Lead(ws, k);
    var r := ws[k] + Trail(ws, k);
    assert w == l + r by {
      GlueAround(ws, k);
    }
    assert |l| >= 1 by {
      assert l == Lead(ws, k - 1) + Init(ws[k - 1]);
    }
    ConcatEnds(l, r);
    ConcatAssoc(pre, l, r, post);
    ConcatAssoc(pre, l, [Last(w)], post);
  }

  /** Changing an iterable's part itself leaves every item part owning its window, the item
      parts reaching disjoint parts, and the separators empty. */
  lemma OwnerAsideAll(parts: seq<Part>, text: map<nat, string>, p: nat, w: seq<Node>, x: Part)
    requires p < |parts| && WF(parts, text, p, w) && parts[p].previous.ItemParts?
    requires parts[p].previous.items != []
    ensures var items := parts[p].previous.items; var parts0 := parts[p := x];
      var ws := Split(w, Ends(parts, items));
      |ws| == |items|
      && (forall j :: 0 <= j < |items| ==> items[j] < |parts| && p !in Reach(parts, items[j]) && WF(parts0, text, items[j], ws[j]))
      && (forall j :: 0 <= j < |items| ==> Reach(parts0, items[j]) == Reach(parts, items[j]))
      && (forall a, b :: 0 <= a < b < |items| ==> Reach(parts0, items[a]) !! Reach(parts0, items[b]))
      && (forall j :: 0 <= j < |items| - 1 ==> EmptyText(text, parts0[items[j]].end))
  {
    var items := parts[p].previous.items;
    var parts0 := parts[p := x];
    forall j | 0 <= j < |items|
      ensures items[j] < |parts| && p !in Reach(parts, items[j]) && Reach(parts0, items[j]) == Reach(parts, items[j])
      ensures WF(parts0, text, items[j], Split(w, Ends(parts, items))[j])
    {
      OwnerAside(parts, text, p, w, x, j);
    }
    HeadDisjoint(parts, parts0, items, |items|);
    assert items[..|items|] == items;
    forall j | 0 <= j < |items| - 1 ensures EmptyText(text, parts0[items[j]].end) {
      assert EmptyText(text, parts[items[j]].end);
    }
  }

  /** An iterable's part with only its first `k` item parts, ending where item part `k - 1`
      ends, owns the nodes before window `k` and that end. */
  lemma TruncateHead(parts0: seq<Part>, text: map<nat, string>, p: nat, w: seq<Node>, k: nat,
                     items: seq<nat>, ends: seq<Node>, ws: seq<seq<Node>>)
    requires p < |parts0| && 0 < k < |items| == |ws| == |ends|
    requires Chained(ws) && EndsFirst(ws, ends) && Glue(ws) == w
    requires parts0[p].previous == ItemParts(items[..k]) && parts0[p].end == Last(ws[k - 1])
    requires parts0[p].start == w[0] && parts0[p].start.Created? && ItemsAbove(parts0, p)
    requires forall j :: 0 <= j < |items| ==> items[j] < |parts0| && parts0[items[j]].end == ends[j]
    requires forall j :: 0 <= j < |items| ==> WF(parts0, text, items[j], ws[j])
    requires forall a, b :: 0 <= a < b < |items| ==> Reach(parts0, items[a]) !! Reach(parts0, items[b])
    requires forall j :: 0 <= j < |items| - 1 ==> EmptyText(text, parts0[items[j]].end)
    ensures WF(parts0, text, p, Lead(ws, k) + [Last(ws[k - 1])])
  {
    var w0 := Lead(ws, k) + [Last(ws[k - 1])];
    EndsPrefix(parts0, items, ends, k);
    PrefixTiling(ws, ends, k);
    TruncateWindows(ws, k, [], w, [], w);
    assert EmptyText(text, parts0[items[k - 1]].end);
    HeadEmpty(parts0, text, items, k);
    HeadDisjoint(parts0, parts0, items, k);
    HeadItems(parts0, text, items, ws, k);
    WFItemsIntro(parts0, text, p, w0, items[..k], ws[..k]);
  }

  lemma EndsPrefix(parts: seq<Part>, items: seq<nat>, ends: seq<Node>, k: nat)
    requires k <= |items| == |ends|
    requires forall j :: 0 <= j < |items| ==> items[j] < |parts| && parts[items[j]].end == ends[j]
    ensures Ends(parts, items[..k]) == ends[..k]
  {
  }

  lemma HeadEmpty(parts: seq<Part>, text: map<nat, string>, items: seq<nat>, k: nat)
    requires k <= |items| && forall j :: 0 <= j < |items| ==> items[j] < |parts|
    requires forall j :: 0 <= j < |items| - 1 ==> EmptyText(text, parts[items[j]].end)
    ensures forall j :: 0 <= j < k - 1 ==> EmptyText(text, parts[items[..k][j]].end)
  {
    forall j | 0 <= j < k - 1 ensures EmptyText(text, parts[items[..k][j]].end) {
      assert items[..k][j] == items[j];
    }
  }

  lemma HeadDisjoint(parts: seq<Part>, parts0: seq<Part>, items: seq<nat>, k: nat)
    requires k <= |items| && forall j :: 0 <= j < |items| ==> items[j] < |parts| && items[j] < |parts0|
    requires forall j :: 0 <= j < |items| ==> Reach(parts0, items[j]) == Reach(parts, items[j])
    requires forall a, b :: 0 <= a < b < |items| ==> Reach(parts, items[a]) !! Reach(parts, items[b])
    ensures forall a, b :: 0 <= a < b < k ==> Reach(parts0, items[..k][a]) !! Reach(parts0, items[..k][b])
  {
    forall a, b | 0 <= a < b < k ensures Reach(parts0, items[..k][a]) !! Reach(parts0, items[..k][b]) {
      assert items[..k][a] == items[a] && items[..k][b] == items[b];
    }
  }

  lemma HeadItems(parts: seq<Part>, text: map<nat, string>, items: seq<nat>, ws: seq<seq<Node>>, k: nat)
    requires k <= |items| == |ws| && forall j :: 0 <= j < |items| ==> items[j] < |parts|
    requires forall j :: 0 <= j < |items| ==> WF(parts, text, items[j], ws[j])
    ensures forall j :: 0 <= j < k ==> WF(parts, text, items[..k][j], ws[..k][j])
  {
    forall j | 0 <= j < k ensures WF(parts, text, items[..k][j], ws[..k][j]) {
      assert items[..k][j] == items[j] && ws[..k][j] == ws[j];
    }
  }

  /** `itemParts.length = partIndex; this.clear(lastPart.endNode.previousSibling);
      lastPart.endNode = this.endNode` (es/index.js:1351-1357): item parts from `k` on are
      dropped, the nodes from item part `k - 1`'s end marker up to the owner's end marker are
      removed, and the end markers of item part `k - 1`, and of the parts ending where it
      ends, move to the owner's end marker. */
  method Truncate(st: State, p: nat, k: nat, ghost pre: seq<Node>, ghost w: seq<Node>, ghost post: seq<Node>)
    returns (st': State, ghost w': seq<Node>)
    requires Inv(st, p, pre, w, post) && st.parts[p].previous.ItemParts? && 0 < k < |st.parts[p].previous.items|
    ensures Post(st, st', p, pre, w, post, w')
    ensures var items := st.parts[p].previous.items;
      |st'.parts| == |st.parts| && st'.parts[p].previous == ItemParts(items[..k])
      && st'.text == st.text && st'.nextId == st.nextId
      && |w'| < |w| && w'[..|w'| - 1] == w[..|w'| - 1] && Last(w') == Last(w)
    ensures var items := st.parts[p].previous.items;
      forall j :: 0 <= j < k ==> AgreePrev(st.parts, st'.parts, Reach(st.parts, items[j]))
  {
    var items := st.parts[p].previous.items;
    var last := items[k - 1];
    ghost var ws := Split(w, Ends(st.parts, items));
    ItemInv(st, p, pre, w, post, k, ws);
    TruncateWindows(ws, k, pre, w, post, st.children);
    TruncateSeparator(st.parts, st.text, p, w, k, ws);
    var c := RemoveFrom(st.children, st.parts[last].end, st.parts[p].end,
                        pre + Lead(ws, k), ws[k] + Trail(ws, k), post, st.nextId);
    var parts1 := st.parts[p := st.parts[p].(previous := ItemParts(items[..k]))];
    st' := st.(children := c, parts := SetEndChain(parts1, last, st.parts[p].end));
    w' := Lead(ws, k) + [Last(w)];
    KeptPrefix(Lead(ws, k), ws[k] + Trail(ws, k), w, Last(w));
    TruncateInv(st, st', p, pre, w, post, k, ws);
    TruncateShape(st, st', p, pre, w, post, k);
  }

  /** After the truncation the owner owns the nodes before window `k` and its end marker, in
      the same place. */
  lemma TruncateInv(st: State, st': State, p: nat, pre: seq<Node>, w: seq<Node>, post: seq<Node>, k: nat, ws: seq<seq<Node>>)
    requires Inv(st, p, pre, w, post) && st.parts[p].previous.ItemParts? && 0 < k < |st.parts[p].previous.items|
    requires ws == Split(w, Ends(st.parts, st.parts[p].previous.items)) && Chained(ws) && Glue(ws) == w
    requires var items := st.parts[p].previous.items;
      st'.parts == SetEndChain(st.parts[p := st.parts[p].(previous := ItemParts(items[..k]))], items[k - 1], Last(w))
    requires st'.text == st.text && st'.nextId == st.nextId && ValidChildren(st'.children, st'.nextId)
    requires st'.children == (pre + Lead(ws, k)) + [Last(w)] + post
    ensures Inv(st', p, pre, Lead(ws, k) + [Last(w)], post)
  {
    TruncateWindows(ws, k, pre, w, post, st.children);
    TruncateWF(st.parts, st.text, p, w, k, ws);
  }

  /** The truncation is an operation on the owner's part, keeping the previous values of the
      item parts it keeps. */
  lemma TruncateShape(st: State, st': State, p: nat, pre: seq<Node>, w: seq<Node>, post: seq<Node>, k: nat)
    requires Inv(st, p, pre, w, post) && st.parts[p].previous.ItemParts? && 0 < k < |st.parts[p].previous.items|
    requires var items := st.parts[p].previous.items;
      st'.parts == SetEndChain(st.parts[p := st.parts[p].(previous := ItemParts(items[..k]))], items[k - 1], Last(w))
    requires st'.text == st.text && st'.nextId == st.nextId
    ensures Frame(st, st', p, pre, w, post)
    ensures var items := st.parts[p].previous.items;
      |st'.parts| == |st.parts| && st'.parts[p].previous == ItemParts(items[..k])
      && forall j :: 0 <= j < k ==> AgreePrev(st.parts, st'.parts, Reach(st.parts, items[j]))
  {
    var items := st.parts[p].previous.items;
    var parts1 := st.parts[p := st.parts[p].(previous := ItemParts(items[..k]))];
    OwnerAsideAll(st.parts, st.text, p, w, parts1[p]);
    TruncateFrame(st.parts, parts1, st'.parts, p, k, st.parts[p].end);
  }

  lemma KeptPrefix(l: seq<Node>, r: seq<Node>, w: seq<Node>, e: Node)
    requires w == l + r && |r| >= 2
    ensures |l + [e]| < |w| && (l + [e])[..|l|] == w[..|l|]
  {
    assert (l + [e])[..|l|] == l == w[..|l|];
  }

  /** Item part `k - 1`'s end marker is the created separator that starts window `k`. */
  lemma TruncateSeparator(parts: seq<Part>, text: map<nat, string>, p: nat, w: seq<Node>, k: nat, ws: seq<seq<Node>>)
    requires p < |parts| && WF(parts, text, p, w) && parts[p].previous.ItemParts?
    requires 0 < k < |parts[p].previous.items| && ws == Split(w, Ends(parts, parts[p].previous.items))
    requires |ws| == |parts[p].previous.items| && Chained(ws) && EndsFirst(ws, Ends(parts, parts[p].previous.items))
    ensures var items := parts[p].previous.items;
      items[k - 1] < |parts| && parts[items[k - 1]].end == Last(ws[k - 1]) == ws[k][0]
      && parts[items[k - 1]].end.Created? && parts[p].end.Created?
  {
    var items := parts[p].previous.items;
    assert EmptyText(text, parts[items[k - 1]].end);
  }

  /** After the truncation the owner owns the nodes before window `k` and its end marker. */
  lemma TruncateWF(parts: seq<Part>, text: map<nat, string>, p: nat, w: seq<Node>, k: nat, ws: seq<seq<Node>>)
    requires p < |parts| && WF(parts, text, p, w) && parts[p].previous.ItemParts?
    requires 0 < k < |parts[p].previous.items| && ws == Split(w, Ends(parts, parts[p].previous.items))
    ensures var items := parts[p].previous.items;
      |ws| == |items| && Chained(ws)
      && WF(SetEndChain(parts[p := parts[p].(previous := ItemParts(items[..k]))], items[k - 1], Last(w)),
            text, p, Lead(ws, k) + [Last(w)])
  {
    var items := parts[p].previous.items;
    ItemsTiling(parts, text, p, w);
    TruncateWFPre(parts, text, p, w, k, ws);
    OwnerAsideAll(parts, text, p, w, Part(parts[p].start, Last(ws[k - 1]), ItemParts(items[..k])));
    var parts0 := parts[p := Part(parts[p].start, Last(ws[k - 1]), ItemParts(items[..k]))];
    TruncateHead(parts0, text, p, w, k, items, Ends(parts, items), ws);
    TruncateEndChain(parts, text, p, w, k, ws);
  }

  lemma TruncateWFPre(parts: seq<Part>, text: map<nat, string>, p: nat, w: seq<Node>, k: nat, ws: seq<seq<Node>>)
    requires p < |parts| && ItemsAbove(parts, p) && parts[p].previous.ItemParts?
    requires w != [] && w[0] == parts[p].start && parts[p].start.Created?
    requires 0 < k < |parts[p].previous.items| && ws == Split(w, Ends(parts, parts[p].previous.items))
    requires |ws| == |parts[p].previous.items| && Chained(ws)
    ensures var items := parts[p].previous.items; var ends := Ends(parts, items);
      var parts0 := parts[p := Part(parts[p].start, Last(ws[k - 1]), ItemParts(items[..k]))];
      p < |parts0| && parts0[p].previous == ItemParts(items[..k]) && parts0[p].end == Last(ws[k - 1])
      && parts0[p].start == w[0] && parts0[p].start.Created? && ItemsAbove(parts0, p)
      && (forall j :: 0 <= j < |items| ==> items[j] < |parts0| && parts0[items[j]].end == ends[j])
  {
    var items := parts[p].previous.items;
    var x := Part(parts[p].start, Last(ws[k - 1]), ItemParts(items[..k]));
    forall j | 0 <= j < |items| ensures items[j] != p {
      assert p < items[j];
    }
    ItemsAbovePrefix(parts, parts[p := x], p, k);
  }

  /** Keeping a prefix of the item parts keeps them above their owner. */
  lemma ItemsAbovePrefix(parts: seq<Part>, parts0: seq<Part>, p: nat, k: nat)
    requires p < |parts| == |parts0| && ItemsAbove(parts, p) && parts[p].previous.ItemParts?
    requires k <= |parts[p].previous.items| && parts0[p].previous == ItemParts(parts[p].previous.items[..k])
    ensures ItemsAbove(parts0, p)
  {
    var items := parts[p].previous.items;
    forall j | 0 <= j < k ensures p < items[..k][j] < |parts0| {
      assert items[..k][j] == items[j];
    }
  }

  lemma TruncateEndChain(parts: seq<Part>, text: map<nat, string>, p: nat, w: seq<Node>, k: nat, ws: seq<seq<Node>>)
    requires p < |parts| && parts[p].previous.ItemParts? && 0 < k < |parts[p].previous.items|
    requires |ws| == |parts[p].previous.items| && Chained(ws) && |w| >= 2 && Last(w) == parts[p].end
    requires parts[p].end.Created? && ItemsAbove(parts, p)
    requires var items := parts[p].previous.items;
      WF(parts[p := Part(parts[p].start, Last(ws[k - 1]), ItemParts(items[..k]))], text, p, Lead(ws, k) + [Last(ws[k - 1])])
    ensures var items := parts[p].previous.items;
      WF(SetEndChain(parts[p := parts[p].(previous := ItemParts(items[..k]))], items[k - 1], Last(w)),
         text, p, Lead(ws, k) + [Last(w)])
  {
    var items := parts[p].previous.items;
    var e := parts[p].end;
    var parts0 := parts[p := Part(parts[p].start, Last(ws[k - 1]), ItemParts(items[..k]))];
    var w0 := Lead(ws, k) + [Last(ws[k - 1])];
    var w1 := Lead(ws, k) + [Last(w)];
    assert LastReplaced(w0, w1, e);
    EndChainWF(parts0, text, p, w0, e, w1);
    assert parts0[p := parts0[p].(end := e)] == parts[p := parts[p].(previous := ItemParts(items[..k]))];
  }

  /** The truncation changes only parts the owner reaches, reaches no new part, and keeps
      the previous values of the item parts it keeps. */
  lemma TruncateFrame(parts: seq<Part>, parts1: seq<Part>, parts': seq<Part>, p: nat, k: nat, e: Node)
    requires p < |parts| && parts[p].previous.ItemParts? && 0 < k < |parts[p].previous.items| && ItemsAbove(parts, p)
    requires parts1 == parts[p := parts[p].(previous := ItemParts(parts[p].previous.items[..k]))]
    requires parts' == SetEndChain(parts1, parts[p].previous.items[k - 1], e)
    requires var items := parts[p].previous.items;
      forall j :: 0 <= j < |items| ==> items[j] < |parts| && p !in Reach(parts, items[j]) && Reach(parts1, items[j]) == Reach(parts, items[j])
    ensures |parts'| == |parts| && parts'[p] == parts1[p]
    ensures forall j :: 0 <= j < |parts| && j !in Reach(parts, p) ==> parts'[j] == parts[j]
    ensures forall r :: r in Reach(parts', p) ==> r in Reach(parts, p)
    ensures var items := parts[p].previous.items;
      forall j :: 0 <= j < k ==> AgreePrev(parts, parts', Reach(parts, items[j]))
  {
    var items := parts[p].previous.items;
    var last := items[k - 1];
    EndChainShape(parts1, last, e);
    ReachBounds(parts1, last);
    forall j | 0 <= j < |items| ensures Reach(parts, items[j]) <= Reach(parts, p) {
      ReachItem(parts, p, j);
    }
    ReachSelf(parts, p);
    forall j | 0 <= j < |parts| && j !in Reach(parts, p) ensures parts'[j] == parts[j] {
      assert j !in Reach(parts1, last);
    }
    forall m | 0 <= m < k ensures Reach(parts', items[m]) == Reach(parts, items[m]) {
      ReachSamePrevious(parts1, parts', items[m]);
    }
    forall r | r in Reach(parts', p) ensures r in Reach(parts, p) {
      if r != p {
        ReachCases(parts', p, r);
      }
    }
    forall j | 0 <= j < k ensures AgreePrev(parts, parts', Reach(parts, items[j])) {
      ReachBounds(parts, items[j]);
    }
  }

  /** A further item part (es/index.js:1331-1342 with `partIndex` above 0): a new empty text
      node is inserted before the owner's end marker, the end marker of the previous item part
      moves to it (with the end markers of the chain of last item parts below it, as
      `SetEndChain` says), and a new part runs from it to the owner's end marker, holding
      `undefined`. */
  method AddItemAfter(st: State, p: nat, ghost pre: seq<Node>, ghost w: seq<Node>, ghost post: seq<Node>)
    returns (st': State, ghost w': seq<Node>)
    requires Inv(st, p, pre, w, post) && st.parts[p].previous.ItemParts? && st.parts[p].previous.items != []
    ensures Post(st, st', p, pre, w, post, w')
    ensures w' == Init(w) + [Created(st.nextId), Last(w)]
    ensures var items := st.parts[p].previous.items;
      |st'.parts| == |st.parts| + 1 && st'.parts[p].previous == ItemParts(items + [|st.parts|])
      && st'.parts[|st.parts|] == Part(Created(st.nextId), Last(w), Held(Undefined))
      && st'.text == st.text[st.nextId := ""] && st'.nextId == st.nextId + 1
      && forall j :: 0 <= j < |items| ==> AgreePrev(st.parts, st'.parts, Reach(st.parts, items[j]))
  {
    var items := st.parts[p].previous.items;
    var n := |st.parts|;
    var sep := Created(st.nextId);
    ItemsShareEnd(st.parts, st.text, p, w);
    var st1 := Insert(st, p, sep, pre, w, post);
    var parts1 := SetEndChain(st.parts, Last(items), sep);
    var owner := Part(st.parts[p].start, st.parts[p].end, ItemParts(items + [n]));
    st' := st1.(text := st.text[sep.id := ""], nextId := st.nextId + 1,
                parts := parts1[p := owner] + [Part(sep, st.parts[p].end, Held(Undefined))]);
    w' := Init(w) + [sep, Last(w)];
    AddItemInv(st, st', p, pre, w, post);
    AddItemFrame(st, st', p, pre, w, post);
  }

  /** After adding an item part the owner owns its window with the new separator before its
      end marker. */
  lemma AddItemInv(st: State, st': State, p: nat, pre: seq<Node>, w: seq<Node>, post: seq<Node>)
    requires Inv(st, p, pre, w, post) && st.parts[p].previous.ItemParts? && st.parts[p].previous.items != []
    requires Last(st.parts[p].previous.items) < |st.parts|
    requires var items := st.parts[p].previous.items; var sep := Created(st.nextId);
      st'.parts == SetEndChain(st.parts, Last(items), sep)[p := Part(st.parts[p].start, st.parts[p].end, ItemParts(items + [|st.parts|]))]
                   + [Part(sep, st.parts[p].end, Held(Undefined))]
      && st'.text == st.text[st.nextId := ""] && st'.nextId == st.nextId + 1
      && st'.children == pre + (Init(w) + [sep, Last(w)]) + post
    ensures Inv(st', p, pre, Init(w) + [Created(st.nextId), Last(w)], post)
  {
    InsertFresh(pre, w, post, st.nextId);
    FreshNotIn(pre, w, post, st.nextId);
    AddItemWF(st.parts, st.text, p, w, Created(st.nextId));
  }

  /** The window an iterable's part owns after adding an item part after its last one. */
  lemma AddItemWF(parts: seq<Part>, text: map<nat, string>, p: nat, w: seq<Node>, sep: Node)
    requires p < |parts| && WF(parts, text, p, w) && parts[p].previous.ItemParts? && parts[p].previous.items != []
    requires sep.Created? && sep !in w
    ensures var items := parts[p].previous.items;
      Last(items) < |parts|
      && WF(SetEndChain(parts, Last(items), sep)[p := Part(parts[p].start, parts[p].end, ItemParts(items + [|parts|]))]
            + [Part(sep, parts[p].end, Held(Undefined))],
            text[sep.id := ""], p, Init(w) + [sep, Last(w)])
  {
    var items := parts[p].previous.items;
    var last := Last(items);
    var text' := text[sep.id := ""];
    ItemsShareEnd(parts, text, p, w);
    var w1 := Init(w) + [sep];
    var parts2 := SetEndChain(parts, p, sep);
    AddItemSeparator(parts, text, p, w, sep, w1);
    var owner := Part(parts[p].start, parts[p].end, ItemParts(items + [|parts|]));
    AddItemOwner(parts, p, sep, owner);
    assert Init(w1) == Init(w) && Last(w1) == sep;
    AppendItem(parts2, text', p, w1, Last(w));
    assert w1 + [Last(w)] == Init(w) + [sep, Last(w)];
  }

  /** Moving the owner's end chain to the separator makes it own its window up to the
      separator. */
  lemma AddItemSeparator(parts: seq<Part>, text: map<nat, string>, p: nat, w: seq<Node>, sep: Node, w1: seq<Node>)
    requires p < |parts| && WF(parts, text, p, w) && sep.Created? && sep !in w && w1 == Init(w) + [sep]
    ensures var r := SetEndChain(parts, p, sep);
      WF(r, text[sep.id := ""], p, w1) && r[p].previous == parts[p].previous && r[p].start == parts[p].start
  {
    var text' := text[sep.id := ""];
    forall x | x in w && x.Created? ensures TextKept(text, text', x.id) {
      assert x != sep;
    }
    ReachBounds(parts, p);
    WFFrame(parts, parts, text, text', p, w);
    assert LastReplaced(w, w1, sep);
    EndChainWF(parts, text', p, w, sep, w1);
    EndChainShape(parts, p, sep);
  }

  /** The chain moved from the owner is the chain moved from its last item part, once the
      owner itself is overwritten. */
  lemma AddItemOwner(parts: seq<Part>, p: nat, sep: Node, owner: Part)
    requires p < |parts| && parts[p].previous.ItemParts? && parts[p].previous.items != [] && ItemsAbove(parts, p)
    ensures Last(parts[p].previous.items) < |parts|
    ensures SetEndChain(parts, p, sep)[p := owner] == SetEndChain(parts, Last(parts[p].previous.items), sep)[p := owner]
  {
    var last := Last(parts[p].previous.items);
    assert SetEndChain(parts, p, sep) == SetEndChain(parts[p := parts[p].(end := sep)], last, sep);
    EndChainBelow(parts, last, p, parts[p].(end := sep), sep);
  }

  /** An iterable's part that ends at an empty separator, extended by an item part from that
      separator to a new end marker. */
  lemma AppendItem(parts: seq<Part>, text: map<nat, string>, p: nat, w: seq<Node>, e: Node)
    requires p < |parts| && WF(parts, text, p, w) && parts[p].previous.ItemParts? && parts[p].previous.items != []
    requires EmptyText(text, parts[p].end) && e.Created? && parts[p].end !in Init(w)
    ensures WF(parts[p := Part(parts[p].start, e, ItemParts(parts[p].previous.items + [|parts|]))]
               + [Part(parts[p].end, e, Held(Undefined))], text, p, w + [e])
  {
    var items := parts[p].previous.items;
    var x := Part(parts[p].start, e, ItemParts(items + [|parts|]));
    var ends := Ends(parts, items);
    ItemsTiling(parts, text, p, w);
    ItemsShareEnd(parts, text, p, w);
    OwnerAsideAll(parts, text, p, w, x);
    var parts0 := parts[p := x];
    forall j | 0 <= j < |items| ensures p < items[j] < |parts0| && parts0[items[j]].end == ends[j] {
      assert items[j] != p;
    }
    AppendTail(parts0, text, p, w, e, items, ends, Split(w, ends));
  }

  lemma AppendTail(parts0: seq<Part>, text: map<nat, string>, p: nat, w: seq<Node>, e: Node,
                   items: seq<nat>, ends: seq<Node>, ws: seq<seq<Node>>)
    requires p < |parts0| && |items| == |ws| == |ends| >= 1
    requires Chained(ws) && EndsFirst(ws, ends) && Glue(ws) == w
    requires parts0[p] == Part(w[0], e, ItemParts(items + [|parts0|])) && w[0].Created? && e.Created?
    requires forall j :: 0 <= j < |items| ==> p < items[j] < |parts0| && parts0[items[j]].end == ends[j]
    requires forall j :: 0 <= j < |items| ==> WF(parts0, text, items[j], ws[j])
    requires forall a, b :: 0 <= a < b < |items| ==> Reach(parts0, items[a]) !! Reach(parts0, items[b])
    requires forall j :: 0 <= j < |items| - 1 ==> EmptyText(text, ends[j])
    requires ends[|items| - 1] == Last(w) && EmptyText(text, Last(w)) && Last(w) !in Init(w)
    ensures WF(parts0 + [Part(Last(w), e, Held(Undefined))], text, p, w + [e])
  {
    var parts' := parts0 + [Part(Last(w), e, Held(Undefined))];
    var items' := items + [|parts0|];
    var ws' := ws + [[Last(w), e]];
    AppendTiling(ws, ends, e);
    AppendItems(parts0, text, items, ws, Last(w), e);
    assert Ends(parts', items') == ends + [e];
    assert ItemsAbove(parts', p);
    WFItemsIntro(parts', text, p, w + [e], items', ws');
  }

  /** The item parts keep their windows when a part is added, and the added one owns the
      window from `sep` to `e`. */
  lemma AppendItems(parts0: seq<Part>, text: map<nat, string>, items: seq<nat>, ws: seq<seq<Node>>, sep: Node, e: Node)
    requires |items| == |ws| >= 1
    requires forall j :: 0 <= j < |items| ==> items[j] < |parts0| && WF(parts0, text, items[j], ws[j])
    requires forall a, b :: 0 <= a < b < |items| ==> Reach(parts0, items[a]) !! Reach(parts0, items[b])
    requires forall j :: 0 <= j < |items| - 1 ==> EmptyText(text, parts0[items[j]].end)
    requires EmptyText(text, parts0[Last(items)].end) && EmptyText(text, sep) && e.Created?
    ensures var parts' := parts0 + [Part(sep, e, Held(Undefined))];
      var items' := items + [|parts0|]; var ws' := ws + [[sep, e]];
      (forall j :: 0 <= j < |items'| ==> items'[j] < |parts'| && WF(parts', text, items'[j], ws'[j]))
      && (forall a, b :: 0 <= a < b < |items'| ==> Reach(parts', items'[a]) !! Reach(parts', items'[b]))
      && (forall j :: 0 <= j < |items'| - 1 ==> EmptyText(text, parts'[items'[j]].end))
  {
    var n := |parts0|;
    var parts' := parts0 + [Part(sep, e, Held(Undefined))];
    var items' := items + [n];
    var ws' := ws + [[sep, e]];
    forall j | 0 <= j < |items|
      ensures Reach(parts', items[j]) == Reach(parts0, items[j]) && WF(parts', text, items[j], ws[j])
      ensures n !in Reach(parts0, items[j])
    {
      AppendKeeps(parts0, text, items[j], ws[j], Part(sep, e, Held(Undefined)));
      ReachBounds(parts0, items[j]);
    }
    assert Reach(parts', n) == {n};
    assert WF(parts', text, n, [sep, e]);
    forall j | 0 <= j < |items'| ensures items'[j] < |parts'| && WF(parts', text, items'[j], ws'[j]) {
      if j < |items| {
        assert items'[j] == items[j] && ws'[j] == ws[j];
      }
    }
    forall a, b | 0 <= a < b < |items'| ensures Reach(parts', items'[a]) !! Reach(parts', items'[b]) {
      assert items'[a] == items[a];
      if b < |items| {
        assert items'[b] == items[b];
      }
    }
    forall j | 0 <= j < |items'| - 1 ensures EmptyText(text, parts'[items'[j]].end) {
      assert items'[j] == items[j] && parts'[items[j]] == parts0[items[j]];
    }
  }

  /** Adding an item part changes only parts the owner reaches, reaches only those and the
      new part, keeps the previous values of the existing item parts, and keeps the texts
      around the window. */
  lemma AddItemFrame(st: State, st': State, p: nat, pre: seq<Node>, w: seq<Node>, post: seq<Node>)
    requires Inv(st, p, pre, w, post) && st.parts[p].previous.ItemParts? && st.parts[p].previous.items != []
    requires Last(st.parts[p].previous.items) < |st.parts|
    requires var items := st.parts[p].previous.items; var sep := Created(st.nextId);
      st'.parts == SetEndChain(st.parts, Last(items), sep)[p := Part(st.parts[p].start, st.parts[p].end, ItemParts(items + [|st.parts|]))]
                   + [Part(sep, st.parts[p].end, Held(Undefined))]
      && st'.text == st.text[st.nextId := ""] && st'.nextId == st.nextId + 1
    ensures Frame(st, st', p, pre, w, post)
    ensures var items := st.parts[p].previous.items;
      forall j :: 0 <= j < |items| ==> AgreePrev(st.parts, st'.parts, Reach(st.parts, items[j]))
  {
    var parts := st.parts;
    var items := parts[p].previous.items;
    var last := Last(items);
    var n := |parts|;
    var parts1 := SetEndChain(parts, last, Created(st.nextId));
    WFClosed(parts, st.text, p, w);
    AddItemShape(parts, p, parts1, st'.parts, Created(st.nextId));
    AroundHandedOut(st, pre, w, post);
  }

  lemma AddItemShape(parts: seq<Part>, p: nat, parts1: seq<Part>, parts': seq<Part>, sep: Node)
    requires p < |parts| && Closed(parts, p) && parts[p].previous.ItemParts? && parts[p].previous.items != []
    requires Last(parts[p].previous.items) < |parts| && parts1 == SetEndChain(parts, Last(parts[p].previous.items), sep)
    requires parts' == parts1[p := Part(parts[p].start, parts[p].end, ItemParts(parts[p].previous.items + [|parts|]))]
                       + [Part(sep, parts[p].end, Held(Undefined))]
    ensures |parts'| == |parts| + 1 && parts'[p].start == parts[p].start && parts'[p].end == parts[p].end
    ensures forall j :: 0 <= j < |parts| && j !in Reach(parts, p) ==> parts'[j] == parts[j]
    ensures forall r :: r in Reach(parts', p) ==> r in Reach(parts, p) || |parts| <= r
    ensures var items := parts[p].previous.items;
      forall j :: 0 <= j < |items| ==> AgreePrev(parts, parts', Reach(parts, items[j]))
  {
    var items := parts[p].previous.items;
    var m := |items|;
    var last := items[m - 1];
    var n := |parts|;
    EndChainShape(parts, last, sep);
    SetOwnerAppend(parts1, p, parts'[p], parts'[n], parts');
    ReachSelf(parts, p);
    forall j | 0 <= j < m
      ensures Reach(parts, items[j]) <= Reach(parts, p) && p !in Reach(parts, items[j]) && Closed(parts, items[j])
    {
      ReachItem(parts, p, j);
      ReachBounds(parts, items[j]);
    }
    forall j | 0 <= j < |parts| && j !in Reach(parts, p) ensures parts'[j] == parts[j] {
      assert j != p && j !in Reach(parts, last);
    }
    AddItemPrev(parts, parts1, parts', p, items);
    AddItemReach(parts, parts', p, items);
  }

  /** After adding an item part the owner reaches what it reached and the new part. */
  lemma AddItemReach(parts: seq<Part>, parts': seq<Part>, p: nat, items: seq<nat>)
    requires p < |parts| && |parts'| == |parts| + 1 && parts'[p].previous == ItemParts(items + [|parts|])
    requires parts'[|parts|].previous == Held(Undefined)
    requires forall j :: 0 <= j < |items| ==> items[j] < |parts| && Reach(parts', items[j]) == Reach(parts, items[j]) && Reach(parts, items[j]) <= Reach(parts, p)
    ensures forall r :: r in Reach(parts', p) ==> r in Reach(parts, p) || |parts| <= r
  {
    var n := |parts|;
    ReachSelf(parts, p);
    assert Reach(parts', n) == {n};
    forall r | r in Reach(parts', p) ensures r in Reach(parts, p) || n <= r {
      if r != p {
        ReachCases(parts', p, r);
        var k :| 0 <= k < |items| + 1 && r in Reach(parts', (items + [n])[k]);
        if k < |items| {
          assert (items + [n])[k] == items[k];
        }
      }
    }
  }

  lemma SetOwnerAppend(parts1: seq<Part>, p: nat, owner: Part, x: Part, parts': seq<Part>)
    requires p < |parts1| && parts' == parts1[p := owner] + [x]
    ensures |parts'| == |parts1| + 1 && parts'[p] == owner && parts'[|parts1|] == x
    ensures forall j :: 0 <= j < |parts1| && j != p ==> parts'[j] == parts1[j]
  {
  }

  /** The existing item parts record what they recorded and reach what they reached. */
  lemma AddItemPrev(parts: seq<Part>, parts1: seq<Part>, parts': seq<Part>, p: nat, items: seq<nat>)
    requires p < |parts| == |parts1| && |parts'| == |parts| + 1
    requires forall j :: 0 <= j < |parts| && j != p ==> parts'[j] == parts1[j]
    requires forall j :: 0 <= j < |parts| ==> parts1[j].previous == parts[j].previous
    requires forall j :: 0 <= j < |items| ==> items[j] < |parts| && p !in Reach(parts, items[j]) && Closed(parts, items[j])
    ensures forall j :: 0 <= j < |items| ==>
      AgreePrev(parts, parts', Reach(parts, items[j])) && Reach(parts', items[j]) == Reach(parts, items[j])
  {
    forall j | 0 <= j < |items|
      ensures AgreePrev(parts, parts', Reach(parts, items[j])) && Reach(parts', items[j]) == Reach(parts, items[j])
    {
      ReachBounds(parts, items[j]);
      forall r | r in Reach(parts, items[j]) ensures r < |parts| && parts'[r].previous == parts[r].previous {
        assert r != p && parts'[r] == parts1[r];
      }
      ReachFrame(parts, parts', items[j]);
    }
  }
}
