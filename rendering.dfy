/** `NodePart.setValue` (es/index.js:1238-1267) with `_setIterable` (es/index.js:1308-1358)
    and the continuation `_setPromise` registers (es/index.js:1359-1365): every call keeps
    the part owning a window in the same place, and leaves it recording what it rendered. */
module Rendering {
  import opened Values
  import opened Windows
  import opened Dom
  import opened NodeParts
  import opened NodePartOps
  import opened ItemParts

  /** `setValue(value)`: after `getValue`, `noChange` does nothing; a primitive equal to the
      previous value does nothing and any other primitive is shown as text; a template result,
      an iterable, a node and a promise go to their own steps; anything else is shown through
      its string form. */
  method SetValue(st: State, p: nat, v: Value, ghost pre: seq<Node>, ghost w: seq<Node>, ghost post: seq<Node>)
    returns (st': State, ghost w': seq<Node>)
    requires Inv(st, p, pre, w, post)
    ensures Post(st, st', p, pre, w, post, w') && Matches(st'.parts, p, v)
    ensures GetValue(v).NoChange? || (IsPrimitive(GetValue(v)) && st.parts[p].previous == Held(GetValue(v))) ==> st' == st
    decreases v, 2
  {
    var u := GetValue(v);
    if u.NoChange? {
      PostSame(st, p, pre, w, post);
      return st, w;
    }
    if IsPrimitive(u) {
      if st.parts[p].previous == Held(u) {
        PostSame(st, p, pre, w, post);
        return st, w;
      }
      st', w' := SetText(st, p, u, pre, w, post);
    } else if u.Template? {
      st', w' := SetTemplateResult(st, p, u, pre, w, post);
    } else if IsIterable(u) {
      st', w' := SetIterable(st, p, u, pre, w, post);
    } else if u.DomNode? {
      st', w' := SetNode(st, p, u, pre, w, post);
    } else if u.Thenable? {
      st' := SetPromise(st, p, u, pre, w, post);
      w' := w;
    } else {
      st', w' := SetText(st, p, u, pre, w, post);
    }
  }

  /** `_setIterable(value)`: a part not holding item parts is emptied and given an empty
      array of them; item `k` is rendered by item part `k`, created when missing; with no
      items the part is emptied and records `undefined`, and item parts beyond the items are
      dropped.  The item parts that existed are reused in order, and the ones after them are
      new parts. */
  method SetIterable(st: State, p: nat, u: Value, ghost pre: seq<Node>, ghost w: seq<Node>, ghost post: seq<Node>)
    returns (st': State, ghost w': seq<Node>)
    requires Inv(st, p, pre, w, post) && IsIterable(u)
    ensures Post(st, st', p, pre, w, post, w') && Matches(st'.parts, p, u)
    ensures u.items == [] ==> st'.parts[p].previous == Held(Undefined)
    ensures u.items != [] ==>
      st'.parts[p].previous.ItemParts? && |st'.parts[p].previous.items| == |u.items|
      && Reused(ItemsOf(st.parts[p].previous), st'.parts[p].previous.items, |st.parts|)
    decreases u, 1
  {
    var s := st;
    ghost var wc := w;
    PostSame(st, p, pre, w, post);
    if !s.parts[p].previous.ItemParts? {
      s := Reset(st, p, ItemParts([]), pre, w, post);
      wc := [w[0], Last(w)];
    }
    var k := 0;
    while k < |u.items|
      invariant Post(st, s, p, pre, w, post, wc) && s.parts[p].previous.ItemParts?
      invariant k <= |u.items| && k <= |s.parts[p].previous.items|
      invariant Done(s.parts, s.parts[p].previous.items, u.items, k)
      invariant var before := ItemsOf(st.parts[p].previous);
        |s.parts[p].previous.items| == (if k <= |before| then |before| else k)
        && Reused(before, s.parts[p].previous.items, |st.parts|)
      decreases |u.items| - k
    {
      s, wc := RenderItem(st, s, p, u, k, pre, w, post, wc);
      k := k + 1;
    }
    if k == 0 {
      st' := Reset(s, p, Held(Undefined), pre, wc, post);
      w' := [wc[0], Last(wc)];
      PostTrans(st, s, st', p, pre, post, w, wc, w');
    } else if k < |s.parts[p].previous.items| {
      st', w' := Truncate(s, p, k, pre, wc, post);
      DoneKept(s.parts, st'.parts, s.parts[p].previous.items, st'.parts[p].previous.items, u.items, k);
      PostTrans(st, s, st', p, pre, post, w, wc, w');
    } else {
      st', w' := s, wc;
    }
    DoneMatches(st', p, pre, w', post, u);
  }

  /** One round of `_setIterable`'s loop: item part `k` is created when missing, then
      renders item `k`, and the item parts before it go on rendering theirs. */
  method RenderItem(st: State, s: State, p: nat, u: Value, k: nat,
                    ghost pre: seq<Node>, ghost w: seq<Node>, ghost post: seq<Node>, ghost wc: seq<Node>)
    returns (s': State, ghost wc': seq<Node>)
    requires Inv(st, p, pre, w, post) && Post(st, s, p, pre, w, post, wc)
    requires s.parts[p].previous.ItemParts? && IsIterable(u)
    requires k < |u.items| && k <= |s.parts[p].previous.items|
    requires Done(s.parts, s.parts[p].previous.items, u.items, k)
    ensures Post(st, s', p, pre, w, post, wc') && s'.parts[p].previous.ItemParts?
    ensures k + 1 <= |s'.parts[p].previous.items|
    ensures Done(s'.parts, s'.parts[p].previous.items, u.items, k + 1)
    ensures var items := s.parts[p].previous.items;
      (k < |items| ==> s'.parts[p].previous.items == items)
      && (k == |items| ==> s'.parts[p].previous.items == items + [|s.parts|])
    decreases u, 0
  {
    var s1, w1 := EnsureItem(st, s, p, u, k, pre, w, post, wc);
    assert u.items[k] in u.items;
    var s2, w2 := SetItem(s1, p, k, u.items[k], pre, w1, post);
    DoneStep(s1.parts, s2.parts, s1.parts[p].previous.items, u.items, k);
    PostTrans(st, s1, s2, p, pre, post, w, w1, w2);
    s', wc' := s2, w2;
  }

  /** Item part `k` is created when the part holds only `k` of them. */
  method EnsureItem(st: State, s: State, p: nat, u: Value, k: nat,
                    ghost pre: seq<Node>, ghost w: seq<Node>, ghost post: seq<Node>, ghost wc: seq<Node>)
    returns (s': State, ghost wc': seq<Node>)
    requires Inv(st, p, pre, w, post) && Post(st, s, p, pre, w, post, wc)
    requires s.parts[p].previous.ItemParts? && IsIterable(u)
    requires k < |u.items| && k <= |s.parts[p].previous.items|
    requires Done(s.parts, s.parts[p].previous.items, u.items, k)
    ensures Post(st, s', p, pre, w, post, wc') && s'.parts[p].previous.ItemParts?
    ensures k < |s'.parts[p].previous.items|
    ensures Done(s'.parts, s'.parts[p].previous.items, u.items, k)
    ensures k < |s.parts[p].previous.items| ==> s' == s
    ensures k == |s.parts[p].previous.items| ==> s'.parts[p].previous.items == s.parts[p].previous.items + [|s.parts|]
  {
    s', wc' := s, wc;
    if k == |s.parts[p].previous.items| {
      if k == 0 {
        s' := AddFirstItem(s, p, pre, wc, post);
      } else {
        s', wc' := AddItemAfter(s, p, pre, wc, post);
        DoneKept(s.parts, s'.parts, s.parts[p].previous.items, s'.parts[p].previous.items, u.items, k);
      }
      PostTrans(st, s, s', p, pre, post, w, wc, wc');
    }
  }

  /** Item part `k` renders `item` in the window the tiling gives it, leaving the owner and
      the other item parts alone. */
  method SetItem(s: State, p: nat, k: nat, item: Value, ghost pre: seq<Node>, ghost w: seq<Node>, ghost post: seq<Node>)
    returns (s': State, ghost w': seq<Node>)
    requires Inv(s, p, pre, w, post) && s.parts[p].previous.ItemParts? && k < |s.parts[p].previous.items|
    ensures Post(s, s', p, pre, w, post, w') && s'.parts[p] == s.parts[p]
    ensures var items := s.parts[p].previous.items;
      items[k] < |s'.parts| && Matches(s'.parts, items[k], item)
      && forall j :: 0 <= j < |items| && j != k ==> Agree(s.parts, s'.parts, Reach(s.parts, items[j]))
    decreases item, 3
  {
    var items := s.parts[p].previous.items;
    ghost var ws := Split(w, Ends(s.parts, items));
    ItemInv(s, p, pre, w, post, k, ws);
    ghost var v;
    s', v := SetValue(s, items[k], item, pre + Lead(ws, k), ws[k], Trail(ws, k) + post);
    w' := Lead(ws, k) + v + Trail(ws, k);
    ItemStep(s, s', p, pre, w, post, k, ws, v, ws[k := v], w');
  }

  /** The promise's continuation (es/index.js:1362-1364): the resolved value is set only if
      the part still records that promise. */
  method Resolve(st: State, p: nat, promise: Value, v: Value, ghost pre: seq<Node>, ghost w: seq<Node>, ghost post: seq<Node>)
    returns (st': State, ghost w': seq<Node>)
    requires Inv(st, p, pre, w, post)
    ensures Post(st, st', p, pre, w, post, w')
    ensures var prev := st.parts[p].previous;
      (prev.Held? && StrictEq(prev.value, promise) ==> Matches(st'.parts, p, v))
      && (!(prev.Held? && StrictEq(prev.value, promise)) ==> st' == st)
  {
    var prev := st.parts[p].previous;
    if prev.Held? && StrictEq(prev.value, promise) {
      st', w' := SetValue(st, p, v, pre, w, post);
    } else {
      PostSame(st, p, pre, w, post);
      st', w' := st, w;
    }
  }

  /** The item parts `_previousValue` holds: none unless it is an array of them. */
  function ItemsOf(q: Previous): seq<nat>
  {
    if q.ItemParts? then q.items else []
  }

  /** `items'` starts with the item parts of `items` that it has room for, and every later one
      is a part created after the first `created` parts. */
  ghost predicate Reused(items: seq<nat>, items': seq<nat>, created: nat)
  {
    forall j :: 0 <= j < |items'| ==> (j < |items| ==> items'[j] == items[j]) && (|items| <= j ==> created <= items'[j])
  }

  /** The first `k` item parts render the first `k` items. */
  ghost predicate Done(parts: seq<Part>, items: seq<nat>, values: seq<Value>, k: nat)
  {
    k <= |items| && k <= |values|
    && forall j :: 0 <= j < k ==> items[j] < |parts| && Matches(parts, items[j], values[j])
  }

  /** Keeping the previous values of the first `k` item parts' reach, and the parts at their
      positions, keeps them rendering their items. */
  lemma DoneKept(parts: seq<Part>, parts': seq<Part>, items: seq<nat>, items': seq<nat>, values: seq<Value>, k: nat)
    requires Done(parts, items, values, k) && k <= |items'|
    requires forall j :: 0 <= j < k ==> items'[j] == items[j] && AgreePrev(parts, parts', Reach(parts, items[j]))
    ensures Done(parts', items', values, k)
  {
    forall j | 0 <= j < k ensures items'[j] < |parts'| && Matches(parts', items'[j], values[j]) {
      MatchesFrame(parts, parts', items[j], values[j]);
    }
  }

  /** Rendering item `k` while the others keep their reach extends the rendered prefix. */
  lemma DoneStep(parts: seq<Part>, parts': seq<Part>, items: seq<nat>, values: seq<Value>, k: nat)
    requires Done(parts, items, values, k) && k < |items| && k < |values|
    requires items[k] < |parts'| && Matches(parts', items[k], values[k])
    requires forall j :: 0 <= j < |items| ==> items[j] < |parts|
    requires forall j :: 0 <= j < |items| && j != k ==> Agree(parts, parts', Reach(parts, items[j]))
    ensures Done(parts', items, values, k + 1)
  {
    forall j | 0 <= j < k ensures items[j] < |parts'| && Matches(parts', items[j], values[j]) {
      assert AgreePrev(parts, parts', Reach(parts, items[j]));
      MatchesFrame(parts, parts', items[j], values[j]);
    }
  }

  /** A part whose item parts render all the items, one each, renders the iterable. */
  lemma DoneMatches(st: State, p: nat, pre: seq<Node>, w: seq<Node>, post: seq<Node>, u: Value)
    requires Inv(st, p, pre, w, post) && IsIterable(u)
    requires u.items == [] ==> st.parts[p].previous == Held(Undefined)
    requires u.items != [] ==>
      st.parts[p].previous.ItemParts? && |st.parts[p].previous.items| == |u.items|
      && Done(st.parts, st.parts[p].previous.items, u.items, |u.items|)
    ensures Matches(st.parts, p, u)
  {
  }
}
