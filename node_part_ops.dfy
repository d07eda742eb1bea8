/** `NodePart.setValue` and the operations it dispatches to (es/index.js:1238-1368), as steps
    from one `State` to the next.  Every operation on part `p` is given the stretch of children
    before its window (`pre`), the window `w` it owns and the stretch after it (`post`), and
    returns the window it owns afterwards. */
module NodePartOps {
  import opened Values
  import opened Windows
  import opened Dom
  import opened NodeParts

  /** Part `p` owns window `w`, standing between `pre` and `post` in a valid state. */
  ghost predicate Inv(st: State, p: nat, pre: seq<Node>, w: seq<Node>, post: seq<Node>)
  {
    Valid(st) && p < |st.parts| && st.children == pre + w + post && WF(st.parts, st.text, p, w)
  }

  /** The children around the inside of window `w`: its markers and the stretches beside it. */
  ghost function Around(pre: seq<Node>, w: seq<Node>, post: seq<Node>): seq<Node>
    requires |w| >= 1
  {
    pre + [w[0], Last(w)] + post
  }

  /** What an operation on part `p` leaves alone: no part is dropped and no identity reused;
      the part keeps its markers; parts not reachable from it are unchanged; the parts it
      reaches afterwards are ones it reached or new ones; and the text nodes around its window
      keep their contents. */
  ghost predicate Frame(st: State, st': State, p: nat, pre: seq<Node>, w: seq<Node>, post: seq<Node>)
  {
    p < |st.parts| <= |st'.parts| && st.nextId <= st'.nextId && |w| >= 2
    && st'.parts[p].start == st.parts[p].start && st'.parts[p].end == st.parts[p].end
    && (forall j :: 0 <= j < |st.parts| && j !in Reach(st.parts, p) ==> st'.parts[j] == st.parts[j])
    && (forall j :: j in Reach(st'.parts, p) ==> j in Reach(st.parts, p) || |st.parts| <= j)
    && (forall x :: x in Around(pre, w, post) && x.Created? ==> TextKept(st.text, st'.text, x.id))
  }

  /** An operation on part `p` took it from owning `w` to owning `w'` in the same place. */
  ghost predicate Post(st: State, st': State, p: nat, pre: seq<Node>, w: seq<Node>, post: seq<Node>, w': seq<Node>)
  {
    Frame(st, st', p, pre, w, post) && Inv(st', p, pre, w', post)
  }

  /** An operation keeps the first and last nodes of the window, and the one after it keeps
      the last node unique among the children. */
  lemma PostMarkers(st: State, st': State, p: nat, pre: seq<Node>, w: seq<Node>, post: seq<Node>, w': seq<Node>)
    requires Inv(st, p, pre, w, post) && Post(st, st', p, pre, w, post, w')
    ensures |w'| >= 2 && w'[0] == w[0] && Last(w') == Last(w) && NotInside(w', Last(w))
  {
    CreatedOnce(pre, w', post, st'.nextId, |w'| - 1);
  }

  /** Doing nothing is an operation. */
  lemma PostSame(st: State, p: nat, pre: seq<Node>, w: seq<Node>, post: seq<Node>)
    requires Inv(st, p, pre, w, post)
    ensures Post(st, st, p, pre, w, post, w)
  {
  }

  /** Two operations on the same part, one after the other, are one operation. */
  lemma {:induction false} PostTrans(st1: State, st2: State, st3: State, p: nat, pre: seq<Node>, post: seq<Node>,
                                     w1: seq<Node>, w2: seq<Node>, w3: seq<Node>)
    requires Inv(st1, p, pre, w1, post)
    requires Post(st1, st2, p, pre, w1, post, w2) && Post(st2, st3, p, pre, w2, post, w3)
    ensures Post(st1, st3, p, pre, w1, post, w3)
  {
    assert Around(pre, w2, post) == Around(pre, w1, post);
    forall j | 0 <= j < |st1.parts| && j !in Reach(st1.parts, p) ensures st3.parts[j] == st1.parts[j] {
      assert j !in Reach(st2.parts, p);
    }
  }

  /** `clear()` (es/index.js:1367): removes the children between the part's markers. */
  method Clear(st: State, p: nat, ghost pre: seq<Node>, ghost w: seq<Node>, ghost post: seq<Node>) returns (st': State)
    requires Valid(st) && p < |st.parts| && st.children == pre + w + post && |w| >= 2
    requires w[0] == st.parts[p].start && Last(w) == st.parts[p].end && w[0].Created? && Last(w).Created?
    ensures st' == st.(children := pre + [w[0], Last(w)] + post) && Valid(st')
  {
    Locate(pre, w, post, st.nextId);
    var c := RemoveNodes(st.children, Find(st.children, st.parts[p].start) + 1, st.parts[p].end);
    RemovedInside(pre, w, post, c);
    ReplaceInside(pre, w, post, st.nextId, [], st.nextId);
    assert [w[0]] + [] + [Last(w)] == [w[0], Last(w)];
    st' := st.(children := c);
  }

  /** `_insert(node)` (es/index.js:1268-1270): puts `n` just before the part's end marker. */
  method Insert(st: State, p: nat, n: Node, ghost pre: seq<Node>, ghost w: seq<Node>, ghost post: seq<Node>) returns (st': State)
    requires Valid(st) && p < |st.parts| && st.children == pre + w + post && |w| >= 2
    requires w[0] == st.parts[p].start && Last(w) == st.parts[p].end && w[0].Created? && Last(w).Created?
    ensures st' == st.(children := pre + (Init(w) + [n, Last(w)]) + post)
  {
    Locate(pre, w, post, st.nextId);
    var c := InsertBefore(st.children, n, st.parts[p].end);
    InsertedBefore(pre, w, post, n);
    st' := st.(children := c);
  }

  /** A node around a window is one of the children. */
  lemma AroundWithin(pre: seq<Node>, w: seq<Node>, post: seq<Node>, x: Node)
    requires |w| >= 1 && x in Around(pre, w, post)
    ensures x in pre + w + post
  {
    if x !in pre && x !in post {
      assert x == w[0] || x == Last(w);
    }
  }

  /** The identities of the nodes around a window of a valid state were handed out. */
  lemma AroundHandedOut(st: State, pre: seq<Node>, w: seq<Node>, post: seq<Node>)
    requires Valid(st) && st.children == pre + w + post && |w| >= 1
    ensures forall x :: x in Around(pre, w, post) && x.Created? ==> x.id < st.nextId
  {
    forall x | x in Around(pre, w, post) && x.Created? ensures x.id < st.nextId {
      AroundWithin(pre, w, post, x);
    }
  }

  /** Putting one node between the markers of a part that does not hold item parts, changing
      nothing but that part's previous value, the texts of new identities, and handing out
      new identities, is an operation. */
  lemma {:induction false} PostSingle(st: State, st': State, p: nat, pre: seq<Node>, w: seq<Node>, post: seq<Node>, n: Node)
    requires Inv(st, p, pre, w, post)
    requires st'.children == pre + [w[0], n, Last(w)] + post
    requires |st'.parts| == |st.parts| && st'.parts[p].start == st.parts[p].start && st'.parts[p].end == st.parts[p].end
    requires !st'.parts[p].previous.ItemParts?
    requires forall j :: 0 <= j < |st.parts| && j != p ==> st'.parts[j] == st.parts[j]
    requires st.nextId <= st'.nextId && (n.Created? ==> st.nextId <= n.id < st'.nextId)
    requires forall id: nat :: id < st.nextId ==> TextKept(st.text, st'.text, id)
    requires forall id :: id in st'.text ==> id < st'.nextId
    requires WF(st'.parts, st'.text, p, [w[0], n, Last(w)])
    ensures Post(st, st', p, pre, w, post, [w[0], n, Last(w)])
  {
    ReplaceInside(pre, w, post, st.nextId, [n], st'.nextId);
    assert [w[0]] + [n] + [Last(w)] == [w[0], n, Last(w)];
    ReachSelf(st.parts, p);
    assert Reach(st'.parts, p) == {p};
    AroundHandedOut(st, pre, w, post);
  }

  /** `_setNode(value)` with the caller's node (es/index.js:1271-1277): unless the part holds
      that very node already, the part's children are replaced by it. */
  method SetNode(st: State, p: nat, u: Value, ghost pre: seq<Node>, ghost w: seq<Node>, ghost post: seq<Node>)
    returns (st': State, ghost w': seq<Node>)
    requires Inv(st, p, pre, w, post) && u.DomNode?
    ensures Post(st, st', p, pre, w, post, w') && Matches(st'.parts, p, u)
    ensures var prev := st.parts[p].previous;
      (prev.Held? && StrictEq(prev.value, u) ==> st' == st)
      && (!(prev.Held? && StrictEq(prev.value, u)) ==>
            w' == [w[0], Supplied(u.ref), Last(w)] && st'.parts[p].previous == Held(u)
            && st'.text == st.text && st'.nextId == st.nextId)
  {
    var prev := st.parts[p].previous;
    if prev.Held? && StrictEq(prev.value, u) {
      PostSame(st, p, pre, w, post);
      return st, w;
    }
    var st1 := Clear(st, p, pre, w, post);
    var st2 := Insert(st1, p, Supplied(u.ref), pre, [w[0], Last(w)], post);
    st' := st2.(parts := st.parts[p := st.parts[p].(previous := Held(u))]);
    w' := [w[0], Supplied(u.ref), Last(w)];
    assert Init([w[0], Last(w)]) + [Supplied(u.ref), Last(w)] == w';
    PostSingle(st, st', p, pre, w, post, Supplied(u.ref));
  }

  /** `_setPromise(value)` (es/index.js:1359-1361): the part records the promise and leaves
      its children as they are. */
  method SetPromise(st: State, p: nat, u: Value, ghost pre: seq<Node>, ghost w: seq<Node>, ghost post: seq<Node>)
    returns (st': State)
    requires Inv(st, p, pre, w, post) && u.Thenable?
    ensures Post(st, st', p, pre, w, post, w) && Matches(st'.parts, p, u)
    ensures st' == st.(parts := st.parts[p := st.parts[p].(previous := Held(u))])
  {
    st' := st.(parts := st.parts[p := st.parts[p].(previous := Held(u))]);
    ReachSelf(st.parts, p);
    assert Reach(st'.parts, p) == {p};
  }

  /** The test `_setText` makes (es/index.js:1279-1283): the node after the start marker is
      the node before the end marker and a text node exactly when the window holds one text
      node the engine created. */
  lemma SingleText(st: State, pre: seq<Node>, w: seq<Node>, post: seq<Node>)
    requires Valid(st) && st.children == pre + w + post && |w| >= 2 && w[0].Created? && Last(w).Created?
    ensures var c := st.children; var a := |pre|; var b := |pre| + |w| - 1;
      a + 1 <= b
      && ((c[a + 1] == c[b - 1] && c[a + 1].Created? && c[a + 1].id in st.text)
          <==> (|w| == 3 && w[1].Created? && w[1].id in st.text))
  {
    var c := st.children;
    assert c[|pre| + 1] == w[1] && c[|pre| + |w| - 2] == w[|w| - 2];
    if |w| == 2 {
      CreatedOnce(pre, w, post, st.nextId, 0);
    } else if |w| > 3 && w[1].Created? {
      CreatedOnce(pre, w, post, st.nextId, 1);
    }
  }

  /** Giving the one text node of a window new contents, and recording the value, is an
      operation. */
  lemma {:induction false} PostRetext(st: State, st': State, p: nat, pre: seq<Node>, w: seq<Node>, post: seq<Node>, v: Value)
    requires Inv(st, p, pre, w, post) && |w| == 3 && w[1].Created? && w[1].id in st.text && ShownAsText(v)
    requires st'.children == st.children && st'.nextId == st.nextId
    requires st'.text == st.text[w[1].id := ToString(v)]
    requires st'.parts == st.parts[p := st.parts[p].(previous := Held(v))]
    ensures Post(st, st', p, pre, w, post, w)
  {
    ReachSelf(st.parts, p);
    assert Reach(st'.parts, p) == {p};
    CreatedOnce(pre, w, post, st.nextId, 1);
    assert Around(pre, w, post) == pre + [w[0], w[2]] + post;
  }

  /** `_setText(value)` (es/index.js:1278-1294): a window holding just one text node gets the
      new string as that node's contents; any other window is emptied and given a new text
      node.  Either way the part shows the string form of the value, `''` for `undefined`.
      Only a text node the engine created counts as one here: a node the caller supplied
      carries no kind and no contents in this model. */
  method SetText(st: State, p: nat, u: Value, ghost pre: seq<Node>, ghost w: seq<Node>, ghost post: seq<Node>)
    returns (st': State, ghost w': seq<Node>)
    requires Inv(st, p, pre, w, post) && ShownAsText(TextValue(u))
    ensures Post(st, st', p, pre, w, post, w')
    ensures st'.parts[p].previous == Held(TextValue(u))
    ensures |w'| == 3 && w'[1].Created? && w'[1].id in st'.text && st'.text[w'[1].id] == ToString(TextValue(u))
    ensures |w| == 3 && w[1].Created? && w[1].id in st.text ==> w' == w && st'.nextId == st.nextId
    ensures !(|w| == 3 && w[1].Created? && w[1].id in st.text) ==> w'[1] == Created(st.nextId) && st'.nextId == st.nextId + 1
  {
    Locate(pre, w, post, st.nextId);
    SingleText(st, pre, w, post);
    var a := Find(st.children, st.parts[p].start);
    var b := Find(st.children, st.parts[p].end);
    var node := st.children[a + 1];
    var value := TextValue(u);
    if node == st.children[b - 1] && node.Created? && node.id in st.text {
      st' := st.(text := st.text[node.id := ToString(value)],
                 parts := st.parts[p := st.parts[p].(previous := Held(value))]);
      w' := w;
      PostRetext(st, st', p, pre, w, post, value);
    } else {
      st', w' := NewText(st, p, value, pre, w, post);
    }
  }

  /** The other branch of `_setText`: `_setNode(document.createTextNode(value))`
      (es/index.js:1291). */
  method NewText(st: State, p: nat, value: Value, ghost pre: seq<Node>, ghost w: seq<Node>, ghost post: seq<Node>)
    returns (st': State, ghost w': seq<Node>)
    requires Inv(st, p, pre, w, post) && ShownAsText(value)
    ensures Post(st, st', p, pre, w, post, w')
    ensures st'.parts[p].previous == Held(value) && st'.nextId == st.nextId + 1
    ensures w' == [w[0], Created(st.nextId), Last(w)] && st'.text == st.text[st.nextId := ToString(value)]
  {
    var n := Created(st.nextId);
    var st1 := Clear(st, p, pre, w, post);
    var st2 := Insert(st1, p, n, pre, [w[0], Last(w)], post);
    st' := st2.(text := st.text[n.id := ToString(value)], nextId := st.nextId + 1,
                parts := st.parts[p := st.parts[p].(previous := Held(value))]);
    w' := [w[0], n, Last(w)];
    assert Init([w[0], Last(w)]) + [n, Last(w)] == w';
    assert WF(st'.parts, st'.text, p, w');
    PostSingle(st, st', p, pre, w, post, n);
  }

  /** `_setTemplateResult(value)` (es/index.js:1295-1307): a part already holding an instance
      of the result's template keeps it; otherwise its children are replaced by the clone of
      a new instance, shown here as one new node that is not a text node.  Templates are
      known by the identity of their literal's strings. */
  method SetTemplateResult(st: State, p: nat, u: Value, ghost pre: seq<Node>, ghost w: seq<Node>, ghost post: seq<Node>)
    returns (st': State, ghost w': seq<Node>)
    requires Inv(st, p, pre, w, post) && u.Template?
    ensures Post(st, st', p, pre, w, post, w') && st'.parts[p].previous == InstanceOf(u.strings)
    ensures st.parts[p].previous == InstanceOf(u.strings) ==> st' == st
    ensures st.parts[p].previous != InstanceOf(u.strings) ==>
      w' == [w[0], Created(st.nextId), Last(w)] && st'.text == st.text && st'.nextId == st.nextId + 1
  {
    if st.parts[p].previous == InstanceOf(u.strings) {
      PostSame(st, p, pre, w, post);
      return st, w;
    }
    var n := Created(st.nextId);
    var st1 := Clear(st, p, pre, w, post);
    var st2 := Insert(st1, p, n, pre, [w[0], Last(w)], post);
    st' := st2.(nextId := st.nextId + 1, parts := st.parts[p := st.parts[p].(previous := InstanceOf(u.strings))]);
    w' := [w[0], n, Last(w)];
    assert Init([w[0], Last(w)]) + [n, Last(w)] == w';
    PostSingle(st, st', p, pre, w, post, n);
  }

  /** The item windows of an iterable's part tile its window; item `k` owns its window, with
      the windows before it and after it added to the stretches beside it. */
  lemma ItemInv(st: State, p: nat, pre: seq<Node>, w: seq<Node>, post: seq<Node>, k: nat, ws: seq<seq<Node>>)
    requires Inv(st, p, pre, w, post) && st.parts[p].previous.ItemParts? && k < |st.parts[p].previous.items|
    requires ws == Split(w, Ends(st.parts, st.parts[p].previous.items))
    ensures var items := st.parts[p].previous.items;
      |ws| == |items| && Chained(ws) && EndsFirst(ws, Ends(st.parts, items)) && Glue(ws) == w
      && Inv(st, items[k], pre + Lead(ws, k), ws[k], Trail(ws, k) + post)
  {
    var items := st.parts[p].previous.items;
    ItemsTiling(st.parts, st.text, p, w);
    GlueAround(ws, k);
    Regroup(pre, Lead(ws, k), ws[k], Trail(ws, k), post);
    assert WF(st.parts, st.text, items[k], ws[k]);
  }

  /** An operation on item part `k` of part `p` leaves the other item parts, and what they
      reach, alone. */
  lemma StepSibling(parts: seq<Part>, parts': seq<Part>, text: map<nat, string>, p: nat, w: seq<Node>, k: nat, j: nat)
    requires p < |parts| && WF(parts, text, p, w) && parts[p].previous.ItemParts?
    requires k < |parts[p].previous.items| && j < |parts[p].previous.items| && j != k
    requires |parts| <= |parts'|
    requires var i := parts[p].previous.items[k];
      i < |parts| && forall r :: 0 <= r < |parts| && r !in Reach(parts, i) ==> parts'[r] == parts[r]
    ensures var items := parts[p].previous.items;
      items[j] < |parts| && Agree(parts, parts', Reach(parts, items[j]))
      && Reach(parts', items[j]) == Reach(parts, items[j])
  {
    var items := parts[p].previous.items;
    ReachBounds(parts, items[j]);
    var a, b := if j < k then j else k, if j < k then k else j;
    assert Reach(parts, items[a]) !! Reach(parts, items[b]);
    forall r | r in Reach(parts, items[j])
      ensures r < |parts| && r < |parts'| && parts'[r] == parts[r]
    {
      assert r !in Reach(parts, items[k]);
    }
    assert Agree(parts, parts', Reach(parts, items[j]));
    WFClosed(parts, text, p, w);
    ReachItem(parts, p, j);
    ReachFrame(parts, parts', items[j]);
  }

  /** What an operation on item part `k` of part `p` does to what `p` reaches. */
  lemma StepReach(parts: seq<Part>, parts': seq<Part>, text: map<nat, string>, p: nat, w: seq<Node>, k: nat)
    requires p < |parts| && WF(parts, text, p, w) && parts[p].previous.ItemParts?
    requires k < |parts[p].previous.items| && |parts| <= |parts'|
    requires var i := parts[p].previous.items[k];
      i < |parts| && (forall r :: 0 <= r < |parts| && r !in Reach(parts, i) ==> parts'[r] == parts[r])
      && (forall r :: r in Reach(parts', i) ==> r in Reach(parts, i) || |parts| <= r)
    ensures var items := parts[p].previous.items;
      parts'[p] == parts[p]
      && (forall r :: 0 <= r < |parts| && r !in Reach(parts, p) ==> parts'[r] == parts[r])
      && (forall j :: 0 <= j < |items| && j != k ==> Agree(parts, parts', Reach(parts, items[j])))
      && (forall a, b :: 0 <= a < b < |items| ==> Reach(parts', items[a]) !! Reach(parts', items[b]))
      && (forall r :: r in Reach(parts', p) ==> r in Reach(parts, p) || |parts| <= r)
  {
    var items := parts[p].previous.items;
    ReachSelf(parts, p);
    ReachBounds(parts, items[k]);
    ReachItem(parts, p, k);
    StepAgree(parts, parts', text, p, w, k);
    StepDisjoint(parts, parts', text, p, w, k);
    StepOwnerReach(parts, parts', p, k);
  }

  lemma StepAgree(parts: seq<Part>, parts': seq<Part>, text: map<nat, string>, p: nat, w: seq<Node>, k: nat)
    requires p < |parts| && WF(parts, text, p, w) && parts[p].previous.ItemParts?
    requires k < |parts[p].previous.items| && |parts| <= |parts'|
    requires var i := parts[p].previous.items[k];
      i < |parts| && forall r :: 0 <= r < |parts| && r !in Reach(parts, i) ==> parts'[r] == parts[r]
    ensures var items := parts[p].previous.items;
      forall j :: 0 <= j < |items| && j != k ==>
        items[j] < |parts| && Agree(parts, parts', Reach(parts, items[j]))
        && Reach(parts', items[j]) == Reach(parts, items[j])
  {
    var items := parts[p].previous.items;
    forall j | 0 <= j < |items| && j != k
      ensures items[j] < |parts| && Agree(parts, parts', Reach(parts, items[j]))
      ensures Reach(parts', items[j]) == Reach(parts, items[j])
    {
      StepSibling(parts, parts', text, p, w, k, j);
    }
  }

  lemma StepDisjoint(parts: seq<Part>, parts': seq<Part>, text: map<nat, string>, p: nat, w: seq<Node>, k: nat)
    requires p < |parts| && WF(parts, text, p, w) && parts[p].previous.ItemParts?
    requires k < |parts[p].previous.items| && |parts| <= |parts'|
    requires var items := parts[p].previous.items;
      items[k] < |parts|
      && (forall r :: r in Reach(parts', items[k]) ==> r in Reach(parts, items[k]) || |parts| <= r)
      && forall j :: 0 <= j < |items| && j != k ==> items[j] < |parts| && Reach(parts', items[j]) == Reach(parts, items[j])
    ensures var items := parts[p].previous.items;
      forall a, b :: 0 <= a < b < |items| ==> Reach(parts', items[a]) !! Reach(parts', items[b])
  {
    var items := parts[p].previous.items;
    forall a, b | 0 <= a < b < |items| ensures Reach(parts', items[a]) !! Reach(parts', items[b]) {
      assert Reach(parts, items[a]) !! Reach(parts, items[b]);
      ReachBounds(parts, items[a]);
      ReachBounds(parts, items[b]);
    }
  }

  lemma StepOwnerReach(parts: seq<Part>, parts': seq<Part>, p: nat, k: nat)
    requires p < |parts| && ItemsAbove(parts, p) && parts[p].previous.ItemParts?
    requires k < |parts[p].previous.items| && |parts| <= |parts'| && parts'[p] == parts[p]
    requires var items := parts[p].previous.items;
      items[k] < |parts|
      && (forall r :: r in Reach(parts', items[k]) ==> r in Reach(parts, items[k]) || |parts| <= r)
      && forall j :: 0 <= j < |items| && j != k ==> items[j] < |parts| && Reach(parts', items[j]) == Reach(parts, items[j])
    ensures forall r :: r in Reach(parts', p) ==> r in Reach(parts, p) || |parts| <= r
  {
    var items := parts[p].previous.items;
    ReachSelf(parts, p);
    forall r | r in Reach(parts', p) ensures r in Reach(parts, p) || |parts| <= r {
      if r != p {
        ReachCases(parts', p, r);
        var m :| 0 <= m < |items| && r in Reach(parts', items[m]);
        ReachItem(parts, p, m);
      }
    }
  }

  /** The text nodes an operation on item window `k` keeps: those of the other item windows,
      the ends of all item windows, and those around the owner's window. */
  lemma StepText(ws: seq<seq<Node>>, k: nat, pre: seq<Node>, post: seq<Node>, w: seq<Node>,
                 text: map<nat, string>, text': map<nat, string>)
    requires Chained(ws) && k < |ws| && Glue(ws) == w
    requires forall x :: x in Around(pre + Lead(ws, k), ws[k], Trail(ws, k) + post) && x.Created? ==> TextKept(text, text', x.id)
    ensures forall j :: 0 <= j < |ws| && j != k ==> TextAgree(text, text', ws[j])
    ensures forall j :: 0 <= j < |ws| && Last(ws[j]).Created? ==> TextKept(text, text', Last(ws[j]).id)
    ensures forall x :: x in Around(pre, w, post) && x.Created? ==> TextKept(text, text', x.id)
  {
    var around := Around(pre + Lead(ws, k), ws[k], Trail(ws, k) + post);
    forall j, x | 0 <= j < |ws| && j != k && x in ws[j] ensures x in around {
      if j < k {
        InLead(ws, k, j, x);
      } else {
        InTrail(ws, k, j, x);
      }
    }
    forall j | 0 <= j < |ws| ensures Last(ws[j]) in around {
      if j != k {
        assert Last(ws[j]) in ws[j];
      }
    }
    GlueFirstWindow(ws);
    assert w[0] == ws[0][0];
    forall x | x in Around(pre, w, post) ensures x in around {
      if x == w[0] {
        if k != 0 {
          assert x in ws[0];
        }
      } else if x == Last(w) {
        assert x == Last(ws[|ws| - 1]);
      }
    }
  }

  /** After an operation on item part `k`, with the other item parts and their texts left
      alone, every item part owns its window of the new tiling. */
  lemma ItemStepItems(s: State, s': State, p: nat, w: seq<Node>, k: nat, ws: seq<seq<Node>>, v: seq<Node>, ws': seq<seq<Node>>)
    requires p < |s.parts| && WF(s.parts, s.text, p, w) && s.parts[p].previous.ItemParts?
    requires k < |s.parts[p].previous.items| && |s.parts| <= |s'.parts|
    requires ws == Split(w, Ends(s.parts, s.parts[p].previous.items)) && |ws| == |s.parts[p].previous.items|
    requires Replaced(ws, ws', k, v)
    requires var items := s.parts[p].previous.items;
      items[k] < |s'.parts| && WF(s'.parts, s'.text, items[k], v)
      && (forall j :: 0 <= j < |items| && j != k ==> Agree(s.parts, s'.parts, Reach(s.parts, items[j])))
      && (forall j :: 0 <= j < |ws| && j != k ==> TextAgree(s.text, s'.text, ws[j]))
    ensures var items := s.parts[p].previous.items;
      forall j :: 0 <= j < |items| ==> items[j] < |s'.parts| && WF(s'.parts, s'.text, items[j], ws'[j])
  {
    var items := s.parts[p].previous.items;
    forall j | 0 <= j < |items| ensures items[j] < |s'.parts| && WF(s'.parts, s'.text, items[j], ws'[j]) {
      if j != k {
        assert WF(s.parts, s.text, items[j], ws[j]);
        WFFrame(s.parts, s'.parts, s.text, s'.text, items[j], ws[j]);
      }
    }
  }

  /** After an operation on item part `k`, the separators keep their empty text and the item
      parts keep their end markers. */
  lemma ItemStepEnds(s: State, s': State, p: nat, w: seq<Node>, k: nat, ws: seq<seq<Node>>)
    requires p < |s.parts| && WF(s.parts, s.text, p, w) && s.parts[p].previous.ItemParts?
    requires k < |s.parts[p].previous.items| && |s.parts| <= |s'.parts|
    requires ws == Split(w, Ends(s.parts, s.parts[p].previous.items))
    requires var items := s.parts[p].previous.items;
      |ws| == |items| && Chained(ws) && EndsFirst(ws, Ends(s.parts, items))
      && items[k] < |s.parts| && s'.parts[items[k]].end == s.parts[items[k]].end
      && (forall j :: 0 <= j < |items| && j != k ==> Agree(s.parts, s'.parts, Reach(s.parts, items[j])))
      && (forall j :: 0 <= j < |ws| && Last(ws[j]).Created? ==> TextKept(s.text, s'.text, Last(ws[j]).id))
    ensures var items := s.parts[p].previous.items;
      Ends(s'.parts, items) == Ends(s.parts, items)
      && forall j :: 0 <= j < |items| - 1 ==> EmptyText(s'.text, s'.parts[items[j]].end)
  {
    var items := s.parts[p].previous.items;
    forall j | 0 <= j < |items| ensures items[j] < |s'.parts| && s'.parts[items[j]].end == s.parts[items[j]].end {
      if j != k {
        ReachSelf(s.parts, items[j]);
      }
    }
    assert Ends(s'.parts, items) == Ends(s.parts, items);
    forall j | 0 <= j < |items| - 1 ensures EmptyText(s'.text, s'.parts[items[j]].end) {
      assert EmptyText(s.text, s.parts[items[j]].end);
      assert Last(ws[j]) == s.parts[items[j]].end;
    }
  }

  /** An operation on item part `k` of an iterable's part `p`, in the window the tiling gives
      it, is an operation on `p` that leaves its other item parts alone. */
  lemma {:induction false} ItemStep(s: State, s': State, p: nat, pre: seq<Node>, w: seq<Node>, post: seq<Node>, k: nat,
                                    ws: seq<seq<Node>>, v: seq<Node>, ws': seq<seq<Node>>, w': seq<Node>)
    requires Inv(s, p, pre, w, post) && s.parts[p].previous.ItemParts? && k < |s.parts[p].previous.items|
    requires ws == Split(w, Ends(s.parts, s.parts[p].previous.items)) && Chained(ws) && |ws| == |s.parts[p].previous.items|
    requires Post(s, s', s.parts[p].previous.items[k], pre + Lead(ws, k), ws[k], Trail(ws, k) + post, v)
    requires Replaced(ws, ws', k, v) && w' == Lead(ws, k) + v + Trail(ws, k)
    ensures Post(s, s', p, pre, w, post, w') && s'.parts[p] == s.parts[p]
    ensures var items := s.parts[p].previous.items;
      forall j :: 0 <= j < |items| && j != k ==> Agree(s.parts, s'.parts, Reach(s.parts, items[j]))
  {
    ItemInv(s, p, pre, w, post, k, ws);
    ItemStepWF(s, s', p, pre, w, post, k, ws, v, ws', w');
    Regroup(pre, Lead(ws, k), v, Trail(ws, k), post);
  }

  lemma {:induction false} ItemStepWF(s: State, s': State, p: nat, pre: seq<Node>, w: seq<Node>, post: seq<Node>, k: nat,
                                      ws: seq<seq<Node>>, v: seq<Node>, ws': seq<seq<Node>>, w': seq<Node>)
    requires Inv(s, p, pre, w, post) && s.parts[p].previous.ItemParts? && k < |s.parts[p].previous.items|
    requires ws == Split(w, Ends(s.parts, s.parts[p].previous.items)) && Chained(ws) && |ws| == |s.parts[p].previous.items|
    requires Post(s, s', s.parts[p].previous.items[k], pre + Lead(ws, k), ws[k], Trail(ws, k) + post, v)
    requires Replaced(ws, ws', k, v) && w' == Lead(ws, k) + v + Trail(ws, k)
    ensures Frame(s, s', p, pre, w, post) && s'.parts[p] == s.parts[p] && WF(s'.parts, s'.text, p, w')
    ensures var items := s.parts[p].previous.items;
      forall j :: 0 <= j < |items| && j != k ==> Agree(s.parts, s'.parts, Reach(s.parts, items[j]))
  {
    ItemStepFrame(s, s', p, pre, w, post, k, ws, v);
    ItemStepShape(s, s', p, w, k, ws, v, ws', w');
  }

  /** The frame of an operation on item part `k`, seen as an operation on its owner `p`. */
  lemma {:induction false} ItemStepFrame(s: State, s': State, p: nat, pre: seq<Node>, w: seq<Node>, post: seq<Node>, k: nat,
                                         ws: seq<seq<Node>>, v: seq<Node>)
    requires Inv(s, p, pre, w, post) && s.parts[p].previous.ItemParts? && k < |s.parts[p].previous.items|
    requires ws == Split(w, Ends(s.parts, s.parts[p].previous.items)) && Chained(ws) && |ws| == |s.parts[p].previous.items|
    requires Post(s, s', s.parts[p].previous.items[k], pre + Lead(ws, k), ws[k], Trail(ws, k) + post, v)
    ensures Frame(s, s', p, pre, w, post) && s'.parts[p] == s.parts[p]
    ensures var items := s.parts[p].previous.items;
      EndsFirst(ws, Ends(s.parts, items)) && Glue(ws) == w
      && items[k] < |s'.parts| && WF(s'.parts, s'.text, items[k], v)
      && |v| >= 2 && v[0] == ws[k][0] && Last(v) == Last(ws[k]) && NotInside(v, Last(ws[k]))
      && s'.parts[items[k]].end == s.parts[items[k]].end
      && (forall j :: 0 <= j < |items| && j != k ==> Agree(s.parts, s'.parts, Reach(s.parts, items[j])))
      && (forall a, b :: 0 <= a < b < |items| ==> Reach(s'.parts, items[a]) !! Reach(s'.parts, items[b]))
      && (forall j :: 0 <= j < |ws| && j != k ==> TextAgree(s.text, s'.text, ws[j]))
      && (forall j :: 0 <= j < |ws| && Last(ws[j]).Created? ==> TextKept(s.text, s'.text, Last(ws[j]).id))
  {
    var items := s.parts[p].previous.items;
    ItemInv(s, p, pre, w, post, k, ws);
    StepReach(s.parts, s'.parts, s.text, p, w, k);
    StepText(ws, k, pre, post, w, s.text, s'.text);
    PostMarkers(s, s', items[k], pre + Lead(ws, k), ws[k], Trail(ws, k) + post, v);
  }

  /** The owner `p` of item part `k` owns the new tiling once item `k` owns its new window
      and the other item parts, their texts and the separators are left alone. */
  lemma {:induction false} ItemStepShape(s: State, s': State, p: nat, w: seq<Node>, k: nat,
                                         ws: seq<seq<Node>>, v: seq<Node>, ws': seq<seq<Node>>, w': seq<Node>)
    requires p < |s.parts| <= |s'.parts| && WF(s.parts, s.text, p, w) && s.parts[p].previous.ItemParts?
    requires k < |s.parts[p].previous.items| && s'.parts[p] == s.parts[p]
    requires ws == Split(w, Ends(s.parts, s.parts[p].previous.items)) && Chained(ws) && |ws| == |s.parts[p].previous.items|
    requires Replaced(ws, ws', k, v) && w' == Lead(ws, k) + v + Trail(ws, k)
    requires var items := s.parts[p].previous.items;
      EndsFirst(ws, Ends(s.parts, items)) && Glue(ws) == w
      && items[k] < |s'.parts| && WF(s'.parts, s'.text, items[k], v)
      && |v| >= 2 && v[0] == ws[k][0] && Last(v) == Last(ws[k]) && NotInside(v, Last(ws[k]))
      && s'.parts[items[k]].end == s.parts[items[k]].end
      && (forall j :: 0 <= j < |items| && j != k ==> Agree(s.parts, s'.parts, Reach(s.parts, items[j])))
      && (forall a, b :: 0 <= a < b < |items| ==> Reach(s'.parts, items[a]) !! Reach(s'.parts, items[b]))
      && (forall j :: 0 <= j < |ws| && j != k ==> TextAgree(s.text, s'.text, ws[j]))
      && (forall j :: 0 <= j < |ws| && Last(ws[j]).Created? ==> TextKept(s.text, s'.text, Last(ws[j]).id))
    ensures WF(s'.parts, s'.text, p, w')
  {
    var items := s.parts[p].previous.items;
    var ends := Ends(s.parts, items);
    if k + 1 < |ws| {
      assert Last(ws[k]) == ends[k];
    }
    StepWindows(ws, ends, k, v, ws', w, w');
    ItemStepItems(s, s', p, w, k, ws, v, ws');
    ItemStepEnds(s, s', p, w, k, ws);
    WFItemsIntro(s'.parts, s'.text, p, w', items, ws');
  }
}
