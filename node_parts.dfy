/** The state a `NodePart` (es/index.js:1231-1368) keeps and what it promises about it.

    Parts are objects that refer to each other (an iterable's part holds the array of its item
    parts), so they are kept in one sequence and referred to by their position in it: a value
    of `State` is the heap of parts together with the parent node's children.  A part owns the
    window of children from its start marker to its end marker; for an iterable, its item
    parts own consecutive windows that share the marker between them. */
module NodeParts {
  import opened Values
  import opened Windows
  import opened Dom

  /** What `_previousValue` holds: a value (a primitive, a caller-supplied node, a pending
      promise, or an object rendered through its string form), the array of item parts of an
      iterable, or the template instance of a template result, known by the identity of its
      literal's strings. */
  datatype Previous = Held(value: Value) | ItemParts(items: seq<nat>) | InstanceOf(strings: nat)

  /** A `NodePart`: `startNode`, `endNode` and `_previousValue`. */
  datatype Part = Part(start: Node, end: Node, previous: Previous)

  /** The parent node's children, the contents of the text nodes the engine created, the next
      identity a created node gets, and all parts. */
  datatype State = State(children: seq<Node>, text: map<nat, string>, nextId: nat, parts: seq<Part>)

  /** Created nodes are distinct and every identity in use was handed out already. */
  ghost predicate Valid(st: State)
  {
    ValidChildren(st.children, st.nextId) && (forall id :: id in st.text ==> id < st.nextId)
  }

  /** The item parts of an iterable's part were created after it. */
  predicate ItemsAbove(parts: seq<Part>, i: nat)
    requires i < |parts|
  {
    parts[i].previous.ItemParts? ==>
      forall k :: 0 <= k < |parts[i].previous.items| ==> i < parts[i].previous.items[k] < |parts|
  }

  /** The parts reachable from part `i` through item-part arrays, `i` included. */
  ghost function Reach(parts: seq<Part>, i: nat): set<nat>
    requires i < |parts|
    decreases |parts| - i
  {
    if parts[i].previous.ItemParts? && ItemsAbove(parts, i) then
      var items := parts[i].previous.items;
      {i} + (set k, r | 0 <= k < |items| && r in Reach(parts, items[k]) :: r)
    else {i}
  }

  /** The end markers of the item parts. */
  function Ends(parts: seq<Part>, items: seq<nat>): (r: seq<Node>)
    requires forall k :: 0 <= k < |items| ==> items[k] < |parts|
    ensures |r| == |items| && forall k :: 0 <= k < |items| ==> r[k] == parts[items[k]].end
  {
    if items == [] then [] else [parts[items[0]].end] + Ends(parts, items[1..])
  }

  /** Values `_setText` renders through their string form (besides `undefined`). */
  predicate ShownAsText(v: Value)
  {
    v.Bool? || v.Num? || v.Str? || v.Obj? || v.Func?
  }

  /** What a window holds when `_previousValue` is the value `v`: nothing for `undefined` (the
      initial state, or a cleared iterable), the supplied node for a node, anything for a
      pending promise, and one text node with the string form otherwise. */
  ghost predicate HeldShown(text: map<nat, string>, w: seq<Node>, v: Value)
  {
    match v
    case Undefined => |w| == 2
    case DomNode(r, _) => |w| == 3 && w[1] == Supplied(r)
    case Thenable(_, _) => true
    case _ => ShownAsText(v) && |w| == 3 && w[1].Created? && w[1].id in text && text[w[1].id] == ToString(v)
  }

  /** Part `i` owns window `w`: the window runs from its start marker to its end marker, and
      what lies between agrees with `_previousValue`.  The item parts of an iterable are
      reachable from no other item part and tile the window. */
  ghost predicate WF(parts: seq<Part>, text: map<nat, string>, i: nat, w: seq<Node>)
    requires i < |parts|
    decreases |parts| - i
  {
    var p := parts[i];
    |w| >= 2 && w[0] == p.start && Last(w) == p.end && p.start.Created? && p.end.Created?
    && ItemsAbove(parts, i)
    && match p.previous
       case Held(v) => HeldShown(text, w, v)
       case InstanceOf(_) => |w| == 3 && w[1].Created? && w[1].id !in text
       case ItemParts(items) =>
         if items == [] then |w| == 2
         else
           (forall a, b :: 0 <= a < b < |items| ==> Reach(parts, items[a]) !! Reach(parts, items[b]))
           && |Split(w, Ends(parts, items))| == |items|
           && (forall k :: 0 <= k < |items| - 1 ==> EmptyText(text, parts[items[k]].end))
           && forall k :: 0 <= k < |items| ==> WF(parts, text, items[k], Split(w, Ends(parts, items))[k])
  }

  /** `n` is a text node the engine created with the empty string: a separator between two
      item parts. */
  ghost predicate EmptyText(text: map<nat, string>, n: Node)
  {
    n.Created? && n.id in text && text[n.id] == ""
  }

  /** `_setText` stores `''` for `undefined`. */
  function TextValue(u: Value): Value
  {
    if u.Undefined? then Str("") else u
  }

  /** Part `i` records that it renders `v`: `_previousValue` is what `setValue(v)` leaves there,
      recursively for the items of an iterable.  A directive is left to itself. */
  ghost predicate Matches(parts: seq<Part>, i: nat, v: Value)
    requires i < |parts|
    decreases v
  {
    var u := GetValue(v);
    var prev := parts[i].previous;
    if u.NoChange? then true
    else if IsPrimitive(u) then prev == Held(u) || prev == Held(TextValue(u))
    else if u.Template? then prev == InstanceOf(u.strings)
    else if IsIterable(u) then
      if u.items == [] then prev == Held(Undefined)
      else
        prev.ItemParts? && ItemsAbove(parts, i) && |prev.items| == |u.items|
        && forall k :: 0 <= k < |u.items| ==> Matches(parts, prev.items[k], u.items[k])
    else if u.DomNode? then prev.Held? && StrictEq(prev.value, u)
    else prev == Held(u)
  }

  /** The parts in `r` are the same in both heaps. */
  ghost predicate Agree(parts: seq<Part>, parts': seq<Part>, r: set<nat>)
  {
    forall j :: j in r ==> j < |parts| && j < |parts'| && parts'[j] == parts[j]
  }

  /** The parts in `r` record the same previous values in both heaps. */
  ghost predicate AgreePrev(parts: seq<Part>, parts': seq<Part>, r: set<nat>)
  {
    forall j :: j in r ==> j < |parts| && j < |parts'| && parts'[j].previous == parts[j].previous
  }

  /** Node `id` is a text node in both maps or in neither, with the same contents. */
  ghost predicate TextKept(text: map<nat, string>, text': map<nat, string>, id: nat)
  {
    (id in text <==> id in text') && (id in text ==> text'[id] == text[id])
  }

  /** The text nodes created among `w` are unchanged. */
  ghost predicate TextAgree(text: map<nat, string>, text': map<nat, string>, w: seq<Node>)
  {
    forall x :: x in w && x.Created? ==> TextKept(text, text', x.id)
  }

  lemma ReachSelf(parts: seq<Part>, i: nat)
    requires i < |parts|
    ensures i in Reach(parts, i)
  {
  }

  /** The parts reachable from an item part are reachable from its owner. */
  lemma ReachItem(parts: seq<Part>, i: nat, k: nat)
    requires i < |parts| && ItemsAbove(parts, i) && parts[i].previous.ItemParts?
    requires k < |parts[i].previous.items|
    ensures Reach(parts, parts[i].previous.items[k]) <= Reach(parts, i)
  {
  }

  /** A reachable part is one of the owner, or reachable from one of its items. */
  lemma ReachCases(parts: seq<Part>, i: nat, r: nat)
    requires i < |parts| && r in Reach(parts, i) && r != i
    ensures parts[i].previous.ItemParts? && ItemsAbove(parts, i)
    ensures exists k :: 0 <= k < |parts[i].previous.items| && r in Reach(parts, parts[i].previous.items[k])
  {
  }

  /** The parts reachable from `i` were created no earlier than `i`. */
  lemma {:induction false} ReachBounds(parts: seq<Part>, i: nat)
    requires i < |parts|
    ensures forall r :: r in Reach(parts, i) ==> i <= r < |parts|
    decreases |parts| - i
  {
    if parts[i].previous.ItemParts? && ItemsAbove(parts, i) {
      var items := parts[i].previous.items;
      forall k | 0 <= k < |items| ensures forall r :: r in Reach(parts, items[k]) ==> i <= r < |parts| {
        ReachBounds(parts, items[k]);
      }
    }
  }

  /** Every part reachable from `i` has its item parts above it. */
  ghost predicate Closed(parts: seq<Part>, i: nat)
    requires i < |parts|
  {
    forall j :: j in Reach(parts, i) ==> j < |parts| && ItemsAbove(parts, j)
  }

  /** A part that owns its window has every reachable part's items above it. */
  lemma {:induction false} WFClosed(parts: seq<Part>, text: map<nat, string>, i: nat, w: seq<Node>)
    requires i < |parts| && WF(parts, text, i, w)
    ensures Closed(parts, i)
    decreases |parts| - i
  {
    ReachBounds(parts, i);
    if parts[i].previous.ItemParts? && parts[i].previous.items != [] {
      var items := parts[i].previous.items;
      var ws := Split(w, Ends(parts, items));
      forall k | 0 <= k < |items| ensures Closed(parts, items[k]) {
        WFClosed(parts, text, items[k], ws[k]);
      }
      forall j | j in Reach(parts, i) ensures ItemsAbove(parts, j) {
        if j != i {
          ReachCases(parts, i, j);
        }
      }
    }
  }

  /** What is reachable depends only on the previous values of the reachable parts. */
  lemma {:induction false} ReachFrame(parts: seq<Part>, parts': seq<Part>, i: nat)
    requires i < |parts| && Closed(parts, i) && AgreePrev(parts, parts', Reach(parts, i))
    ensures i < |parts'| && Reach(parts', i) == Reach(parts, i)
    decreases |parts| - i
  {
    ReachSelf(parts, i);
    if parts[i].previous.ItemParts? {
      var items := parts[i].previous.items;
      forall k | 0 <= k < |items| ensures items[k] < |parts'| && Reach(parts', items[k]) == Reach(parts, items[k]) {
        ReachItem(parts, i, k);
        ReachSelf(parts, items[k]);
        ReachFrame(parts, parts', items[k]);
      }
      assert ItemsAbove(parts', i);
    }
  }

  /** Heaps of the same size whose parts record the same previous values reach the same
      parts. */
  lemma {:induction false} ReachSamePrevious(parts: seq<Part>, parts': seq<Part>, i: nat)
    requires i < |parts| == |parts'|
    requires forall j :: 0 <= j < |parts| ==> parts'[j].previous == parts[j].previous
    ensures Reach(parts', i) == Reach(parts, i)
    decreases |parts| - i
  {
    if parts[i].previous.ItemParts? && ItemsAbove(parts, i) {
      var items := parts[i].previous.items;
      forall k | 0 <= k < |items| ensures Reach(parts', items[k]) == Reach(parts, items[k]) {
        ReachSamePrevious(parts, parts', items[k]);
      }
    }
  }

  /** Whether a part records a value depends only on the previous values of the reachable
      parts. */
  lemma {:induction false} MatchesFrame(parts: seq<Part>, parts': seq<Part>, i: nat, v: Value)
    requires i < |parts| && Matches(parts, i, v) && AgreePrev(parts, parts', Reach(parts, i))
    ensures i < |parts'| && Matches(parts', i, v)
    decreases v
  {
    ReachSelf(parts, i);
    var u := GetValue(v);
    if !u.NoChange? && !IsPrimitive(u) && !u.Template? && IsIterable(u) && u.items != [] {
      var items := parts[i].previous.items;
      forall k | 0 <= k < |u.items| ensures items[k] < |parts'| && Matches(parts', items[k], u.items[k]) {
        ReachItem(parts, i, k);
        ReachSelf(parts, items[k]);
        assert u.items[k] in u.items;
        MatchesFrame(parts, parts', items[k], u.items[k]);
      }
      assert ItemsAbove(parts', i);
    }
  }

  /** A part keeps its window when the reachable parts and the texts of the window's nodes
      are unchanged. */
  lemma {:induction false} WFFrame(parts: seq<Part>, parts': seq<Part>, text: map<nat, string>,
                                   text': map<nat, string>, i: nat, w: seq<Node>)
    requires i < |parts| && WF(parts, text, i, w)
    requires Agree(parts, parts', Reach(parts, i)) && TextAgree(text, text', w)
    ensures i < |parts'| && WF(parts', text', i, w)
    decreases |parts| - i, 2
  {
    ReachSelf(parts, i);
    if parts[i].previous.ItemParts? && parts[i].previous.items != [] {
      var items := parts[i].previous.items;
      WFFrameItems(parts, parts', text, text', i, w);
      WFFrameEach(parts, parts', text, text', i, w);
      WFItemsIntro(parts', text', i, w, items, Split(w, Ends(parts, items)));
    } else if |w| == 3 {
      assert w[1] in w;
    }
  }

  /** The item parts of a framed iterable's part are where they were and reach what they
      reached. */
  lemma {:induction false} WFFrameItems(parts: seq<Part>, parts': seq<Part>, text: map<nat, string>,
                                        text': map<nat, string>, i: nat, w: seq<Node>)
    requires i < |parts| && WF(parts, text, i, w)
    requires parts[i].previous.ItemParts? && parts[i].previous.items != []
    requires Agree(parts, parts', Reach(parts, i))
    ensures var items := parts[i].previous.items;
      i < |parts'| && parts'[i] == parts[i] && ItemsAbove(parts', i)
      && (forall a, b :: 0 <= a < b < |items| ==> Reach(parts', items[a]) !! Reach(parts', items[b]))
      && Split(w, Ends(parts', items)) == Split(w, Ends(parts, items)) && |Split(w, Ends(parts, items))| == |items|
  {
    ReachSelf(parts, i);
    var items := parts[i].previous.items;
    FrameItemsReach(parts, parts', text, i, w);
    assert Ends(parts', items) == Ends(parts, items);
  }

  /** Each item part of a framed part is where it was and reaches what it reached. */
  lemma FrameItemsReach(parts: seq<Part>, parts': seq<Part>, text: map<nat, string>, i: nat, w: seq<Node>)
    requires i < |parts| && WF(parts, text, i, w)
    requires parts[i].previous.ItemParts? && Agree(parts, parts', Reach(parts, i))
    ensures var items := parts[i].previous.items;
      forall k :: 0 <= k < |items| ==>
        items[k] < |parts'| && parts'[items[k]] == parts[items[k]] && Reach(parts', items[k]) == Reach(parts, items[k])
  {
    WFClosed(parts, text, i, w);
    var items := parts[i].previous.items;
    forall k | 0 <= k < |items|
      ensures items[k] < |parts'| && parts'[items[k]] == parts[items[k]]
      ensures Reach(parts', items[k]) == Reach(parts, items[k])
    {
      ReachItem(parts, i, k);
      ReachSelf(parts, items[k]);
      ReachFrame(parts, parts', items[k]);
    }
  }

  /** The item parts of a framed iterable's part own their windows, and the separators keep
      their empty text. */
  lemma {:induction false} WFFrameEach(parts: seq<Part>, parts': seq<Part>, text: map<nat, string>,
                                       text': map<nat, string>, i: nat, w: seq<Node>)
    requires i < |parts| && WF(parts, text, i, w)
    requires parts[i].previous.ItemParts? && parts[i].previous.items != []
    requires Agree(parts, parts', Reach(parts, i)) && TextAgree(text, text', w)
    ensures var items := parts[i].previous.items;
      (forall k :: 0 <= k < |items| - 1 ==> items[k] < |parts'| && EmptyText(text', parts'[items[k]].end))
      && (forall k :: 0 <= k < |items| ==> items[k] < |parts'| && WF(parts', text', items[k], Split(w, Ends(parts, items))[k]))
    decreases |parts| - i, 1
  {
    var items := parts[i].previous.items;
    forall k | 0 <= k < |items|
      ensures items[k] < |parts'| && WF(parts', text', items[k], Split(w, Ends(parts, items))[k])
      ensures k < |items| - 1 ==> EmptyText(text', parts'[items[k]].end)
    {
      WFFrameItem(parts, parts', text, text', i, w, k);
    }
  }

  lemma {:induction false} WFFrameItem(parts: seq<Part>, parts': seq<Part>, text: map<nat, string>,
                                       text': map<nat, string>, i: nat, w: seq<Node>, k: nat)
    requires i < |parts| && WF(parts, text, i, w)
    requires parts[i].previous.ItemParts? && k < |parts[i].previous.items|
    requires Agree(parts, parts', Reach(parts, i)) && TextAgree(text, text', w)
    ensures var item := parts[i].previous.items[k];
      item < |parts'| && Reach(parts', item) == Reach(parts, item)
      && WF(parts', text', item, Split(w, Ends(parts, parts[i].previous.items))[k])
      && (k < |parts[i].previous.items| - 1 ==> EmptyText(text', parts'[item].end))
    decreases |parts| - i, 0
  {
    var items := parts[i].previous.items;
    var ends := Ends(parts, items);
    var ws := Split(w, ends);
    ReachItem(parts, i, k);
    WFClosed(parts, text, items[k], ws[k]);
    ReachFrame(parts, parts', items[k]);
    forall x: Node | x in ws[k] && x.Created? ensures TextKept(text, text', x.id) {
      SplitWithin(w, ends, k, x);
    }
    WFFrame(parts, parts', text, text', items[k], ws[k]);
    ReachSelf(parts, items[k]);
    if k < |items| - 1 {
      SplitWithin(w, ends, k, Last(ws[k]));
    }
  }

  /** Moves the end marker of part `i`, and of the last item part along the chain of parts
      that end where it ends, to `n`: what `previousPart.endNode = ...` (es/index.js:1338) and
      `lastPart.endNode = this.endNode` (es/index.js:1356) must do for the item windows to keep
      tiling their owner's window.  The source moves only the first of them
      (`AsWrittenSetEnd`). */
  function SetEndChain(parts: seq<Part>, i: nat, n: Node): (r: seq<Part>)
    requires i < |parts|
    ensures |r| == |parts|
    decreases |parts| - i
  {
    var prev := parts[i].previous;
    var parts1 := parts[i := parts[i].(end := n)];
    if prev.ItemParts? && prev.items != [] && ItemsAbove(parts, i) then
      assert prev.items[|prev.items| - 1] > i;
      SetEndChain(parts1, Last(prev.items), n)
    else parts1
  }

  /** The assignment as the source writes it: only part `i`'s end marker moves. */
  function AsWrittenSetEnd(parts: seq<Part>, i: nat, n: Node): (r: seq<Part>)
    requires i < |parts|
    ensures |r| == |parts| && r[i].end == n
    ensures forall j :: 0 <= j < |parts| && j != i ==> r[j] == parts[j]
  {
    parts[i := parts[i].(end := n)]
  }

  /** Moving the chain of end markers changes only end markers, only of parts reachable from
      `i`, and moves `i`'s. */
  lemma {:induction false} EndChainShape(parts: seq<Part>, i: nat, n: Node)
    requires i < |parts|
    ensures var r := SetEndChain(parts, i, n);
      r[i].end == n
      && (forall j :: 0 <= j < |parts| ==> r[j].start == parts[j].start && r[j].previous == parts[j].previous)
      && (forall j :: 0 <= j < |parts| && j !in Reach(parts, i) ==> r[j] == parts[j])
    decreases |parts| - i
  {
    var prev := parts[i].previous;
    var parts1 := parts[i := parts[i].(end := n)];
    if prev.ItemParts? && prev.items != [] && ItemsAbove(parts, i) {
      var last := Last(prev.items);
      assert last == prev.items[|prev.items| - 1];
      EndChainShape(parts1, last, n);
      ReachBounds(parts1, last);
      ReachSamePrevious(parts, parts1, last);
      ReachItem(parts, i, |prev.items| - 1);
    }
  }


  /** Moving the end markers of the last-item chain of a part that owns `w` to a new created
      node makes it own `w` with its last node replaced by that node (`w'`). */
  lemma {:induction false} EndChainWF(parts: seq<Part>, text: map<nat, string>, i: nat, w: seq<Node>,
                                      n: Node, w': seq<Node>)
    requires i < |parts| && WF(parts, text, i, w) && n.Created? && LastReplaced(w, w', n)
    ensures WF(SetEndChain(parts, i, n), text, i, w')
    decreases |parts| - i, 3
  {
    EndChainShape(parts, i, n);
    if parts[i].previous.ItemParts? && parts[i].previous.items != [] {
      var items := parts[i].previous.items;
      var r := SetEndChain(parts, i, n);
      var ws := Split(w, Ends(parts, items));
      ItemsTiling(parts, text, i, w);
      var v := ws[|items| - 1][|ws[|items| - 1]| - 1 := n];
      var ws' := ws[|items| - 1 := v];
      UpdateLastReplaced(ws[|items| - 1], n);
      UpdateLastReplaced(ws, v);
      EndChainItemsWF(parts, text, i, w, n, w', r, v, ws');
    } else if |w| == 3 {
      assert w'[1] == w[1];
    }
  }

  lemma {:induction false} EndChainItemsWF(parts: seq<Part>, text: map<nat, string>, i: nat, w: seq<Node>,
                                           n: Node, w': seq<Node>, r: seq<Part>, v: seq<Node>, ws': seq<seq<Node>>)
    requires i < |parts| && WF(parts, text, i, w) && n.Created? && LastReplaced(w, w', n)
    requires r == SetEndChain(parts, i, n)
    requires parts[i].previous.ItemParts? && parts[i].previous.items != []
    requires var ws := Split(w, Ends(parts, parts[i].previous.items));
      |ws| == |parts[i].previous.items| && LastReplaced(ws[|ws| - 1], v, n) && LastReplaced(ws, ws', v)
    ensures WF(r, text, i, w')
    decreases |parts| - i, 2
  {
    EndChainItems(parts, text, i, w, n, w', r, v, ws');
    LastReplacedEnds(w, w', n);
    WFItemsIntro(r, text, i, w', parts[i].previous.items, ws');
  }

  lemma {:induction false} EndChainItems(parts: seq<Part>, text: map<nat, string>, i: nat, w: seq<Node>,
                                         n: Node, w': seq<Node>, r: seq<Part>, v: seq<Node>, ws': seq<seq<Node>>)
    requires i < |parts| && WF(parts, text, i, w) && n.Created? && LastReplaced(w, w', n)
    requires r == SetEndChain(parts, i, n)
    requires parts[i].previous.ItemParts? && parts[i].previous.items != []
    requires var ws := Split(w, Ends(parts, parts[i].previous.items));
      |ws| == |parts[i].previous.items| && LastReplaced(ws[|ws| - 1], v, n) && LastReplaced(ws, ws', v)
    ensures var items := parts[i].previous.items;
      r[i].previous == ItemParts(items) && r[i].start == parts[i].start && r[i].end == n
      && ItemsAbove(r, i)
      && (forall k :: 0 <= k < |items| - 1 ==> EmptyText(text, r[items[k]].end))
      && (forall a, b :: 0 <= a < b < |items| ==> Reach(r, items[a]) !! Reach(r, items[b]))
      && Split(w', Ends(r, items)) == ws' && |ws'| == |items|
      && (forall k :: 0 <= k < |items| ==> WF(r, text, items[k], ws'[k]))
    decreases |parts| - i, 1
  {
    EndChainKeeps(parts, text, i, w, n, r);
    EndChainWindows(parts, text, i, w, n, w', r, v, ws');
    EndChainItemWindows(parts, text, i, w, n, r, v, ws');
  }

  /** After moving the chain, cutting the new window at the item parts' ends gives the old
      item windows with the last one's last node replaced. */
  lemma EndChainWindows(parts: seq<Part>, text: map<nat, string>, i: nat, w: seq<Node>, n: Node,
                        w': seq<Node>, r: seq<Part>, v: seq<Node>, ws': seq<seq<Node>>)
    requires i < |parts| && WF(parts, text, i, w) && r == SetEndChain(parts, i, n) && LastReplaced(w, w', n)
    requires parts[i].previous.ItemParts? && parts[i].previous.items != []
    requires var ws := Split(w, Ends(parts, parts[i].previous.items));
      |ws| == |parts[i].previous.items| && LastReplaced(ws[|ws| - 1], v, n) && LastReplaced(ws, ws', v)
    ensures Split(w', Ends(r, parts[i].previous.items)) == ws'
  {
    var items := parts[i].previous.items;
    var ends := Ends(parts, items);
    var ws := Split(w, ends);
    ItemsTiling(parts, text, i, w);
    EndChainKeeps(parts, text, i, w, n, r);
    ReplaceLast(ws, ends, Ends(r, items), n, v, ws', w');
  }

  /** After moving the chain, every item part owns its new window. */
  lemma EndChainItemWindows(parts: seq<Part>, text: map<nat, string>, i: nat, w: seq<Node>, n: Node,
                            r: seq<Part>, v: seq<Node>, ws': seq<seq<Node>>)
    requires i < |parts| && WF(parts, text, i, w) && n.Created? && r == SetEndChain(parts, i, n)
    requires parts[i].previous.ItemParts? && parts[i].previous.items != []
    requires var ws := Split(w, Ends(parts, parts[i].previous.items));
      |ws| == |parts[i].previous.items| && LastReplaced(ws[|ws| - 1], v, n) && LastReplaced(ws, ws', v)
    ensures forall k :: 0 <= k < |parts[i].previous.items| ==> WF(r, text, parts[i].previous.items[k], ws'[k])
    decreases |parts| - i, 0
  {
    var items := parts[i].previous.items;
    var m := |items|;
    EndChainLastWF(parts, text, i, w, n, v, r);
    forall k | 0 <= k < m - 1 ensures WF(r, text, items[k], ws'[k]) {
      EndChainOther(parts, text, i, w, n, k, r);
    }
  }

  /** The item windows of an iterable's part tile its window. */
  lemma ItemsTiling(parts: seq<Part>, text: map<nat, string>, i: nat, w: seq<Node>)
    requires i < |parts| && WF(parts, text, i, w)
    requires parts[i].previous.ItemParts? && parts[i].previous.items != []
    ensures var items := parts[i].previous.items;
      var ws := Split(w, Ends(parts, items));
      |ws| == |items| && Chained(ws) && EndsFirst(ws, Ends(parts, items)) && Glue(ws) == w
  {
    var items := parts[i].previous.items;
    var ws := Split(w, Ends(parts, items));
    GlueSplit(w, Ends(parts, items));
    forall k | 0 <= k < |items| ensures |ws[k]| >= 2 {
      assert WF(parts, text, items[k], ws[k]);
    }
  }

  /** Moving the last-item chain leaves the other item parts, and what every item part
      reaches, alone. */
  lemma EndChainKeeps(parts: seq<Part>, text: map<nat, string>, i: nat, w: seq<Node>, n: Node, r: seq<Part>)
    requires i < |parts| && WF(parts, text, i, w) && r == SetEndChain(parts, i, n)
    requires parts[i].previous.ItemParts? && parts[i].previous.items != []
    ensures var items := parts[i].previous.items;
      r[i].previous == ItemParts(items) && r[i].start == parts[i].start && r[i].end == n
      && ItemsAbove(r, i)
      && (forall k :: 0 <= k < |items| - 1 ==> r[items[k]] == parts[items[k]])
      && (forall k :: 0 <= k < |items| - 1 ==> EmptyText(text, r[items[k]].end))
      && (forall a, b :: 0 <= a < b < |items| ==> Reach(r, items[a]) !! Reach(r, items[b]))
  {
    var items := parts[i].previous.items;
    EndChainShape(parts, i, n);
    forall k | 0 <= k < |items| - 1 ensures r[items[k]] == parts[items[k]] {
      EndChainOther(parts, text, i, w, n, k, r);
    }
    forall k | 0 <= k < |items| ensures Reach(r, items[k]) == Reach(parts, items[k]) {
      ReachSamePrevious(parts, r, items[k]);
    }
  }

  /** After moving the chain, the last item part owns its window with the last node
      replaced. */
  lemma EndChainLastWF(parts: seq<Part>, text: map<nat, string>, i: nat, w: seq<Node>, n: Node,
                       v: seq<Node>, r: seq<Part>)
    requires i < |parts| && WF(parts, text, i, w) && n.Created? && r == SetEndChain(parts, i, n)
    requires parts[i].previous.ItemParts? && parts[i].previous.items != []
    requires var ws := Split(w, Ends(parts, parts[i].previous.items));
      |ws| == |parts[i].previous.items| && LastReplaced(ws[|ws| - 1], v, n)
    ensures WF(r, text, Last(parts[i].previous.items), v)
    decreases |parts| - i, -1
  {
    var items := parts[i].previous.items;
    var m := |items|;
    var last := items[m - 1];
    var ws := Split(w, Ends(parts, items));
    var parts1 := parts[i := parts[i].(end := n)];
    assert r == SetEndChain(parts1, last, n);
    ReachItem(parts, i, m - 1);
    ReachBounds(parts, last);
    WFFrame(parts, parts1, text, text, last, ws[m - 1]);
    EndChainWF(parts1, text, last, ws[m - 1], n, v);
  }

  /** An item part other than the last is untouched by moving the last-item chain. */
  lemma EndChainOther(parts: seq<Part>, text: map<nat, string>, i: nat, w: seq<Node>, n: Node, k: nat, r: seq<Part>)
    requires i < |parts| && WF(parts, text, i, w) && r == SetEndChain(parts, i, n)
    requires parts[i].previous.ItemParts? && k < |parts[i].previous.items| - 1
    ensures var items := parts[i].previous.items;
      r[items[k]] == parts[items[k]] && WF(r, text, items[k], Split(w, Ends(parts, items))[k])
  {
    var items := parts[i].previous.items;
    var m := |items|;
    var last := items[m - 1];
    var parts1 := parts[i := parts[i].(end := n)];
    assert r == SetEndChain(parts1, last, n);
    EndChainShape(parts1, last, n);
    ReachSamePrevious(parts, parts1, last);
    ReachBounds(parts, items[k]);
    assert Reach(parts, items[k]) !! Reach(parts, last);
    assert Agree(parts, r, Reach(parts, items[k]));
    ReachSelf(parts, items[k]);
    WFFrame(parts, r, text, text, items[k], Split(w, Ends(parts, items))[k]);
  }

  /** The conditions under which an iterable's part owns a window, one by one. */
  lemma WFItemsIntro(parts: seq<Part>, text: map<nat, string>, i: nat, w: seq<Node>, items: seq<nat>, ws: seq<seq<Node>>)
    requires i < |parts| && parts[i].previous == ItemParts(items) && items != []
    requires |w| >= 2 && w[0] == parts[i].start && Last(w) == parts[i].end
    requires parts[i].start.Created? && parts[i].end.Created? && ItemsAbove(parts, i)
    requires forall a, b :: 0 <= a < b < |items| ==> Reach(parts, items[a]) !! Reach(parts, items[b])
    requires Split(w, Ends(parts, items)) == ws && |ws| == |items|
    requires forall k :: 0 <= k < |items| - 1 ==> EmptyText(text, parts[items[k]].end)
    requires forall k :: 0 <= k < |items| ==> WF(parts, text, items[k], ws[k])
    ensures WF(parts, text, i, w)
  {
  }


  /** An iterable's part ends where its last item part ends: the shared end marker the
      truncation (es/index.js:1356) and a new separator (es/index.js:1338) must keep. */
  lemma ItemsShareEnd(parts: seq<Part>, text: map<nat, string>, i: nat, w: seq<Node>)
    requires i < |parts| && WF(parts, text, i, w)
    requires parts[i].previous.ItemParts? && parts[i].previous.items != []
    ensures Last(parts[i].previous.items) < |parts|
    ensures parts[i].end == parts[Last(parts[i].previous.items)].end
  {
    var items := parts[i].previous.items;
    var ws := Split(w, Ends(parts, items));
    ItemsTiling(parts, text, i, w);
    assert WF(parts, text, items[|items| - 1], ws[|items| - 1]);
  }

  /** Moving the chain of end markers from part `i` commutes with changing a part created
      before `i`. */
  lemma {:induction false} EndChainBelow(parts: seq<Part>, i: nat, q: nat, x: Part, n: Node)
    requires q < i < |parts|
    ensures SetEndChain(parts[q := x], i, n) == SetEndChain(parts, i, n)[q := x]
    decreases |parts| - i
  {
    var prev := parts[i].previous;
    var pq := parts[q := x];
    assert pq[i] == parts[i];
    assert ItemsAbove(pq, i) == ItemsAbove(parts, i);
    assert pq[i := pq[i].(end := n)] == parts[i := parts[i].(end := n)][q := x];
    if prev.ItemParts? && prev.items != [] && ItemsAbove(parts, i) {
      assert Last(prev.items) > i;
      EndChainBelow(parts[i := parts[i].(end := n)], Last(prev.items), q, x, n);
    }
  }

  /** Adding a part at the end of the heap changes no window an existing part owns. */
  lemma AppendKeeps(parts: seq<Part>, text: map<nat, string>, i: nat, w: seq<Node>, x: Part)
    requires i < |parts| && WF(parts, text, i, w)
    ensures Reach(parts + [x], i) == Reach(parts, i) && WF(parts + [x], text, i, w)
  {
    ReachBounds(parts, i);
    WFClosed(parts, text, i, w);
    ReachFrame(parts, parts + [x], i);
    WFFrame(parts, parts + [x], text, text, i, w);
  }
}
