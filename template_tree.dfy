/** The content of a compiled template as an abstract tree.

    The TreeWalker the source uses (filter 133: elements, comments and text) visits every node
    of the content in pre-order, never the content root itself; a node's position in that walk
    is what a part descriptor's `index` refers to.  Nodes are identified by an `id`, standing
    for DOM node identity. */
module TemplateTree {

  datatype Node = Node(id: nat, children: seq<Node>)

  /** What the walk knows about the node at one position: its id, the position of its
      previous sibling (-1 when it has none) and the position just after its subtree. */
  datatype Entry = Entry(id: nat, prev: int, end: nat)

  function Size(t: Node): nat
  {
    1 + ForestSize(t.children)
  }

  function ForestSize(ts: seq<Node>): nat
  {
    if ts == [] then 0 else Size(ts[0]) + ForestSize(ts[1..])
  }

  /** The ids of a forest in walk (pre-order) order. */
  function Ids(ts: seq<Node>): (r: seq<nat>)
    ensures |r| == ForestSize(ts)
  {
    if ts == [] then [] else [ts[0].id] + Ids(ts[0].children) + Ids(ts[1..])
  }

  /** The walk over a forest whose first node sits at position `base` and whose first node's
      previous sibling is at position `prev`. */
  function Flat(ts: seq<Node>, base: nat, prev: int): (r: seq<Entry>)
    ensures |r| == ForestSize(ts)
  {
    if ts == [] then []
    else
      [Entry(ts[0].id, prev, base + Size(ts[0]))]
      + Flat(ts[0].children, base + 1, -1)
      + Flat(ts[1..], base + Size(ts[0]), base)
  }

  /** The walk over a template's content. */
  function Entries(content: seq<Node>): (r: seq<Entry>)
    ensures |r| == ForestSize(content)
  {
    Flat(content, 0, -1)
  }

  lemma {:induction false} IdsAppend(a: seq<Node>, b: seq<Node>)
    ensures Ids(a + b) == Ids(a) + Ids(b)
  {
    if a != [] {
      assert (a + b)[1..] == a[1..] + b;
      IdsAppend(a[1..], b);
    } else {
      assert a + b == b;
    }
  }

  /** The walk's entries carry the ids of the pre-order sequence. */
  lemma {:induction false} FlatIds(ts: seq<Node>, base: nat, prev: int)
    ensures forall k :: 0 <= k < |Flat(ts, base, prev)| ==> Flat(ts, base, prev)[k].id == Ids(ts)[k]
  {
    if ts != [] {
      FlatIds(ts[0].children, base + 1, -1);
      FlatIds(ts[1..], base + Size(ts[0]), base);
    }
  }

  /** Every entry's subtree starts at its own position and ends inside the walk. */
  lemma {:induction false} FlatBounds(ts: seq<Node>, base: nat, prev: int)
    ensures forall k :: 0 <= k < |Flat(ts, base, prev)| ==>
      base + k < Flat(ts, base, prev)[k].end <= base + |Flat(ts, base, prev)|
  {
    if ts != [] {
      FlatBounds(ts[0].children, base + 1, -1);
      FlatBounds(ts[1..], base + Size(ts[0]), base);
    }
  }

  /** Subtrees nest: a node inside another node's subtree ends no later than it. */
  lemma {:induction false} FlatLaminar(ts: seq<Node>, base: nat, prev: int)
    ensures forall j, k :: 0 <= j < k < |Flat(ts, base, prev)| && base + k < Flat(ts, base, prev)[j].end ==>
      Flat(ts, base, prev)[k].end <= Flat(ts, base, prev)[j].end
  {
    if ts != [] {
      var F := Flat(ts, base, prev);
      var C := Flat(ts[0].children, base + 1, -1);
      var R := Flat(ts[1..], base + Size(ts[0]), base);
      var s := Size(ts[0]);
      FlatLaminar(ts[0].children, base + 1, -1);
      FlatLaminar(ts[1..], base + s, base);
      FlatBounds(ts[0].children, base + 1, -1);
      FlatBounds(ts[1..], base + s, base);
      assert |C| == s - 1;
      assert forall k :: 1 <= k < s ==> F[k] == C[k - 1];
      assert forall k :: s <= k < |F| ==> F[k] == R[k - s];
      forall j, k | 0 <= j < k < |F| && base + k < F[j].end
        ensures F[k].end <= F[j].end
      {
        if j == 0 {
          assert F[j].end == base + s;
        } else if j < s {
          assert F[j].end <= base + s;
          assert k < s;
          assert C[k - 1].end <= C[j - 1].end;
        } else {
          assert R[k - s].end <= R[j - s].end;
        }
      }
    }
  }

  /** The walk over a whole content: subtrees lie within the walk and nest. */
  ghost predicate Nested(E: seq<Entry>)
  {
    (forall k :: 0 <= k < |E| ==> k < E[k].end <= |E|)
    && (forall j, k :: 0 <= j < k < |E| && k < E[j].end ==> E[k].end <= E[j].end)
  }

  lemma EntriesNested(content: seq<Node>)
    ensures Nested(Entries(content))
  {
    FlatBounds(content, 0, -1);
    FlatLaminar(content, 0, -1);
  }

  // ---------------------------------------------------------------------------
  // Removing nodes (with their subtrees)

  /** `n.parentNode.removeChild(n)` for every node whose id is in `removed`. */
  function RemoveForest(ts: seq<Node>, removed: set<nat>): seq<Node>
  {
    if ts == [] then []
    else if ts[0].id in removed then RemoveForest(ts[1..], removed)
    else [Node(ts[0].id, RemoveForest(ts[0].children, removed))] + RemoveForest(ts[1..], removed)
  }

  /** Position `k` of the walk `F` (whose first entry sits at `base`) lies inside the subtree
      of a removed node. */
  ghost predicate CoveredIn(F: seq<Entry>, base: nat, removed: set<nat>, k: nat)
  {
    exists j :: 0 <= j <= k && j < |F| && F[j].id in removed && base + k < F[j].end
  }

  /** The coverage flag of every position of the walk `F`. */
  ghost function CoverFlags(F: seq<Entry>, base: nat, removed: set<nat>): (r: seq<bool>)
    ensures |r| == |F|
  {
    CoverFlagsUpTo(F, base, removed, |F|)
  }

  /** The coverage flags of the first `n` positions. */
  ghost function CoverFlagsUpTo(F: seq<Entry>, base: nat, removed: set<nat>, n: nat): (r: seq<bool>)
    requires n <= |F|
    ensures |r| == n
  {
    if n == 0 then [] else CoverFlagsUpTo(F, base, removed, n - 1) + [CoveredIn(F, base, removed, n - 1)]
  }

  /** Flag `k` says whether position `k` is covered. */
  lemma CoverFlagsAt(F: seq<Entry>, base: nat, removed: set<nat>, k: nat)
    requires k < |F|
    ensures CoverFlags(F, base, removed)[k] == CoveredIn(F, base, removed, k)
  {
    CoverFlagsUpToAt(F, base, removed, |F|, k);
  }

  lemma {:induction false} CoverFlagsUpToAt(F: seq<Entry>, base: nat, removed: set<nat>, n: nat, k: nat)
    requires k < n <= |F|
    ensures CoverFlagsUpTo(F, base, removed, n)[k] == CoveredIn(F, base, removed, k)
  {
    if k < n - 1 {
      CoverFlagsUpToAt(F, base, removed, n - 1, k);
    }
  }

  /** The positions of a whole walk that lie inside a removed subtree. */
  ghost function Removed(E: seq<Entry>, removed: set<nat>): (r: seq<bool>)
    ensures |r| == |E|
  {
    CoverFlags(E, 0, removed)
  }

  /** The elements of `xs` whose flag is not set, in order. */
  function Select<T>(xs: seq<T>, flags: seq<bool>): seq<T>
    requires |xs| == |flags|
  {
    if xs == [] then [] else (if flags[0] then [] else [xs[0]]) + Select(xs[1..], flags[1..])
  }

  /** The number of set flags before position `i`. */
  function CountBefore(flags: seq<bool>, i: nat): (r: nat)
    requires i <= |flags|
    ensures r <= i
  {
    if i == 0 then 0 else CountBefore(flags, i - 1) + (if flags[i - 1] then 1 else 0)
  }

  lemma {:induction false} SelectAppend<T>(a: seq<T>, fa: seq<bool>, b: seq<T>, fb: seq<bool>)
    requires |a| == |fa| && |b| == |fb|
    ensures Select(a + b, fa + fb) == Select(a, fa) + Select(b, fb)
  {
    if a == [] {
      assert a + b == b && fa + fb == fb;
    } else {
      assert (a + b)[1..] == a[1..] + b;
      assert (fa + fb)[1..] == fa[1..] + fb;
      SelectAppend(a[1..], fa[1..], b, fb);
    }
  }

  /** `n` set flags. */
  function AllSet(n: nat): (r: seq<bool>)
    ensures |r| == n && forall k :: 0 <= k < n ==> r[k]
  {
    seq(n, _ => true)
  }

  lemma {:induction false} SelectAllSet<T>(xs: seq<T>, flags: seq<bool>)
    requires |xs| == |flags|
    requires forall k :: 0 <= k < |flags| ==> flags[k]
    ensures Select(xs, flags) == []
  {
    if xs != [] {
      SelectAllSet(xs[1..], flags[1..]);
    }
  }

  lemma {:induction false} CountBeforeTail(flags: seq<bool>, i: nat)
    requires 1 <= i <= |flags|
    ensures CountBefore(flags, i) == (if flags[0] then 1 else 0) + CountBefore(flags[1..], i - 1)
  {
    if i > 1 {
      CountBeforeTail(flags, i - 1);
    }
  }

  lemma {:induction false} CountBeforeMono(flags: seq<bool>, i: nat, j: nat)
    requires i <= j <= |flags|
    ensures CountBefore(flags, i) <= CountBefore(flags, j) <= CountBefore(flags, i) + (j - i)
    decreases j - i
  {
    if i < j {
      CountBeforeMono(flags, i, j - 1);
    }
  }

  /** Filtering drops exactly the flagged elements and keeps the order. */
  lemma {:induction false} SelectLength<T>(xs: seq<T>, flags: seq<bool>)
    requires |xs| == |flags|
    ensures |Select(xs, flags)| == |xs| - CountBefore(flags, |xs|)
  {
    if xs != [] {
      SelectLength(xs[1..], flags[1..]);
      CountBeforeTail(flags, |xs|);
    }
  }

  /** An unflagged element moves down by the number of flagged elements before it. */
  lemma {:induction false} SelectAt<T>(xs: seq<T>, flags: seq<bool>, i: nat)
    requires |xs| == |flags| && i < |xs| && !flags[i]
    ensures i - CountBefore(flags, i) < |Select(xs, flags)|
    ensures Select(xs, flags)[i - CountBefore(flags, i)] == xs[i]
  {
    SelectLength(xs, flags);
    CountBeforeMono(flags, i, |xs|);
    if i > 0 {
      SelectAt(xs[1..], flags[1..], i - 1);
      CountBeforeTail(flags, i);
    }
  }

  /** The walk of a non-empty forest: its first node, that node's descendants, then the
      following siblings. */
  lemma FlatParts(ts: seq<Node>, base: nat, prev: int)
    requires ts != []
    ensures var F, C, R := Flat(ts, base, prev), Flat(ts[0].children, base + 1, -1), Flat(ts[1..], base + Size(ts[0]), base);
      && |C| == Size(ts[0]) - 1
      && |F| == Size(ts[0]) + |R|
      && F[0] == Entry(ts[0].id, prev, base + Size(ts[0]))
      && (forall k :: 1 <= k < Size(ts[0]) ==> F[k] == C[k - 1])
      && (forall k :: Size(ts[0]) <= k < |F| ==> F[k] == R[k - Size(ts[0])])
  {
    var C, R := Flat(ts[0].children, base + 1, -1), Flat(ts[1..], base + Size(ts[0]), base);
    var head := [Entry(ts[0].id, prev, base + Size(ts[0]))];
    assert Flat(ts, base, prev) == head + C + R;
    ConcatIndex(head, C, R, Size(ts[0]));
  }

  /** Positions in a concatenation of three, the third part starting at `n`. */
  lemma ConcatIndex<T>(a: seq<T>, b: seq<T>, c: seq<T>, n: nat)
    requires n == |a| + |b|
    ensures forall k :: |a| <= k < n ==> (a + b + c)[k] == b[k - |a|]
    ensures forall k :: n <= k < n + |c| ==> (a + b + c)[k] == c[k - n]
  {
  }

  lemma CoverHead(ts: seq<Node>, base: nat, prev: int, removed: set<nat>)
    requires ts != []
    ensures CoveredIn(Flat(ts, base, prev), base, removed, 0) == (ts[0].id in removed)
  {
    var F := Flat(ts, base, prev);
    FlatParts(ts, base, prev);
    if ts[0].id in removed {
      assert F[0].id in removed && base + 0 < F[0].end;
    }
  }

  lemma CoverChild(ts: seq<Node>, base: nat, prev: int, removed: set<nat>, k: nat)
    requires ts != [] && 1 <= k < Size(ts[0])
    ensures CoveredIn(Flat(ts, base, prev), base, removed, k)
      == (ts[0].id in removed || CoveredIn(Flat(ts[0].children, base + 1, -1), base + 1, removed, k - 1))
  {
    var F := Flat(ts, base, prev);
    var C := Flat(ts[0].children, base + 1, -1);
    FlatParts(ts, base, prev);
    if CoveredIn(F, base, removed, k) {
      var j :| 0 <= j <= k && j < |F| && F[j].id in removed && base + k < F[j].end;
      if j > 0 {
        assert F[j] == C[j - 1];
        assert CoveredIn(C, base + 1, removed, k - 1);
      }
    }
    if ts[0].id in removed {
      assert F[0].id in removed && base + k < F[0].end;
    } else if CoveredIn(C, base + 1, removed, k - 1) {
      var j :| 0 <= j <= k - 1 && j < |C| && C[j].id in removed && base + 1 + (k - 1) < C[j].end;
      assert F[j + 1] == C[j];
    }
  }

  lemma CoverSibling(ts: seq<Node>, base: nat, prev: int, removed: set<nat>, k: nat)
    requires ts != [] && Size(ts[0]) <= k < |Flat(ts, base, prev)|
    ensures CoveredIn(Flat(ts, base, prev), base, removed, k)
      == CoveredIn(Flat(ts[1..], base + Size(ts[0]), base), base + Size(ts[0]), removed, k - Size(ts[0]))
  {
    FlatParts(ts, base, prev);
    FlatBounds(ts[0].children, base + 1, -1);
    CoverSuffix(Flat(ts, base, prev), Flat(ts[0].children, base + 1, -1), Flat(ts[1..], base + Size(ts[0]), base),
      base, Size(ts[0]), removed, k);
  }

  /** The same, over any walk made of a first node, its descendants and its siblings. */
  lemma CoverSuffix(F: seq<Entry>, C: seq<Entry>, R: seq<Entry>, base: nat, s: nat, removed: set<nat>, k: nat)
    requires |C| == s - 1 && |F| == s + |R| && s <= k < |F|
    requires F[0].end == base + s
    requires forall i :: 1 <= i < s ==> F[i] == C[i - 1]
    requires forall i :: s <= i < |F| ==> F[i] == R[i - s]
    requires forall i :: 0 <= i < |C| ==> C[i].end <= base + 1 + |C|
    ensures CoveredIn(F, base, removed, k) == CoveredIn(R, base + s, removed, k - s)
  {
    if CoveredIn(F, base, removed, k) {
      var j :| 0 <= j <= k && j < |F| && F[j].id in removed && base + k < F[j].end;
      if j >= s {
        assert F[j] == R[j - s];
        assert CoveredIn(R, base + s, removed, k - s);
      }
    }
    if CoveredIn(R, base + s, removed, k - s) {
      var j :| 0 <= j <= k - s && j < |R| && R[j].id in removed && base + s + (k - s) < R[j].end;
      assert F[j + s] == R[j];
    }
  }

  /** How coverage in a walk decomposes into its first node, that node's descendants and the
      following siblings. */
  lemma CoverFlagsSplit(ts: seq<Node>, base: nat, prev: int, removed: set<nat>)
    requires ts != []
    ensures CoverFlags(Flat(ts, base, prev), base, removed)
      == [ts[0].id in removed]
         + (if ts[0].id in removed then AllSet(Size(ts[0]) - 1)
            else CoverFlags(Flat(ts[0].children, base + 1, -1), base + 1, removed))
         + CoverFlags(Flat(ts[1..], base + Size(ts[0]), base), base + Size(ts[0]), removed)
  {
    var F := Flat(ts, base, prev);
    var s := Size(ts[0]);
    var inR := ts[0].id in removed;
    var lhs := CoverFlags(F, base, removed);
    var mid := if inR then AllSet(s - 1) else CoverFlags(Flat(ts[0].children, base + 1, -1), base + 1, removed);
    var fr := CoverFlags(Flat(ts[1..], base + s, base), base + s, removed);
    var rhs := [inR] + mid + fr;
    assert |lhs| == |rhs|;
    ConcatIndex([inR], mid, fr, s);
    forall k | 0 <= k < |F|
      ensures lhs[k] == rhs[k]
    {
      if k == 0 {
        FlagHead(ts, base, prev, removed);
      } else if k < s {
        FlagChild(ts, base, prev, removed, k);
      } else {
        FlagSibling(ts, base, prev, removed, k);
      }
    }
    SeqExt(lhs, rhs);
  }

  /** Sequences with the same elements are equal. */
  lemma SeqExt<T>(a: seq<T>, b: seq<T>)
    requires |a| == |b| && forall k :: 0 <= k < |a| ==> a[k] == b[k]
    ensures a == b
  {
  }

  lemma FlagHead(ts: seq<Node>, base: nat, prev: int, removed: set<nat>)
    requires ts != []
    ensures CoverFlags(Flat(ts, base, prev), base, removed)[0] == (ts[0].id in removed)
  {
    CoverFlagsAt(Flat(ts, base, prev), base, removed, 0);
    CoverHead(ts, base, prev, removed);
  }

  lemma FlagChild(ts: seq<Node>, base: nat, prev: int, removed: set<nat>, k: nat)
    requires ts != [] && 1 <= k < Size(ts[0])
    ensures CoverFlags(Flat(ts, base, prev), base, removed)[k]
      == (if ts[0].id in removed then AllSet(Size(ts[0]) - 1)
          else CoverFlags(Flat(ts[0].children, base + 1, -1), base + 1, removed))[k - 1]
  {
    CoverFlagsAt(Flat(ts, base, prev), base, removed, k);
    CoverChild(ts, base, prev, removed, k);
    if ts[0].id !in removed {
      CoverFlagsAt(Flat(ts[0].children, base + 1, -1), base + 1, removed, k - 1);
    }
  }

  lemma FlagSibling(ts: seq<Node>, base: nat, prev: int, removed: set<nat>, k: nat)
    requires ts != [] && Size(ts[0]) <= k < ForestSize(ts)
    ensures CoverFlags(Flat(ts, base, prev), base, removed)[k]
      == CoverFlags(Flat(ts[1..], base + Size(ts[0]), base), base + Size(ts[0]), removed)[k - Size(ts[0])]
  {
    CoverFlagsAt(Flat(ts, base, prev), base, removed, k);
    CoverSibling(ts, base, prev, removed, k);
    CoverFlagsAt(Flat(ts[1..], base + Size(ts[0]), base), base + Size(ts[0]), removed, k - Size(ts[0]));
  }

  /** Removing subtrees from a forest keeps, in walk order, exactly the nodes no removed
      subtree covers. */
  lemma RemoveForestIds(ts: seq<Node>, base: nat, prev: int, removed: set<nat>)
    ensures Ids(RemoveForest(ts, removed)) == Select(Ids(ts), CoverFlags(Flat(ts, base, prev), base, removed))
  {
    SelectRemovedFlags(ts, removed);
    CoverFlagsAreRemovedFlags(ts, base, prev, removed);
  }

  /** The flags of a forest's walk, computed on the tree: a removed node flags its whole
      subtree, a kept one flags itself unset and its children as they are. */
  function RemovedFlags(ts: seq<Node>, removed: set<nat>): (r: seq<bool>)
    ensures |r| == ForestSize(ts)
  {
    if ts == [] then []
    else
      (if ts[0].id in removed then [true] + AllSet(Size(ts[0]) - 1)
       else [false] + RemovedFlags(ts[0].children, removed))
      + RemovedFlags(ts[1..], removed)
  }

  /** The tree flags of a forest: its first node's flag, its descendants' flags (all set
      under a removed node) and its siblings' flags. */
  lemma RemovedFlagsCons(ts: seq<Node>, removed: set<nat>, fc: seq<bool>, fr: seq<bool>)
    requires ts != [] && fr == RemovedFlags(ts[1..], removed)
    requires ts[0].id !in removed ==> fc == RemovedFlags(ts[0].children, removed)
    ensures RemovedFlags(ts, removed)
      == [ts[0].id in removed] + (if ts[0].id in removed then AllSet(Size(ts[0]) - 1) else fc) + fr
  {
  }

  /** Removing subtrees keeps the nodes whose tree flag is unset. */
  lemma {:induction false} SelectRemovedFlags(ts: seq<Node>, removed: set<nat>)
    ensures Ids(RemoveForest(ts, removed)) == Select(Ids(ts), RemovedFlags(ts, removed))
  {
    if ts != [] {
      var fr := RemovedFlags(ts[1..], removed);
      SelectRemovedFlags(ts[1..], removed);
      if ts[0].id in removed {
        RemovedHead(ts, removed, RemovedFlags(ts, removed), fr);
      } else {
        SelectRemovedFlags(ts[0].children, removed);
        KeptHead(ts, removed, RemovedFlags(ts, removed), RemovedFlags(ts[0].children, removed), fr);
      }
    }
  }

  /** The coverage flags of the walk are the tree flags. */
  lemma {:induction false} CoverFlagsAreRemovedFlags(ts: seq<Node>, base: nat, prev: int, removed: set<nat>)
    ensures CoverFlags(Flat(ts, base, prev), base, removed) == RemovedFlags(ts, removed)
  {
    if ts != [] {
      var s := Size(ts[0]);
      var fc := CoverFlags(Flat(ts[0].children, base + 1, -1), base + 1, removed);
      var fr := CoverFlags(Flat(ts[1..], base + s, base), base + s, removed);
      CoverFlagsSplit(ts, base, prev, removed);
      CoverFlagsAreRemovedFlags(ts[1..], base + s, base, removed);
      if ts[0].id !in removed {
        CoverFlagsAreRemovedFlags(ts[0].children, base + 1, -1, removed);
      }
      RemovedFlagsCons(ts, removed, fc, fr);
    } else {
      assert |CoverFlags(Flat(ts, base, prev), base, removed)| == 0;
    }
  }

  /** A removed first node takes its whole subtree out of the walk. */
  lemma RemovedHead(ts: seq<Node>, removed: set<nat>, f: seq<bool>, fr: seq<bool>)
    requires ts != [] && ts[0].id in removed && |fr| == ForestSize(ts[1..])
    requires f == [true] + AllSet(Size(ts[0]) - 1) + fr
    requires Ids(RemoveForest(ts[1..], removed)) == Select(Ids(ts[1..]), fr)
    ensures |f| == |Ids(ts)| && Ids(RemoveForest(ts, removed)) == Select(Ids(ts), f)
  {
    var head := [ts[0].id] + Ids(ts[0].children);
    var fh := [true] + AllSet(Size(ts[0]) - 1);
    calc {
      Select(Ids(ts), f);
      { assert Ids(ts) == head + Ids(ts[1..]); }
      Select(head + Ids(ts[1..]), fh + fr);
      { SelectAppend(head, fh, Ids(ts[1..]), fr); }
      Select(head, fh) + Select(Ids(ts[1..]), fr);
      { SelectAllSet(head, fh); }
      [] + Ids(RemoveForest(ts[1..], removed));
      Ids(RemoveForest(ts, removed));
    }
  }

  /** A kept first node stays, with its children edited in the same way. */
  lemma KeptHead(ts: seq<Node>, removed: set<nat>, f: seq<bool>, fc: seq<bool>, fr: seq<bool>)
    requires ts != [] && ts[0].id !in removed
    requires |fc| == ForestSize(ts[0].children) && |fr| == ForestSize(ts[1..])
    requires f == [false] + fc + fr
    requires Ids(RemoveForest(ts[1..], removed)) == Select(Ids(ts[1..]), fr)
    requires Ids(RemoveForest(ts[0].children, removed)) == Select(Ids(ts[0].children), fc)
    ensures |f| == |Ids(ts)| && Ids(RemoveForest(ts, removed)) == Select(Ids(ts), f)
  {
    var head := [ts[0].id] + Ids(ts[0].children);
    assert Ids(ts) == head + Ids(ts[1..]);
    SelectAppend(head, [false] + fc, Ids(ts[1..]), fr);
    SelectAppend([ts[0].id], [false], Ids(ts[0].children), fc);
    assert Select([ts[0].id], [false]) == [ts[0].id];
    var kept := Node(ts[0].id, RemoveForest(ts[0].children, removed));
    assert RemoveForest(ts, removed) == [kept] + RemoveForest(ts[1..], removed);
    assert Ids([kept]) == [ts[0].id] + Ids(kept.children);
    IdsAppend([kept], RemoveForest(ts[1..], removed));
  }

  /** The whole-content form: the walk of the edited content is the old walk without the
      covered positions. */
  lemma RemoveContentIds(content: seq<Node>, removed: set<nat>)
    ensures Ids(RemoveForest(content, removed)) == Select(Ids(content), Removed(Entries(content), removed))
  {
    RemoveForestIds(content, 0, -1, removed);
  }

  // ---------------------------------------------------------------------------
  // Tracking the outermost removed subtree during the walk

  /** `cur` is the position of the outermost removed node whose subtree holds position `k`,
      or -1 when no removed subtree holds it. */
  ghost predicate OutermostCover(E: seq<Entry>, removed: set<nat>, k: nat, cur: int)
    requires k < |E|
  {
    (cur == -1 <==> !CoveredIn(E, 0, removed, k))
    && (cur != -1 ==>
          0 <= cur <= k && E[cur].id in removed && k < E[cur].end
          && forall j :: 0 <= j < cur && E[j].id in removed ==> E[j].end <= k)
  }

  /** One step of the subtree-aware walk: leave the removed subtree once the walk is past
      its end, then start a new one at a removed node. */
  function NextCover(E: seq<Entry>, removed: set<nat>, cur: int, k: nat): (r: int)
    requires -1 <= cur < |E| && k < |E|
    ensures r == -1 || 0 <= r < |E|
  {
    var c := if cur != -1 && k >= E[cur].end then -1 else cur;
    if E[k].id in removed && c == -1 then k else c
  }

  /** The subtree-aware removal run after visiting position `k`. */
  function SubtreeCursor(E: seq<Entry>, removed: set<nat>, k: nat): (r: int)
    requires k < |E|
    ensures -1 <= r <= k
  {
    var before := if k == 0 then -1 else SubtreeCursor(E, removed, k - 1);
    var r := NextCover(E, removed, before, k);
    assert r == -1 || r == k || r == before;
    r
  }

  /** The positions the subtree-aware walk treats as removed. */
  function SubtreeRemoved(E: seq<Entry>, removed: set<nat>): (r: seq<bool>)
    ensures |r| == |E|
  {
    seq(|E|, k requires 0 <= k < |E| => SubtreeCursor(E, removed, k) != -1)
  }

  lemma CoverFirst(E: seq<Entry>, removed: set<nat>)
    requires Nested(E) && 0 < |E|
    ensures OutermostCover(E, removed, 0, NextCover(E, removed, -1, 0))
  {
    if CoveredIn(E, 0, removed, 0) {
      var j :| 0 <= j <= 0 && j < |E| && E[j].id in removed && 0 < E[j].end;
    }
  }

  lemma CoverStep(E: seq<Entry>, removed: set<nat>, k: nat, cur: int)
    requires Nested(E) && k + 1 < |E|
    requires OutermostCover(E, removed, k, cur)
    ensures OutermostCover(E, removed, k + 1, NextCover(E, removed, cur, k + 1))
  {
    var c := if cur != -1 && k + 1 >= E[cur].end then -1 else cur;
    // no removed node before position k + 1 other than `c` (and those after it) covers k + 1
    forall j | 0 <= j <= k && E[j].id in removed && k + 1 < E[j].end
      ensures c != -1 && c <= j
    {
      assert CoveredIn(E, 0, removed, k);
      if j > cur {
        assert E[j].end <= E[cur].end;
      }
    }
    var r := NextCover(E, removed, cur, k + 1);
    if r != -1 {
      assert CoveredIn(E, 0, removed, k + 1) by {
        assert 0 <= r <= k + 1 && E[r].id in removed && k + 1 < E[r].end;
      }
    }
    if CoveredIn(E, 0, removed, k + 1) {
      var j :| 0 <= j <= k + 1 && j < |E| && E[j].id in removed && k + 1 < E[j].end;
    }
  }

  /** The subtree-aware run always sits at the outermost removed node around the walk. */
  lemma {:induction false} SubtreeCursorIsOutermost(E: seq<Entry>, removed: set<nat>, k: nat)
    requires Nested(E) && k < |E|
    ensures OutermostCover(E, removed, k, SubtreeCursor(E, removed, k))
  {
    if k == 0 {
      CoverFirst(E, removed);
    } else {
      SubtreeCursorIsOutermost(E, removed, k - 1);
      CoverStep(E, removed, k - 1, SubtreeCursor(E, removed, k - 1));
    }
  }

  /** The subtree-aware walk treats as removed exactly the positions inside removed subtrees. */
  lemma SubtreeRemovedIsCovered(E: seq<Entry>, removed: set<nat>)
    requires Nested(E)
    ensures SubtreeRemoved(E, removed) == Removed(E, removed)
  {
    forall k | 0 <= k < |E|
      ensures SubtreeRemoved(E, removed)[k] == Removed(E, removed)[k]
    {
      assert SubtreeRemoved(E, removed)[k] == (SubtreeCursor(E, removed, k) != -1);
      SubtreeCursorIsOutermost(E, removed, k);
      CoverFlagsAt(E, 0, removed, k);
    }
  }

  // ---------------------------------------------------------------------------
  // Inserting a node

  /** `refNode.parentNode.insertBefore(node, refNode)` for the first node whose id is `ref`;
      the forest is unchanged when no node has that id. */
  function InsertBefore(ts: seq<Node>, ref: nat, node: Node): seq<Node>
  {
    if ts == [] then []
    else if ts[0].id == ref then [node] + ts
    else if ref in Ids(ts[0].children) then [Node(ts[0].id, InsertBefore(ts[0].children, ref, node))] + ts[1..]
    else [ts[0]] + InsertBefore(ts[1..], ref, node)
  }

  /** The position of the first occurrence of `x` in `xs`. */
  function IndexOf(xs: seq<nat>, x: nat): (r: nat)
    requires x in xs
    ensures r < |xs| && xs[r] == x
    ensures forall k :: 0 <= k < r ==> xs[k] != x
  {
    if xs[0] == x then 0 else 1 + IndexOf(xs[1..], x)
  }

  lemma IndexOfAt(xs: seq<nat>, x: nat, i: nat)
    requires i < |xs| && xs[i] == x
    requires forall k :: 0 <= k < i ==> xs[k] != x
    ensures IndexOf(xs, x) == i
  {
  }

  /** Splicing into the middle part of a sequence, before the first occurrence of `ref`. */
  lemma SpliceMiddle(pre: seq<nat>, mid: seq<nat>, post: seq<nat>, ins: seq<nat>, ref: nat)
    requires ref !in pre && ref in mid
    ensures ref in pre + mid + post
    ensures IndexOf(pre + mid + post, ref) == |pre| + IndexOf(mid, ref)
    ensures pre + (mid[..IndexOf(mid, ref)] + ins + mid[IndexOf(mid, ref)..]) + post
      == (pre + mid + post)[..|pre| + IndexOf(mid, ref)] + ins + (pre + mid + post)[|pre| + IndexOf(mid, ref)..]
  {
    var all := pre + mid + post;
    var i := IndexOf(mid, ref);
    assert all[|pre| + i] == ref;
    forall k | 0 <= k < |pre| + i
      ensures all[k] != ref
    {
      if k < |pre| { assert all[k] == pre[k]; } else { assert all[k] == mid[k - |pre|]; }
    }
    IndexOfAt(all, ref, |pre| + i);
    assert all[..|pre| + i] == pre + mid[..i];
    assert all[|pre| + i..] == mid[i..] + post;
  }

  /** Splicing into the last part of a sequence, before the first occurrence of `ref`. */
  lemma SpliceEnd(pre: seq<nat>, mid: seq<nat>, ins: seq<nat>, ref: nat)
    requires ref !in pre && ref in mid
    ensures ref in pre + mid
    ensures pre + (mid[..IndexOf(mid, ref)] + ins + mid[IndexOf(mid, ref)..])
      == (pre + mid)[..IndexOf(pre + mid, ref)] + ins + (pre + mid)[IndexOf(pre + mid, ref)..]
  {
    SpliceMiddle(pre, mid, [], ins, ref);
    assert pre + mid + [] == pre + mid;
    assert pre + (mid[..IndexOf(mid, ref)] + ins + mid[IndexOf(mid, ref)..]) + []
      == pre + (mid[..IndexOf(mid, ref)] + ins + mid[IndexOf(mid, ref)..]);
  }

  lemma InsertAtFront(ts: seq<Node>, ref: nat, node: Node)
    requires ts != [] && ts[0].id == ref
    ensures ref in Ids(ts)
    ensures Ids(InsertBefore(ts, ref, node)) == Ids(ts)[..IndexOf(Ids(ts), ref)] + Ids([node]) + Ids(ts)[IndexOf(Ids(ts), ref)..]
  {
    var xs := Ids(ts);
    assert xs[0] == ref;
    IndexOfAt(xs, ref, 0);
    assert InsertBefore(ts, ref, node) == [node] + ts;
    IdsAppend([node], ts);
    assert xs[..0] == [] && xs[0..] == xs;
  }

  lemma InsertIntoChildren(ts: seq<Node>, ref: nat, node: Node)
    requires ts != [] && ts[0].id != ref && ref in Ids(ts[0].children)
    requires Ids(InsertBefore(ts[0].children, ref, node))
      == Ids(ts[0].children)[..IndexOf(Ids(ts[0].children), ref)] + Ids([node])
         + Ids(ts[0].children)[IndexOf(Ids(ts[0].children), ref)..]
    ensures ref in Ids(ts)
    ensures Ids(InsertBefore(ts, ref, node))
      == Ids(ts)[..IndexOf(Ids(ts), ref)] + Ids([node]) + Ids(ts)[IndexOf(Ids(ts), ref)..]
  {
    var n0 := Node(ts[0].id, InsertBefore(ts[0].children, ref, node));
    assert InsertBefore(ts, ref, node) == [n0] + ts[1..];
    IdsAppend([n0], ts[1..]);
    assert Ids([n0]) == [ts[0].id] + Ids(n0.children);
    assert Ids(ts) == [ts[0].id] + Ids(ts[0].children) + Ids(ts[1..]);
    SpliceMiddle([ts[0].id], Ids(ts[0].children), Ids(ts[1..]), Ids([node]), ref);
  }

  lemma InsertIntoSiblings(ts: seq<Node>, ref: nat, node: Node)
    requires ts != [] && ts[0].id != ref && ref !in Ids(ts[0].children) && ref in Ids(ts[1..])
    requires Ids(InsertBefore(ts[1..], ref, node))
      == Ids(ts[1..])[..IndexOf(Ids(ts[1..]), ref)] + Ids([node]) + Ids(ts[1..])[IndexOf(Ids(ts[1..]), ref)..]
    ensures ref in Ids(ts)
    ensures Ids(InsertBefore(ts, ref, node))
      == Ids(ts)[..IndexOf(Ids(ts), ref)] + Ids([node]) + Ids(ts)[IndexOf(Ids(ts), ref)..]
  {
    var head := [ts[0].id] + Ids(ts[0].children);
    assert InsertBefore(ts, ref, node) == [ts[0]] + InsertBefore(ts[1..], ref, node);
    IdsAppend([ts[0]], InsertBefore(ts[1..], ref, node));
    assert Ids([ts[0]]) == head;
    assert ref !in head;
    assert Ids(ts) == head + Ids(ts[1..]);
    SpliceEnd(head, Ids(ts[1..]), Ids([node]), ref);
  }

  /** Inserting before the node `ref` splices the new subtree's ids into the walk order
      just before `ref`'s position. */
  lemma {:induction false} InsertBeforeIds(ts: seq<Node>, ref: nat, node: Node)
    requires ref in Ids(ts)
    ensures Ids(InsertBefore(ts, ref, node)) == Ids(ts)[..IndexOf(Ids(ts), ref)] + Ids([node]) + Ids(ts)[IndexOf(Ids(ts), ref)..]
  {
    if ts[0].id == ref {
      InsertAtFront(ts, ref, node);
    } else if ref in Ids(ts[0].children) {
      InsertBeforeIds(ts[0].children, ref, node);
      InsertIntoChildren(ts, ref, node);
    } else {
      assert Ids(ts) == [ts[0].id] + Ids(ts[0].children) + Ids(ts[1..]);
      InsertBeforeIds(ts[1..], ref, node);
      InsertIntoSiblings(ts, ref, node);
    }
  }
}
