/** The children of the parent node a `NodePart` renders into, and `removeNodes`
    (es/index.js:1438-1446). */
module Dom {
  import opened Windows

  /** A child of the parent node: one the engine created (a marker, a separator or text node,
      the stand-in for a cloned template fragment), known by its identity, or a node the caller
      supplied as a value, known by the identity of that object. */
  datatype Node = Created(id: nat) | Supplied(ref: nat)

  /** Every created node occurs at most once among `c` and had its identity handed out before
      `nextId`.  (A supplied node may occur more than once: moving a node that is inserted
      again is not modelled.) */
  ghost predicate ValidChildren(c: seq<Node>, nextId: nat)
  {
    (forall i :: 0 <= i < |c| && c[i].Created? ==> c[i].id < nextId)
    && (forall i, j :: 0 <= i < j < |c| && c[i].Created? ==> c[i] != c[j])
  }

  /** A created node is found where it stands. */
  lemma FindCreated(c: seq<Node>, nextId: nat, i: nat)
    requires ValidChildren(c, nextId) && i < |c| && c[i].Created?
    ensures Find(c, c[i]) == i
  {
    FindFirst(c, i, c[i]);
  }

  /** A stretch of valid children starting and ending with created nodes: both ends are
      found where they stand, and the end is the first occurrence after the start. */
  lemma Locate(pre: seq<Node>, w: seq<Node>, post: seq<Node>, nextId: nat)
    requires ValidChildren(pre + w + post, nextId) && |w| >= 2 && w[0].Created? && Last(w).Created?
    ensures Find(pre + w + post, w[0]) == |pre|
    ensures Find(pre + w + post, Last(w)) == |pre| + |w| - 1
    ensures Find((pre + w + post)[|pre| + 1..], Last(w)) == |w| - 2
  {
    var c := pre + w + post;
    assert c[|pre|] == w[0] && c[|pre| + |w| - 1] == Last(w);
    FindCreated(c, nextId, |pre|);
    FindCreated(c, nextId, |pre| + |w| - 1);
    var r := c[|pre| + 1..];
    assert r[|w| - 2] == Last(w);
    forall j | 0 <= j < |w| - 2 ensures r[j] != Last(w) {
      assert r[j] == c[|pre| + 1 + j];
    }
    FindFirst(r, |w| - 2, Last(w));
  }

  /** A created node of a stretch occurs nowhere else among the children. */
  lemma CreatedOnce(pre: seq<Node>, w: seq<Node>, post: seq<Node>, nextId: nat, i: nat)
    requires ValidChildren(pre + w + post, nextId) && i < |w| && w[i].Created?
    ensures w[i] !in pre && w[i] !in post
    ensures forall j :: 0 <= j < |w| && j != i ==> w[j] != w[i]
  {
    var c := pre + w + post;
    assert c[|pre| + i] == w[i];
    forall j | 0 <= j < |pre| ensures pre[j] != w[i] {
      assert c[j] == pre[j];
    }
    forall j | 0 <= j < |post| ensures post[j] != w[i] {
      assert c[|pre| + |w| + j] == post[j];
    }
    forall j | 0 <= j < |w| && j != i ensures w[j] != w[i] {
      assert c[|pre| + j] == w[j];
    }
  }

  /** Replacing the inside of a stretch with nodes that are supplied, or created after
      `nextId` and distinct, keeps the children valid when the stretch's ends are kept. */
  lemma ReplaceInside(pre: seq<Node>, w: seq<Node>, post: seq<Node>, nextId: nat, mid: seq<Node>, nextId': nat)
    requires ValidChildren(pre + w + post, nextId) && |w| >= 2 && nextId <= nextId'
    requires forall i :: 0 <= i < |mid| && mid[i].Created? ==> nextId <= mid[i].id < nextId'
    requires forall i, j :: 0 <= i < j < |mid| && mid[i].Created? ==> mid[i] != mid[j]
    ensures ValidChildren(pre + ([w[0]] + mid + [Last(w)]) + post, nextId')
  {
    var c := pre + w + post;
    var d := pre + ([w[0]] + mid + [Last(w)]) + post;
    var m := |pre| + 1 + |mid|;
    forall i | 0 <= i < |d| && d[i].Created? ensures d[i].id < nextId' {
      if i < |pre| {
        assert d[i] == c[i];
      } else if i == |pre| {
        assert d[i] == c[i];
      } else if i < m {
        assert d[i] == mid[i - |pre| - 1];
      } else {
        assert d[i] == c[i - m + |pre| + |w| - 1];
      }
    }
    forall i, j | 0 <= i < j < |d| && d[i].Created? ensures d[i] != d[j] {
      OldOrNew(pre, w, post, mid, i);
      OldOrNew(pre, w, post, mid, j);
      if i <= |pre| || i >= m {
        if j <= |pre| || j >= m {
          var oi := if i <= |pre| then i else i - m + |pre| + |w| - 1;
          var oj := if j <= |pre| then j else j - m + |pre| + |w| - 1;
          assert oi < oj;
        }
      } else if j > |pre| && j < m {
        assert d[i] == mid[i - |pre| - 1] && d[j] == mid[j - |pre| - 1];
      }
    }
  }

  /** A position of the new children holds a node of the old children (at a known position)
      or a node of `mid`. */
  lemma OldOrNew(pre: seq<Node>, w: seq<Node>, post: seq<Node>, mid: seq<Node>, i: nat)
    requires |w| >= 2 && i < |pre| + |mid| + 2 + |post|
    ensures var d := pre + ([w[0]] + mid + [Last(w)]) + post;
      var m := |pre| + 1 + |mid|;
      (i <= |pre| ==> d[i] == (pre + w + post)[i])
      && (|pre| < i < m ==> d[i] == mid[i - |pre| - 1])
      && (m <= i ==> d[i] == (pre + w + post)[i - m + |pre| + |w| - 1])
  {
  }

  /** `parent.insertBefore(node, ref)`. */
  function InsertBefore(c: seq<Node>, node: Node, ref: Node): (r: seq<Node>)
    requires ref in c
  {
    c[..Find(c, ref)] + [node] + c[Find(c, ref)..]
  }

  /** `removeNodes(container, startNode, endNode)` (es/index.js:1438-1446): removes the
      children from `startNode` (given by its position) up to, not including, the first
      `endNode` after it. */
  method RemoveNodes(c: seq<Node>, from: nat, end: Node) returns (r: seq<Node>)
    requires from <= |c| && from + Find(c[from..], end) < |c|
    ensures |r| == |c| - Find(c[from..], end)
    ensures r[..from] == c[..from]
    ensures r[from..] == c[from + Find(c[from..], end)..]
  {
    ghost var k := 0;
    r := c;
    while r[from] != end
      invariant from + k <= |c| && |r| == |c| - k
      invariant r[..from] == c[..from] && r[from..] == c[from + k..]
      invariant forall j :: from <= j < from + k ==> c[j] != end
      invariant k <= Find(c[from..], end)
      decreases |r| - from
    {
      assert r[from] == c[from + k];
      assert c[from..][k] == c[from + k];
      r := r[..from] + r[from + 1..];
      k := k + 1;
    }
    assert c[from..][k] == end;
    FindFirst(c[from..], k, end);
  }

  /** What is left of a stretch once the children strictly inside window `w` are removed. */
  lemma RemovedInside(pre: seq<Node>, w: seq<Node>, post: seq<Node>, r: seq<Node>)
    requires |w| >= 2 && |r| == |pre| + 2 + |post|
    requires r[..|pre| + 1] == (pre + w + post)[..|pre| + 1]
    requires r[|pre| + 1..] == (pre + w + post)[|pre| + |w| - 1..]
    ensures r == pre + [w[0], Last(w)] + post
  {
    var d := pre + [w[0], Last(w)] + post;
    forall i | 0 <= i < |r| ensures r[i] == d[i] {
      if i <= |pre| {
        assert r[i] == r[..|pre| + 1][i];
      } else {
        assert r[i] == r[|pre| + 1..][i - |pre| - 1];
      }
    }
  }

  /** Inserting `n` before the last node of window `w`. */
  lemma InsertedBefore(pre: seq<Node>, w: seq<Node>, post: seq<Node>, n: Node)
    requires |w| >= 1
    ensures var c := pre + w + post; var e := |pre| + |w| - 1;
      c[..e] + [n] + c[e..] == pre + (Init(w) + [n, Last(w)]) + post
  {
    var c := pre + w + post;
    var e := |pre| + |w| - 1;
    assert c[..e] == pre + Init(w);
    assert c[e..] == [Last(w)] + post;
  }

  /** Removing a stretch of valid children keeps them valid. */
  lemma ValidDrop(a: seq<Node>, b: seq<Node>, c: seq<Node>, nextId: nat)
    requires ValidChildren(a + b + c, nextId)
    ensures ValidChildren(a + c, nextId)
  {
    var s := a + b + c;
    var d := a + c;
    forall i | 0 <= i < |d| ensures d[i] == s[if i < |a| then i else i + |b|] {
    }
    forall i, j | 0 <= i < j < |d| && d[i].Created? ensures d[i] != d[j] {
      var oi := if i < |a| then i else i + |b|;
      var oj := if j < |a| then j else j + |b|;
      assert s[oi] == d[i] && s[oj] == d[j] && oi < oj;
    }
  }

  /** The first occurrence of a window's created end marker from the window's start on is
      where the window ends. */
  lemma LocateFrom(pre: seq<Node>, w: seq<Node>, post: seq<Node>, nextId: nat)
    requires ValidChildren(pre + w + post, nextId) && |w| >= 1 && Last(w).Created?
    ensures |pre| <= |pre + w + post| && Find((pre + w + post)[|pre|..], Last(w)) == |w| - 1
  {
    var r := (pre + w + post)[|pre|..];
    CreatedOnce(pre, w, post, nextId, |w| - 1);
    forall j | 0 <= j < |w| - 1 ensures r[j] != Last(w) {
      assert r[j] == w[j];
    }
    assert r[|w| - 1] == Last(w);
    FindFirst(r, |w| - 1, Last(w));
  }

  /** What is left of a stretch once window `w` but its last node is removed. */
  lemma RemovedFrom(pre: seq<Node>, w: seq<Node>, post: seq<Node>, r: seq<Node>)
    requires |w| >= 1 && |r| == |pre| + 1 + |post|
    requires r[..|pre|] == (pre + w + post)[..|pre|]
    requires r[|pre|..] == (pre + w + post)[|pre| + |w| - 1..]
    ensures r == pre + [Last(w)] + post
  {
    var d := pre + [Last(w)] + post;
    forall i | 0 <= i < |r| ensures r[i] == d[i] {
      if i < |pre| {
        assert r[i] == r[..|pre|][i];
      } else {
        assert r[i] == r[|pre|..][i - |pre|];
      }
    }
  }

  /** Inserting a node created with a new identity before the end of a window keeps the
      children valid. */
  lemma InsertFresh(pre: seq<Node>, w: seq<Node>, post: seq<Node>, nextId: nat)
    requires ValidChildren(pre + w + post, nextId) && |w| >= 1
    ensures ValidChildren(pre + (Init(w) + [Created(nextId), Last(w)]) + post, nextId + 1)
  {
    var s := pre + w + post;
    var d := pre + (Init(w) + [Created(nextId), Last(w)]) + post;
    var e := |pre| + |w| - 1;
    forall i | 0 <= i < |d| && i != e ensures d[i] == s[if i < e then i else i - 1] {
    }
    assert d[e] == Created(nextId);
    forall i, j | 0 <= i < j < |d| && d[i].Created? ensures d[i] != d[j] {
      var oi := if i < e then i else i - 1;
      var oj := if j < e then j else j - 1;
      if i != e && j != e {
        assert s[oi] == d[i] && s[oj] == d[j] && oi < oj;
      } else if i == e {
        assert s[oj] == d[j];
      } else {
        assert s[oi] == d[i];
      }
    }
  }

  /** `removeNodes(container, n, end)` on a window from `n` to `end`: everything but `end`
      goes. */
  method RemoveFrom(c: seq<Node>, n: Node, end: Node, ghost pre: seq<Node>, ghost w: seq<Node>,
                    ghost post: seq<Node>, ghost nextId: nat) returns (r: seq<Node>)
    requires c == pre + w + post && ValidChildren(c, nextId) && |w| >= 2
    requires w[0] == n && Last(w) == end && n.Created? && end.Created?
    ensures r == pre + [end] + post && ValidChildren(r, nextId)
  {
    assert c[|pre|] == n;
    FindCreated(c, nextId, |pre|);
    LocateFrom(pre, w, post, nextId);
    r := RemoveNodes(c, Find(c, n), end);
    RemovedFrom(pre, w, post, r);
    InitLastValid(pre, w, post, nextId);
  }

  lemma InitLastValid(pre: seq<Node>, w: seq<Node>, post: seq<Node>, nextId: nat)
    requires ValidChildren(pre + w + post, nextId) && |w| >= 1
    ensures ValidChildren(pre + [Last(w)] + post, nextId)
  {
    assert pre + w + post == pre + Init(w) + ([Last(w)] + post);
    ValidDrop(pre, Init(w), [Last(w)] + post, nextId);
    assert pre + ([Last(w)] + post) == pre + [Last(w)] + post;
  }

  /** The next identity is on no child yet. */
  lemma FreshNotIn(pre: seq<Node>, w: seq<Node>, post: seq<Node>, nextId: nat)
    requires ValidChildren(pre + w + post, nextId)
    ensures Created(nextId) !in w
  {
    forall i | 0 <= i < |w| ensures w[i] != Created(nextId) {
      assert (pre + w + post)[|pre| + i] == w[i];
    }
  }
}
