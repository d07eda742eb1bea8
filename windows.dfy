/** Finding nodes among a parent's children, and cutting the stretch a part owns into the
    stretches of its item parts.  A stretch ("window") runs from a part's start marker to its end
    marker, both included; consecutive item windows share the marker between them. */
module Windows {

  /** The first position of `x` in `s`, or `|s|` when it does not occur (walking
      `nextSibling` from the first child until `x`). */
  function Find<T(==)>(s: seq<T>, x: T): (i: nat)
    ensures i <= |s| && (i < |s| ==> s[i] == x)
    ensures forall j :: 0 <= j < i ==> s[j] != x
  {
    if |s| == 0 then 0 else if s[0] == x then 0 else 1 + Find(s[1..], x)
  }

  /** An element that first occurs at position `i` is found there. */
  lemma FindFirst<T>(s: seq<T>, i: nat, x: T)
    requires i < |s| && s[i] == x && forall j :: 0 <= j < i ==> s[j] != x
    ensures Find(s, x) == i
  {
  }

  /** `x` does not occur strictly inside `s` (at a position other than the first and last). */
  ghost predicate NotInside<T>(s: seq<T>, x: T)
  {
    forall j :: 0 < j < |s| - 1 ==> s[j] != x
  }

  function Last<T>(s: seq<T>): T
    requires |s| > 0
  {
    s[|s| - 1]
  }

  /** `s` without its last element. */
  function Init<T>(s: seq<T>): seq<T>
    requires |s| > 0
  {
    s[..|s| - 1]
  }

  /** The item windows of a window whose items end at `ends`: each item window reaches to the
      first occurrence of its end after its own start; the last one takes the rest.  Fewer
      windows than ends means some end is missing. */
  function Split<T(==)>(w: seq<T>, ends: seq<T>): (ws: seq<seq<T>>)
    ensures |ws| <= |ends|
    decreases |ends|
  {
    if |ends| == 0 || |w| == 0 then []
    else if |ends| == 1 then [w]
    else
      var q := 1 + Find(w[1..], ends[0]);
      if q < |w| then [w[..q + 1]] + Split(w[q..], ends[1..]) else []
  }

  /** Consecutive windows share their boundary marker. */
  ghost predicate Chained<T>(ws: seq<seq<T>>)
  {
    (forall k :: 0 <= k < |ws| ==> |ws[k]| >= 2)
    && (forall k :: 0 < k < |ws| ==> ws[k][0] == Last(ws[k - 1]))
  }

  /** Every window but the last ends at its end marker, which does not occur inside it. */
  ghost predicate EndsFirst<T>(ws: seq<seq<T>>, ends: seq<T>)
    requires |ws| == |ends|
    requires forall k :: 0 <= k < |ws| ==> |ws[k]| >= 1
  {
    forall k :: 0 <= k < |ws| - 1 ==> |ws[k]| >= 2 && Last(ws[k]) == ends[k] && NotInside(ws[k], ends[k])
  }

  /** The window the item windows tile: each window up to its boundary, then the last one. */
  function Glue<T>(ws: seq<seq<T>>): (w: seq<T>)
    requires forall k :: 0 <= k < |ws| ==> |ws[k]| >= 1
    ensures |ws| > 0 ==> |w| > 0 && Last(w) == Last(ws[|ws| - 1])
  {
    if |ws| == 0 then [] else if |ws| == 1 then ws[0] else Init(ws[0]) + Glue(ws[1..])
  }

  /** The nodes before window `k` in the glued window. */
  function Lead<T>(ws: seq<seq<T>>, k: nat): seq<T>
    requires k <= |ws|
    requires forall j :: 0 <= j < |ws| ==> |ws[j]| >= 1
    decreases k
  {
    if k == 0 then [] else Lead(ws, k - 1) + Init(ws[k - 1])
  }

  /** The nodes after window `k` in the glued window. */
  function Trail<T>(ws: seq<seq<T>>, k: nat): seq<T>
    requires k < |ws|
    requires forall j :: 0 <= j < |ws| ==> |ws[j]| >= 1
  {
    if k + 1 < |ws| then Glue(ws[k + 1..])[1..] else []
  }

  lemma {:induction false} SplitWindowsNonEmpty<T>(w: seq<T>, ends: seq<T>)
    ensures forall k :: 0 <= k < |Split(w, ends)| ==> |Split(w, ends)[k]| >= 1
    decreases |ends|
  {
    if |ends| >= 2 && |w| > 0 {
      var q := 1 + Find(w[1..], ends[0]);
      if q < |w| {
        SplitWindowsNonEmpty(w[q..], ends[1..]);
      }
    }
  }

  /** A full split of more than one window: the first window reaches to the first end. */
  lemma SplitCons<T>(w: seq<T>, ends: seq<T>) returns (q: nat)
    requires |Split(w, ends)| == |ends| >= 2
    ensures 1 <= q < |w| && w[q] == ends[0] && NotInside(w[..q + 1], ends[0])
    ensures Split(w, ends) == [w[..q + 1]] + Split(w[q..], ends[1..])
    ensures |Split(w[q..], ends[1..])| == |ends| - 1
  {
    q := 1 + Find(w[1..], ends[0]);
    assert |w| != 0;
    assert q < |w|;
    forall j | 0 < j < q ensures w[j] != ends[0] {
      assert w[j] == w[1..][j - 1];
    }
  }

  /** A full split glues back to the window it came from, and its windows end at their ends. */
  lemma {:induction false} GlueSplit<T>(w: seq<T>, ends: seq<T>)
    requires |Split(w, ends)| == |ends| >= 1
    ensures forall k :: 0 <= k < |ends| ==> |Split(w, ends)[k]| >= 1
    ensures Glue(Split(w, ends)) == w
    ensures EndsFirst(Split(w, ends), ends)
    ensures forall k :: 0 < k < |ends| ==> Split(w, ends)[k][0] == Last(Split(w, ends)[k - 1])
    decreases |ends|
  {
    SplitWindowsNonEmpty(w, ends);
    if |ends| >= 2 {
      var q := SplitCons(w, ends);
      GlueSplit(w[q..], ends[1..]);
      GlueSplitStep(w, ends, q, w[..q + 1], Split(w[q..], ends[1..]));
    }
  }

  /** One step of `GlueSplit`: the first window followed by the split of the rest. */
  lemma GlueSplitStep<T>(w: seq<T>, ends: seq<T>, q: nat, first: seq<T>, rest: seq<seq<T>>)
    requires |ends| >= 2 && 1 <= q < |w| && w[q] == ends[0] && NotInside(w[..q + 1], ends[0])
    requires first == w[..q + 1] && |rest| == |ends| - 1
    requires forall k :: 0 <= k < |rest| ==> |rest[k]| >= 1
    requires Glue(rest) == w[q..] && EndsFirst(rest, ends[1..])
    requires forall k :: 0 < k < |rest| ==> rest[k][0] == Last(rest[k - 1])
    ensures Glue([first] + rest) == w
    ensures EndsFirst([first] + rest, ends)
    ensures forall k :: 0 < k < |ends| ==> ([first] + rest)[k][0] == Last(([first] + rest)[k - 1])
  {
    ConsGlue(w, q, first, rest);
    ConsEndsFirst(w, ends, q, first, rest);
    ConsChained(w, q, first, rest);
  }

  lemma ConsGlue<T>(w: seq<T>, q: nat, first: seq<T>, rest: seq<seq<T>>)
    requires 1 <= q < |w| && first == w[..q + 1] && |rest| >= 1
    requires forall k :: 0 <= k < |rest| ==> |rest[k]| >= 1
    requires Glue(rest) == w[q..]
    ensures Glue([first] + rest) == w
  {
    var ws := [first] + rest;
    assert ws[1..] == rest;
    assert Init(first) == w[..q];
  }

  lemma ConsEndsFirst<T>(w: seq<T>, ends: seq<T>, q: nat, first: seq<T>, rest: seq<seq<T>>)
    requires |ends| >= 2 && 1 <= q < |w| && w[q] == ends[0] && NotInside(w[..q + 1], ends[0])
    requires first == w[..q + 1] && |rest| == |ends| - 1
    requires forall k :: 0 <= k < |rest| ==> |rest[k]| >= 1
    requires EndsFirst(rest, ends[1..])
    ensures EndsFirst([first] + rest, ends)
  {
    var ws := [first] + rest;
    forall k | 0 <= k < |ws| - 1
      ensures |ws[k]| >= 2 && Last(ws[k]) == ends[k] && NotInside(ws[k], ends[k])
    {
      if k > 0 {
        assert ws[k] == rest[k - 1] && ends[k] == ends[1..][k - 1];
      }
    }
  }

  lemma ConsChained<T>(w: seq<T>, q: nat, first: seq<T>, rest: seq<seq<T>>)
    requires 1 <= q < |w| && first == w[..q + 1] && |rest| >= 1
    requires forall k :: 0 <= k < |rest| ==> |rest[k]| >= 1
    requires Glue(rest) == w[q..]
    requires forall k :: 0 < k < |rest| ==> rest[k][0] == Last(rest[k - 1])
    ensures forall k :: 0 < k < |rest| + 1 ==> ([first] + rest)[k][0] == Last(([first] + rest)[k - 1])
  {
    var ws := [first] + rest;
    forall k | 0 < k < |ws|
      ensures ws[k][0] == Last(ws[k - 1])
    {
      if k > 1 {
        assert ws[k] == rest[k - 1] && ws[k - 1] == rest[k - 2];
      } else {
        GlueFirstWindow(rest);
      }
    }
  }

  lemma GlueFirstWindow<T>(ws: seq<seq<T>>)
    requires |ws| > 0 && forall k :: 0 <= k < |ws| ==> |ws[k]| >= 1
    requires forall k :: 0 < k < |ws| ==> ws[k][0] == Last(ws[k - 1])
    ensures Glue(ws)[0] == ws[0][0]
  {
  }

  /** Windows that are chained and end at their ends are what splitting their glue gives back. */
  lemma {:induction false} SplitGlue<T>(ws: seq<seq<T>>, ends: seq<T>)
    requires |ws| == |ends| >= 1 && Chained(ws) && EndsFirst(ws, ends)
    ensures Split(Glue(ws), ends) == ws
    decreases |ws|
  {
    if |ws| >= 2 {
      TilingTail(ws, ends);
      SplitGlue(ws[1..], ends[1..]);
      SplitGlueStep(ws, ends);
    }
  }

  /** Dropping the first window keeps the windows chained and ending at their ends. */
  lemma TilingTail<T>(ws: seq<seq<T>>, ends: seq<T>)
    requires |ws| == |ends| >= 2 && Chained(ws) && EndsFirst(ws, ends)
    ensures Chained(ws[1..]) && EndsFirst(ws[1..], ends[1..])
  {
    var rest := ws[1..];
    forall k | 0 < k < |rest| ensures rest[k][0] == Last(rest[k - 1]) {
      assert rest[k] == ws[k + 1] && rest[k - 1] == ws[k];
    }
    forall k | 0 <= k < |rest| - 1
      ensures |rest[k]| >= 2 && Last(rest[k]) == ends[1..][k] && NotInside(rest[k], ends[1..][k])
    {
      assert rest[k] == ws[k + 1];
    }
  }

  /** One step of `SplitGlue`: the first window of the glue is the first window. */
  lemma SplitGlueStep<T>(ws: seq<seq<T>>, ends: seq<T>)
    requires |ws| == |ends| >= 2 && Chained(ws) && EndsFirst(ws, ends)
    requires Chained(ws[1..]) && Split(Glue(ws[1..]), ends[1..]) == ws[1..]
    ensures Split(Glue(ws), ends) == ws
  {
    var w := Glue(ws);
    var q := |ws[0]| - 1;
    GlueFind(ws, ends);
    calc {
      Split(w, ends);
    == { SplitStep(w, ends, q); }
      [w[..q + 1]] + Split(w[q..], ends[1..]);
    == { GlueHead(ws); }
      [ws[0]] + Split(Glue(ws[1..]), ends[1..]);
    ==
      [ws[0]] + ws[1..];
    == { HeadTail(ws); }
      ws;
    }
  }

  /** In the glue, the first end after the first node closes the first window. */
  lemma GlueFind<T>(ws: seq<seq<T>>, ends: seq<T>)
    requires |ws| == |ends| >= 2 && Chained(ws) && EndsFirst(ws, ends)
    ensures 1 <= |ws[0]| - 1 < |Glue(ws)| && Find(Glue(ws)[1..], ends[0]) == |ws[0]| - 2
  {
    var w := Glue(ws);
    var q := |ws[0]| - 1;
    GlueHead(ws);
    FindFirst(w[1..], q - 1, ends[0]);
  }

  /** The first and last elements of a concatenation. */
  lemma ConcatEnds<T>(a: seq<T>, b: seq<T>)
    requires |a| >= 1 && |b| >= 1
    ensures (a + b)[0] == a[0] && Last(a + b) == Last(b)
  {
  }

  /** Regrouping a concatenation of four. */
  lemma ConcatAssoc<T>(a: seq<T>, b: seq<T>, c: seq<T>, d: seq<T>)
    ensures a + (b + c) + d == (a + b) + c + d
  {
  }

  /** A non-empty sequence is its head followed by its tail. */
  lemma HeadTail<T>(s: seq<T>)
    requires |s| >= 1
    ensures [s[0]] + s[1..] == s
  {
  }

  /** The glue starts with the first window, whose last node starts the glue of the rest. */
  lemma GlueHead<T>(ws: seq<seq<T>>)
    requires |ws| >= 2 && Chained(ws)
    ensures var w, q := Glue(ws), |ws[0]| - 1;
      q < |w| && w[..q + 1] == ws[0] && w[q..] == Glue(ws[1..])
  {
    var g := Glue(ws[1..]);
    GlueFirstWindow(ws[1..]);
    assert g[0] == ws[1][0] == Last(ws[0]);
    assert Glue(ws) == Init(ws[0]) + g;
    AppendCut(Init(ws[0]), g);
    InitLast(ws[0]);
  }

  /** Cutting `a + g` just after `g`'s first element, and just before it. */
  lemma AppendCut<T>(a: seq<T>, g: seq<T>)
    requires |g| >= 1
    ensures (a + g)[..|a| + 1] == a + [g[0]] && (a + g)[|a|..] == g
  {
  }

  /** A non-empty sequence is its initial part followed by its last element. */
  lemma InitLast<T>(s: seq<T>)
    requires |s| >= 1
    ensures Init(s) + [Last(s)] == s
  {
  }

  /** `Split` cuts its first window at the first end found after the start. */
  lemma SplitStep<T>(w: seq<T>, ends: seq<T>, q: nat)
    requires |ends| >= 2 && 1 <= q < |w| && Find(w[1..], ends[0]) == q - 1
    ensures Split(w, ends) == [w[..q + 1]] + Split(w[q..], ends[1..])
  {
    var q' := 1 + Find(w[1..], ends[0]);
    assert q' == q && q' < |w|;
    assert Split(w, ends) == [w[..q' + 1]] + Split(w[q'..], ends[1..]);
  }

  /** The windows glue to the nodes before window `k`, window `k`, and the nodes after it. */
  lemma {:induction false} GlueAround<T>(ws: seq<seq<T>>, k: nat)
    requires k < |ws| && Chained(ws)
    ensures Glue(ws) == Lead(ws, k) + ws[k] + Trail(ws, k)
  {
    GlueFrom(ws, k);
    GlueAt(ws, k);
  }

  /** The glue from window `k` is window `k` followed by the nodes after it. */
  lemma GlueAt<T>(ws: seq<seq<T>>, k: nat)
    requires k < |ws| && Chained(ws)
    ensures Glue(ws[k..]) == ws[k] + Trail(ws, k)
  {
    if k + 1 < |ws| {
      var rest := ws[k + 1..];
      ChainedFrom(ws, k + 1);
      GlueFirstWindow(rest);
      assert ws[k..][1..] == rest;
      assert Glue(ws[k..]) == Init(ws[k]) + Glue(rest);
      InitGlue(ws[k], Glue(rest));
    } else {
      assert ws[k..] == [ws[k]];
    }
  }

  /** A suffix of chained windows is chained. */
  lemma ChainedFrom<T>(ws: seq<seq<T>>, k: nat)
    requires k <= |ws| && Chained(ws)
    ensures Chained(ws[k..])
  {
    var rest := ws[k..];
    forall j | 0 < j < |rest| ensures rest[j][0] == Last(rest[j - 1]) {
      assert rest[j] == ws[k + j] && rest[j - 1] == ws[k + j - 1];
    }
  }

  /** Dropping the last node of `a` and gluing on a sequence that starts with it. */
  lemma InitGlue<T>(a: seq<T>, g: seq<T>)
    requires |a| >= 1 && |g| >= 1 && g[0] == Last(a)
    ensures Init(a) + g == a + g[1..]
  {
    assert g == [Last(a)] + g[1..];
    InitLast(a);
  }

  /** The glue of all windows is the nodes before window `k` followed by the glue from `k`. */
  lemma {:induction false} GlueFrom<T>(ws: seq<seq<T>>, k: nat)
    requires k < |ws| && forall j :: 0 <= j < |ws| ==> |ws[j]| >= 1
    ensures Glue(ws) == Lead(ws, k) + Glue(ws[k..])
    decreases k
  {
    if k > 0 {
      GlueFrom(ws, k - 1);
      assert ws[k - 1..][1..] == ws[k..];
    } else {
      assert ws[0..] == ws;
    }
  }

  /** The nodes before window `k` depend only on the windows before it. */
  lemma {:induction false} LeadPrefix<T>(ws: seq<seq<T>>, vs: seq<seq<T>>, k: nat)
    requires k <= |ws| && k <= |vs| && ws[..k] == vs[..k]
    requires forall j :: 0 <= j < |ws| ==> |ws[j]| >= 1
    requires forall j :: 0 <= j < |vs| ==> |vs[j]| >= 1
    ensures Lead(ws, k) == Lead(vs, k)
    decreases k
  {
    if k > 0 {
      assert ws[..k - 1] == vs[..k - 1] by {
        assert ws[..k - 1] == ws[..k][..k - 1] && vs[..k - 1] == vs[..k][..k - 1];
      }
      assert ws[k - 1] == ws[..k][k - 1] == vs[..k][k - 1] == vs[k - 1];
      LeadPrefix(ws, vs, k - 1);
    }
  }

  /** Every node of a window of the split is a node of the window. */
  lemma {:induction false} SplitWithin<T>(w: seq<T>, ends: seq<T>, k: nat, x: T)
    requires k < |Split(w, ends)| && x in Split(w, ends)[k]
    ensures x in w
    decreases |ends|
  {
    if |ends| >= 2 {
      var q := 1 + Find(w[1..], ends[0]);
      if k > 0 {
        assert Split(w, ends)[k] == Split(w[q..], ends[1..])[k - 1];
        SplitWithin(w[q..], ends[1..], k - 1, x);
      } else {
        assert x in w[..q + 1];
      }
    }
  }

  /** Replacing window `k` by one with the same start, and the same end unless it is the last
      window, keeps the tiling: the glue is the old nodes around the new window, and cutting it
      at the same ends (the last one aside) gives the new windows back. */
  lemma ReplaceWindow<T>(ws: seq<seq<T>>, ends: seq<T>, ends': seq<T>, k: nat, v: seq<T>)
    requires |ws| == |ends| == |ends'| && k < |ws| && Chained(ws) && EndsFirst(ws, ends)
    requires forall j :: 0 <= j < |ws| - 1 ==> ends'[j] == ends[j]
    requires |v| >= 2 && v[0] == ws[k][0]
    requires k + 1 < |ws| ==> Last(v) == Last(ws[k]) && NotInside(v, ends[k])
    ensures Chained(ws[k := v]) && EndsFirst(ws[k := v], ends')
    ensures Glue(ws[k := v]) == Lead(ws, k) + v + Trail(ws, k)
    ensures Split(Glue(ws[k := v]), ends') == ws[k := v]
  {
    ReplaceWindowTiles(ws, ends, ends', k, v);
    ReplaceGlue(ws, k, v);
    SplitGlue(ws[k := v], ends');
  }

  /** Replacing a window of a chained tiling replaces it in the glued sequence. */
  lemma ReplaceGlue<T>(ws: seq<seq<T>>, k: nat, v: seq<T>)
    requires k < |ws| && Chained(ws) && Chained(ws[k := v])
    ensures Glue(ws[k := v]) == Lead(ws, k) + v + Trail(ws, k)
  {
    var vs := ws[k := v];
    GlueAround(vs, k);
    assert ws[..k] == vs[..k];
    LeadPrefix(ws, vs, k);
    assert vs[k + 1..] == ws[k + 1..];
  }

  lemma ReplaceWindowTiles<T>(ws: seq<seq<T>>, ends: seq<T>, ends': seq<T>, k: nat, v: seq<T>)
    requires |ws| == |ends| == |ends'| && k < |ws| && Chained(ws) && EndsFirst(ws, ends)
    requires forall j :: 0 <= j < |ws| - 1 ==> ends'[j] == ends[j]
    requires |v| >= 2 && v[0] == ws[k][0]
    requires k + 1 < |ws| ==> Last(v) == Last(ws[k]) && NotInside(v, ends[k])
    ensures Chained(ws[k := v]) && EndsFirst(ws[k := v], ends')
  {
    var vs := ws[k := v];
    forall j | 0 < j < |vs| ensures vs[j][0] == Last(vs[j - 1]) {
      assert j == k || j - 1 == k || (vs[j] == ws[j] && vs[j - 1] == ws[j - 1]);
    }
    forall j | 0 <= j < |vs| - 1
      ensures |vs[j]| >= 2 && Last(vs[j]) == ends'[j] && NotInside(vs[j], ends'[j])
    {
      if j != k {
        assert vs[j] == ws[j];
      }
    }
  }

  lemma ReplaceLast<T>(ws: seq<seq<T>>, ends: seq<T>, ends': seq<T>, n: T, v: seq<T>, vs: seq<seq<T>>, g: seq<T>)
    requires |ws| == |ends| == |ends'| >= 1 && Chained(ws) && EndsFirst(ws, ends)
    requires forall j :: 0 <= j < |ws| - 1 ==> ends'[j] == ends[j]
    requires LastReplaced(ws[|ws| - 1], v, n) && LastReplaced(ws, vs, v) && LastReplaced(Glue(ws), g, n)
    ensures Split(g, ends') == vs
  {
    LastReplacedIsUpdate(ws, vs, v);
    LastReplacedGlue(ws, v, vs, g, n);
    ReplaceWindow(ws, ends, ends', |ws| - 1, v);
  }

  /** Replacing the last node of the last window replaces the last node of the glue. */
  lemma LastReplacedGlue<T>(ws: seq<seq<T>>, v: seq<T>, vs: seq<seq<T>>, g: seq<T>, n: T)
    requires |ws| >= 1 && forall k :: 0 <= k < |ws| ==> |ws[k]| >= 1
    requires LastReplaced(ws[|ws| - 1], v, n) && LastReplaced(ws, vs, v) && LastReplaced(Glue(ws), g, n)
    ensures g == Glue(vs)
  {
    LastReplacedIsUpdate(ws[|ws| - 1], v, n);
    LastReplacedIsUpdate(ws, vs, v);
    LastReplacedIsUpdate(Glue(ws), g, n);
    GlueReplaceLast(ws, n);
  }

  /** `s'` is `s` with its last element replaced by `x`. */
  ghost predicate LastReplaced<T>(s: seq<T>, s': seq<T>, x: T)
  {
    |s'| == |s| >= 1 && s'[|s| - 1] == x && forall j :: 0 <= j < |s| - 1 ==> s'[j] == s[j]
  }

  lemma LastReplacedEnds<T>(s: seq<T>, s': seq<T>, x: T)
    requires LastReplaced(s, s', x) && |s| >= 2
    ensures |s'| >= 2 && s'[0] == s[0] && Last(s') == x
  {
  }

  lemma UpdateLastReplaced<T>(s: seq<T>, x: T)
    requires |s| >= 1
    ensures LastReplaced(s, s[|s| - 1 := x], x)
  {
  }

  lemma LastReplacedIsUpdate<T>(s: seq<T>, s': seq<T>, x: T)
    requires LastReplaced(s, s', x)
    ensures s' == s[|s| - 1 := x]
  {
  }

  /** Replacing the last node of the last window replaces the last node of the glue. */
  lemma {:induction false} GlueReplaceLast<T>(ws: seq<seq<T>>, n: T)
    requires |ws| >= 1 && forall k :: 0 <= k < |ws| ==> |ws[k]| >= 1
    ensures Glue(ws)[|Glue(ws)| - 1 := n] == Glue(ws[|ws| - 1 := ws[|ws| - 1][|ws[|ws| - 1]| - 1 := n]])
  {
    if |ws| >= 2 {
      var vs := ws[|ws| - 1 := ws[|ws| - 1][|ws[|ws| - 1]| - 1 := n]];
      var rest := ws[1..];
      assert vs[1..] == rest[|rest| - 1 := rest[|rest| - 1][|rest[|rest| - 1]| - 1 := n]];
      GlueReplaceLast(rest, n);
      UpdateLastOfConcat(Init(ws[0]), Glue(rest), n);
    }
  }

  lemma UpdateLastOfConcat<T>(a: seq<T>, b: seq<T>, x: T)
    requires |b| >= 1
    ensures (a + b)[|a + b| - 1 := x] == a + b[|b| - 1 := x]
  {
    var l := (a + b)[|a + b| - 1 := x];
    var r := a + b[|b| - 1 := x];
    assert |l| == |r|;
    forall j | 0 <= j < |l| ensures l[j] == r[j] {
      if j < |a| {
        assert l[j] == a[j];
      } else {
        assert r[j] == b[|b| - 1 := x][j - |a|];
      }
    }
  }

  /** The windows from `k` on are chained too. */
  lemma ChainedDrop<T>(ws: seq<seq<T>>, k: nat)
    requires k <= |ws| && Chained(ws)
    ensures Chained(ws[k..])
  {
    var rest := ws[k..];
    forall j | 0 < j < |rest| ensures rest[j][0] == Last(rest[j - 1]) {
      assert rest[j] == ws[k + j] && rest[j - 1] == ws[k + j - 1];
    }
  }

  /** A node of a window before window `k` is among the nodes before it or is its start. */
  lemma {:induction false} InLead<T>(ws: seq<seq<T>>, k: nat, j: nat, x: T)
    requires Chained(ws) && j < k < |ws| && x in ws[j]
    ensures x in Lead(ws, k) || x == ws[k][0]
    decreases k
  {
    var a := ws[k - 1];
    assert Last(a) == ws[k][0];
    if j == k - 1 {
      InInitOrLast(a, x);
    } else {
      InLead(ws, k - 1, j, x);
      FirstInInit(a);
    }
  }

  lemma InInitOrLast<T>(a: seq<T>, x: T)
    requires x in a
    ensures x in Init(a) || x == Last(a)
  {
    assert a == Init(a) + [Last(a)];
  }

  lemma FirstInInit<T>(a: seq<T>)
    requires |a| >= 2
    ensures a[0] in Init(a)
  {
    assert a[0] == Init(a)[0];
  }

  /** A node of a window after window `k` is among the nodes after it or is its end. */
  lemma InTrail<T>(ws: seq<seq<T>>, k: nat, j: nat, x: T)
    requires Chained(ws) && k < j < |ws| && x in ws[j]
    ensures x in Trail(ws, k) || x == Last(ws[k])
  {
    var rest := ws[k + 1..];
    ChainedDrop(ws, k + 1);
    assert rest[j - k - 1] == ws[j];
    InGlue(rest, j - k - 1, x);
    GlueFirstWindow(rest);
    InHeadOrTail(Glue(rest), x);
  }

  /** A node of a window is in the glue. */
  lemma InGlue<T>(ws: seq<seq<T>>, m: nat, x: T)
    requires Chained(ws) && m < |ws| && x in ws[m]
    ensures x in Glue(ws)
  {
    GlueAround(ws, m);
  }

  lemma InHeadOrTail<T>(g: seq<T>, x: T)
    requires x in g
    ensures x == g[0] || x in g[1..]
  {
    assert g == [g[0]] + g[1..];
  }

  /** `s'` is `s` with element `k` replaced by `x`. */
  ghost predicate Replaced<T>(s: seq<T>, s': seq<T>, k: nat, x: T)
  {
    |s'| == |s| && k < |s| && s'[k] == x && forall j :: 0 <= j < |s| && j != k ==> s'[j] == s[j]
  }

  /** Replacing window `k` by one with the same start, and the same end, keeps the tiling and
      the first and last nodes of the glue. */
  lemma StepWindows<T>(ws: seq<seq<T>>, ends: seq<T>, k: nat, v: seq<T>, vs: seq<seq<T>>, w: seq<T>, w': seq<T>)
    requires |ws| == |ends| && k < |ws| && Chained(ws) && EndsFirst(ws, ends) && Glue(ws) == w
    requires |v| >= 2 && v[0] == ws[k][0] && Last(v) == Last(ws[k])
    requires k + 1 < |ws| ==> NotInside(v, ends[k])
    requires Replaced(ws, vs, k, v) && w' == Lead(ws, k) + v + Trail(ws, k)
    ensures Split(w', ends) == vs && |vs| == |ws|
    ensures |w'| >= 2 && w'[0] == w[0] && Last(w') == Last(w)
  {
    StepWindowsTiles(ws, ends, k, v, vs, w');
    assert vs[0][0] == ws[0][0] && Last(vs[|vs| - 1]) == Last(ws[|ws| - 1]);
    GlueEnds(ws, vs);
  }

  lemma StepWindowsTiles<T>(ws: seq<seq<T>>, ends: seq<T>, k: nat, v: seq<T>, vs: seq<seq<T>>, w': seq<T>)
    requires |ws| == |ends| && k < |ws| && Chained(ws) && EndsFirst(ws, ends)
    requires |v| >= 2 && v[0] == ws[k][0] && Last(v) == Last(ws[k])
    requires k + 1 < |ws| ==> NotInside(v, ends[k])
    requires Replaced(ws, vs, k, v) && w' == Lead(ws, k) + v + Trail(ws, k)
    ensures Chained(vs) && Glue(vs) == w' && Split(w', ends) == vs
  {
    assert vs == ws[k := v];
    ReplaceWindow(ws, ends, ends, k, v);
  }

  /** Chained windows with the same first start and last end glue to windows with the same
      first and last nodes. */
  lemma GlueEnds<T>(ws: seq<seq<T>>, vs: seq<seq<T>>)
    requires |ws| >= 1 && |vs| >= 1 && Chained(ws) && Chained(vs)
    requires vs[0][0] == ws[0][0] && Last(vs[|vs| - 1]) == Last(ws[|ws| - 1])
    ensures |Glue(vs)| >= 2 && Glue(vs)[0] == Glue(ws)[0] && Last(Glue(vs)) == Last(Glue(ws))
  {
    GlueFirstWindow(ws);
    GlueFirstWindow(vs);
    GlueAround(vs, 0);
  }

  lemma Regroup<T>(pre: seq<T>, l: seq<T>, v: seq<T>, t: seq<T>, post: seq<T>)
    ensures pre + (l + v + t) + post == (pre + l) + v + (t + post)
  {
  }

  /** The first `k` windows are chained, glue to the nodes before window `k` followed by the
      end of window `k - 1`, and are what splitting that glue at their ends gives back. */
  lemma PrefixTiling<T>(ws: seq<seq<T>>, ends: seq<T>, k: nat)
    requires 0 < k <= |ws| == |ends| && Chained(ws) && EndsFirst(ws, ends)
    ensures Chained(ws[..k]) && Glue(ws[..k]) == Lead(ws, k) + [Last(ws[k - 1])]
    ensures Split(Glue(ws[..k]), ends[..k]) == ws[..k]
  {
    PrefixChained(ws, ends, k);
    PrefixGlue(ws, k);
    SplitGlue(ws[..k], ends[..k]);
  }

  lemma PrefixChained<T>(ws: seq<seq<T>>, ends: seq<T>, k: nat)
    requires 0 < k <= |ws| == |ends| && Chained(ws) && EndsFirst(ws, ends)
    ensures Chained(ws[..k]) && EndsFirst(ws[..k], ends[..k])
  {
    var vs := ws[..k];
    forall j | 0 < j < |vs| ensures vs[j][0] == Last(vs[j - 1]) {
      assert vs[j] == ws[j] && vs[j - 1] == ws[j - 1];
    }
    forall j | 0 <= j < |vs| - 1
      ensures |vs[j]| >= 2 && Last(vs[j]) == ends[..k][j] && NotInside(vs[j], ends[..k][j])
    {
      assert vs[j] == ws[j];
    }
  }

  lemma PrefixGlue<T>(ws: seq<seq<T>>, k: nat)
    requires 0 < k <= |ws| && forall j :: 0 <= j < |ws| ==> |ws[j]| >= 1
    ensures Glue(ws[..k]) == Lead(ws, k) + [Last(ws[k - 1])]
  {
    var vs := ws[..k];
    var a := ws[k - 1];
    GlueFrom(vs, k - 1);
    assert vs[k - 1..] == [a];
    assert vs[..k - 1] == ws[..k - 1];
    LeadPrefix(vs, ws, k - 1);
    InitLastAfter(Lead(ws, k - 1), a, Glue(vs), Lead(ws, k));
  }

  lemma InitLastAfter<T>(l: seq<T>, a: seq<T>, g: seq<T>, h: seq<T>)
    requires |a| >= 1 && g == l + a && h == l + Init(a)
    ensures g == h + [Last(a)]
  {
    assert a == Init(a) + [Last(a)];
  }

  /** Appending a window that starts where the last one ends appends its rest to the glue. */
  lemma {:induction false} GlueSnoc<T>(ws: seq<seq<T>>, x: seq<T>)
    requires |ws| >= 1 && (forall k :: 0 <= k < |ws| ==> |ws[k]| >= 1) && |x| >= 1
    ensures Glue(ws + [x]) == Init(Glue(ws)) + x
    decreases |ws|
  {
    if |ws| == 1 {
      assert (ws + [x])[1..] == [x];
    } else {
      assert (ws + [x])[1..] == ws[1..] + [x];
      GlueSnoc(ws[1..], x);
      var g := Glue(ws[1..]);
      assert Init(Init(ws[0]) + g) == Init(ws[0]) + Init(g);
    }
  }

  /** A node that is not among the glue's nodes but its last is not inside the last window. */
  lemma LastWindowNotInside<T>(ws: seq<seq<T>>, x: T)
    requires |ws| >= 1 && Chained(ws) && x !in Init(Glue(ws))
    ensures NotInside(ws[|ws| - 1], x)
  {
    var m := |ws| - 1;
    GlueAround(ws, m);
    var g := Glue(ws);
    var l := Lead(ws, m);
    assert g == l + ws[m];
    forall j | 0 < j < |ws[m]| - 1 ensures ws[m][j] != x {
      assert ws[m][j] == g[|l| + j] == Init(g)[|l| + j];
    }
  }

  /** Appending a window from the last node of the glue to a new node `e` splits the glue
      extended by `e` at the ends extended by `e`. */
  lemma AppendTiling<T>(ws: seq<seq<T>>, ends: seq<T>, e: T)
    requires |ws| == |ends| >= 1 && Chained(ws) && EndsFirst(ws, ends)
    requires ends[|ws| - 1] == Last(Glue(ws)) && Last(Glue(ws)) !in Init(Glue(ws))
    ensures var ws' := ws + [[Last(Glue(ws)), e]];
      Chained(ws') && Split(Glue(ws) + [e], ends + [e]) == ws'
  {
    var g := Glue(ws);
    var s := Last(g);
    var ws' := ws + [[s, e]];
    LastWindowNotInside(ws, s);
    AppendChained(ws, [s, e]);
    AppendEndsFirst(ws, ends, [s, e], e);
    GlueSnoc(ws, [s, e]);
    SnocInit(g, e);
    SplitGlue(ws', ends + [e]);
  }

  lemma SnocInit<T>(g: seq<T>, e: T)
    requires |g| >= 1
    ensures Init(g) + [Last(g), e] == g + [e]
  {
  }

  lemma AppendChained<T>(ws: seq<seq<T>>, x: seq<T>)
    requires |ws| >= 1 && Chained(ws) && |x| >= 2 && x[0] == Last(ws[|ws| - 1])
    ensures Chained(ws + [x])
  {
    var ws' := ws + [x];
    forall k | 0 < k < |ws'| ensures ws'[k][0] == Last(ws'[k - 1]) {
      if k < |ws| {
        assert ws'[k] == ws[k] && ws'[k - 1] == ws[k - 1];
      }
    }
  }

  lemma AppendEndsFirst<T>(ws: seq<seq<T>>, ends: seq<T>, x: seq<T>, e: T)
    requires |ws| == |ends| >= 1 && Chained(ws) && EndsFirst(ws, ends) && |x| >= 2
    requires ends[|ws| - 1] == Last(ws[|ws| - 1]) && NotInside(ws[|ws| - 1], ends[|ws| - 1])
    ensures |ws + [x]| == |ends + [e]| && Chained(ws + [x]) ==> EndsFirst(ws + [x], ends + [e])
  {
    var ws' := ws + [x];
    var ends' := ends + [e];
    forall k | 0 <= k < |ws'| - 1 ensures Last(ws'[k]) == ends'[k] && NotInside(ws'[k], ends'[k]) {
      assert ws'[k] == ws[k] && ends'[k] == ends[k];
    }
  }
}
