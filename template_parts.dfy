/** Part descriptors and the index bookkeeping that keeps them pointing at the right nodes
    when a template's content is edited (es/index.js:1018-1027, 1466-1568). */
module TemplateParts {
  import opened Wrappers
  import opened TemplateTree

  /** The `type` of a descriptor: the two engine part kinds, or any other tag a caller gives. */
  datatype PartKind = AttributeKind | NodeKind | OtherKind(tag: string)

  /** `TemplatePart` (es/index.js:1018-1026): a slot's kind, the walk position of its node
      (-1 once the node is gone), and for attribute slots the attribute's name as lower-cased
      by the parser, as written in the source, and the static strings around its values. */
  datatype TemplatePart = TemplatePart(kind: PartKind, index: int, name: string, rawName: string, strings: seq<string>)

  /** `isTemplatePartActive` (es/index.js:1027) */
  predicate IsActive(p: TemplatePart)
  {
    p.index != -1
  }

  /** What `Template` keeps true of its descriptors: every active one points at a node of the
      content, and active descriptors appear in walk order. */
  predicate ValidParts(parts: seq<TemplatePart>, nodeCount: nat)
  {
    (forall i :: 0 <= i < |parts| ==> parts[i].index == -1 || 0 <= parts[i].index < nodeCount)
    && (forall i, j :: 0 <= i < j < |parts| ==> Ordered(parts, i, j))
  }

  /** Descriptors `i` and `j` are in walk order if both are active. */
  predicate Ordered(parts: seq<TemplatePart>, i: nat, j: nat)
    requires i < |parts| && j < |parts|
  {
    IsActive(parts[i]) && IsActive(parts[j]) ==> parts[i].index <= parts[j].index
  }

  /** The template whose content and descriptors the walks below rewrite. */
  class Template {
    var content: seq<Node>
    var parts: seq<TemplatePart>

    constructor(content: seq<Node>, parts: seq<TemplatePart>)
      ensures this.content == content && this.parts == parts
    {
      this.content := content;
      this.parts := parts;
    }
  }

  /** `nextActiveIndexInTemplateParts` (es/index.js:1524-1532): the first active descriptor
      after `startIndex`, or -1. */
  method NextActiveIndex(parts: seq<TemplatePart>, startIndex: int) returns (r: int)
    requires startIndex >= -1
    ensures r == -1 || (startIndex < r < |parts| && IsActive(parts[r]))
    ensures forall i :: startIndex < i < |parts| && (r == -1 || i < r) ==> !IsActive(parts[i])
  {
    var i := startIndex + 1;
    while i < |parts|
      invariant startIndex + 1 <= i
      invariant forall k :: startIndex < k < i && k < |parts| ==> !IsActive(parts[k])
      decreases |parts| - i
    {
      if IsActive(parts[i]) {
        return i;
      }
      i := i + 1;
    }
    return -1;
  }

  /** `countNodes` (es/index.js:1515-1522): the node itself and every node the walker visits
      below it. */
  method CountNodes(node: Node) returns (count: nat)
    ensures count == Size(node)
    ensures count >= 1
  {
    count := 1;
    var walk := Ids(node.children);
    var i := 0;
    while i < |walk|
      invariant 0 <= i <= |walk|
      invariant count == 1 + i
    {
      count := count + 1;
      i := i + 1;
    }
  }

  // ---------------------------------------------------------------------------
  // Rewriting descriptors after a removal

  /** The new descriptor for one whose node sits at a walk position with flag `flags`: a
      flagged (removed) position deactivates it, any other position moves down by the number
      of flagged positions before it.  Inactive descriptors are left alone. */
  function AdjustPart(p: TemplatePart, flags: seq<bool>): (r: TemplatePart)
    ensures r.kind == p.kind && r.name == p.name && r.rawName == p.rawName && r.strings == p.strings
    ensures !(0 <= p.index < |flags|) ==> r == p
    ensures 0 <= p.index < |flags| && flags[p.index] ==> r.index == -1
    ensures 0 <= p.index < |flags| && !flags[p.index] ==> r.index == p.index - CountBefore(flags, p.index) >= 0
  {
    if 0 <= p.index < |flags| then
      p.(index := if flags[p.index] then -1 else p.index - CountBefore(flags, p.index))
    else p
  }

  /** The position of the first inactive descriptor, or the number of descriptors. */
  function FirstInactive(parts: seq<TemplatePart>): (r: nat)
    ensures r <= |parts|
    ensures r < |parts| ==> !IsActive(parts[r])
    ensures forall j :: 0 <= j < r ==> IsActive(parts[j])
  {
    if parts == [] then 0 else if !IsActive(parts[0]) then 0 else 1 + FirstInactive(parts[1..])
  }

  /** The removal run of the walk as written: the position of `currentRemovingNode` after
      visiting position `k` (-1 for null).  A run ends only at a node whose previous sibling
      is the node that started it (es/index.js:1491-1493). */
  function AsWrittenCursor(E: seq<Entry>, removed: set<nat>, k: nat): (r: int)
    requires k < |E|
    ensures -1 <= r <= k
  {
    var before := if k == 0 then -1 else AsWrittenCursor(E, removed, k - 1);
    var c := if E[k].prev == before then -1 else before;
    if E[k].id in removed && c == -1 then k else c
  }

  /** The positions the walk as written treats as removed. */
  function AsWrittenRemoved(E: seq<Entry>, removed: set<nat>): (r: seq<bool>)
    ensures |r| == |E|
  {
    seq(|E|, k requires 0 <= k < |E| => AsWrittenCursor(E, removed, k) != -1)
  }

  /** The descriptors the walk as written produces: those before the first inactive one are
      adjusted, all later ones are left as they were. */
  function AsWrittenParts(parts: seq<TemplatePart>, flags: seq<bool>): (r: seq<TemplatePart>)
    ensures |r| == |parts|
    ensures forall j :: 0 <= j < |parts| ==>
      r[j] == (if j < FirstInactive(parts) then AdjustPart(parts[j], flags) else parts[j])
  {
    seq(|parts|, j requires 0 <= j < |parts| =>
      if j < FirstInactive(parts) then AdjustPart(parts[j], flags) else parts[j])
  }

  /** The descriptors an index rewrite that follows the tree produces: every descriptor is
      adjusted against the positions that lie inside a removed subtree. */
  function AdjustedParts(parts: seq<TemplatePart>, flags: seq<bool>): (r: seq<TemplatePart>)
    ensures |r| == |parts|
    ensures forall j :: 0 <= j < |parts| ==> r[j] == AdjustPart(parts[j], flags)
  {
    seq(|parts|, j requires 0 <= j < |parts| => AdjustPart(parts[j], flags))
  }

  /** The inner loop of the walk as written (es/index.js:1505-1510): starting at
      `partIndex`, every consecutive descriptor whose index is `nodeIndex` gets `newIndex`. */
  method RewriteAt(parts: seq<TemplatePart>, partIndex: nat, nodeIndex: int, newIndex: int)
    returns (rewritten: seq<TemplatePart>, next: nat)
    requires partIndex <= |parts|
    ensures partIndex <= next <= |parts| && |rewritten| == |parts|
    ensures forall j :: partIndex <= j < next ==> parts[j].index == nodeIndex && rewritten[j] == parts[j].(index := newIndex)
    ensures next < |parts| ==> parts[next].index != nodeIndex
    ensures forall j :: 0 <= j < |parts| && !(partIndex <= j < next) ==> rewritten[j] == parts[j]
  {
    rewritten, next := parts, partIndex;
    while next < |rewritten| && rewritten[next].index == nodeIndex
      invariant partIndex <= next <= |parts| && |rewritten| == |parts|
      invariant forall j :: partIndex <= j < next ==> parts[j].index == nodeIndex && rewritten[j] == parts[j].(index := newIndex)
      invariant forall j :: 0 <= j < |parts| && !(partIndex <= j < next) ==> rewritten[j] == parts[j]
    {
      rewritten := rewritten[next := rewritten[next].(index := newIndex)];
      next := next + 1;
    }
  }

  /** A run of descriptors that all pointed at position `nodeIndex` and were given the index
      the walk computes for that position extends the prefix of adjusted descriptors. */
  lemma {:induction false} ExtendAdjusted(parts: seq<TemplatePart>, flags: seq<bool>, previous: seq<TemplatePart>,
                          rewritten: seq<TemplatePart>, from: nat, to: nat, nodeIndex: nat, newIndex: int)
    requires |previous| == |parts| && |rewritten| == |parts| && from <= to <= |parts| && nodeIndex < |flags|
    requires newIndex == if flags[nodeIndex] then -1 else nodeIndex - CountBefore(flags, nodeIndex)
    requires forall j :: 0 <= j < from ==> previous[j] == AdjustPart(parts[j], flags)
    requires forall j :: from <= j < |parts| ==> previous[j] == parts[j]
    requires forall j :: from <= j < to ==> previous[j].index == nodeIndex && rewritten[j] == previous[j].(index := newIndex)
    requires forall j :: 0 <= j < |parts| && !(from <= j < to) ==> rewritten[j] == previous[j]
    ensures forall j :: 0 <= j < to ==> rewritten[j] == AdjustPart(parts[j], flags)
    ensures forall j :: to <= j < |parts| ==> rewritten[j] == parts[j]
  {
    forall j | 0 <= j < to
      ensures rewritten[j] == AdjustPart(parts[j], flags)
    {
      if j >= from {
        assert parts[j].index == nodeIndex;
      }
    }
  }

  /** The same for a run in which inactive descriptors are skipped: they are left as they
      were, which is also what adjusting them does. */
  lemma {:induction false} ExtendAdjustedActive(parts: seq<TemplatePart>, flags: seq<bool>, previous: seq<TemplatePart>,
                          rewritten: seq<TemplatePart>, from: nat, to: nat, nodeIndex: nat, newIndex: int)
    requires |previous| == |parts| && |rewritten| == |parts| && from <= to <= |parts| && nodeIndex < |flags|
    requires newIndex == if flags[nodeIndex] then -1 else nodeIndex - CountBefore(flags, nodeIndex)
    requires forall j :: 0 <= j < from ==> previous[j] == AdjustPart(parts[j], flags)
    requires forall j :: from <= j < |parts| ==> previous[j] == parts[j]
    requires forall j :: from <= j < to && IsActive(previous[j]) ==>
      previous[j].index == nodeIndex && rewritten[j] == previous[j].(index := newIndex)
    requires forall j :: 0 <= j < |previous| && !(from <= j < to && IsActive(previous[j])) ==> rewritten[j] == previous[j]
    ensures forall j :: 0 <= j < to ==> rewritten[j] == AdjustPart(parts[j], flags)
    ensures forall j :: to <= j < |parts| ==> rewritten[j] == parts[j]
  {
    forall j | 0 <= j < to
      ensures rewritten[j] == AdjustPart(parts[j], flags)
    {
      if j >= from && IsActive(parts[j]) {
        assert parts[j].index == nodeIndex;
      }
    }
  }

  /** `removeNodesFromTemplate` (es/index.js:1478-1514), as written: a walk that rewrites
      the template's descriptors in place, then the removal of the collected nodes. */
  method RemoveNodesFromTemplate(template: Template, nodesToRemove: set<nat>)
    requires ValidParts(template.parts, ForestSize(template.content))
    modifies template
    ensures template.content == RemoveForest(old(template.content), nodesToRemove)
    ensures template.parts == AsWrittenParts(old(template.parts), AsWrittenRemoved(Entries(old(template.content)), nodesToRemove))
  {
    var parts := RemovalWalk(Entries(template.content), template.parts, nodesToRemove);
    template.parts := parts;
    template.content := RemoveForest(template.content, nodesToRemove);
  }

  /** One node of the walk as written (es/index.js:1486-1504): end the run if this node
      follows the removing node as its next sibling, start one at a node to remove, and count
      the node if a run is open. */
  method VisitAsWritten(E: seq<Entry>, nodesToRemove: set<nat>, nodeIndex: nat, current: int, removeCount: nat)
    returns (current': int, removeCount': nat)
    requires nodeIndex < |E|
    requires current == (if nodeIndex == 0 then -1 else AsWrittenCursor(E, nodesToRemove, nodeIndex - 1))
    requires removeCount == CountBefore(AsWrittenRemoved(E, nodesToRemove), nodeIndex)
    ensures current' == AsWrittenCursor(E, nodesToRemove, nodeIndex)
    ensures AsWrittenRemoved(E, nodesToRemove)[nodeIndex] == (current' != -1)
    ensures removeCount' == CountBefore(AsWrittenRemoved(E, nodesToRemove), nodeIndex + 1)
    ensures current' == -1 ==> removeCount' == CountBefore(AsWrittenRemoved(E, nodesToRemove), nodeIndex)
  {
    current', removeCount' := current, removeCount;
    // end removal if stepped past the removing node
    if E[nodeIndex].prev == current' {
      current' := -1;
    }
    if E[nodeIndex].id in nodesToRemove && current' == -1 {
      current' := nodeIndex;
    }
    if current' != -1 {
      removeCount' := removeCount' + 1;
    }
  }

  /** The walk of `removeNodesFromTemplate` (es/index.js:1482-1512) over the positions `E`. */
  method RemovalWalk(E: seq<Entry>, parts: seq<TemplatePart>, nodesToRemove: set<nat>) returns (rewritten: seq<TemplatePart>)
    requires ValidParts(parts, |E|)
    ensures rewritten == AsWrittenParts(parts, AsWrittenRemoved(E, nodesToRemove))
  {
    ghost var flags := AsWrittenRemoved(E, nodesToRemove);
    ghost var stop := FirstInactive(parts);
    rewritten := parts;
    var partIndex := 0;
    var nodeIndex := 0;
    var removeCount := 0;
    var currentRemovingNode := -1;
    while nodeIndex < |E|
      invariant 0 <= nodeIndex <= |E| && 0 <= partIndex <= stop
      invariant |rewritten| == |parts|
      invariant currentRemovingNode == (if nodeIndex == 0 then -1 else AsWrittenCursor(E, nodesToRemove, nodeIndex - 1))
      invariant removeCount == CountBefore(flags, nodeIndex)
      invariant forall j :: 0 <= j < partIndex ==> rewritten[j] == AdjustPart(parts[j], flags)
      invariant forall j :: partIndex <= j < |parts| ==> rewritten[j] == parts[j]
      invariant partIndex < stop ==> parts[partIndex].index >= nodeIndex
    {
      currentRemovingNode, removeCount := VisitAsWritten(E, nodesToRemove, nodeIndex, currentRemovingNode, removeCount);
      var newIndex := if currentRemovingNode != -1 then -1 else nodeIndex - removeCount;
      ghost var previous, from := rewritten, partIndex;
      rewritten, partIndex := RewriteAt(rewritten, partIndex, nodeIndex, newIndex);
      ExtendAdjusted(parts, flags, previous, rewritten, from, partIndex, nodeIndex, newIndex);
      if from < partIndex < stop {
        assert Ordered(parts, from, partIndex);
      }
      nodeIndex := nodeIndex + 1;
    }
  }

  /** A descriptor position with -1 (none left) read as the end of the list. */
  function Bound(parts: seq<TemplatePart>, i: int): (r: nat)
    requires -1 <= i <= |parts|
    ensures r <= |parts|
    ensures i != -1 ==> r == i
  {
    if i == -1 then |parts| else i
  }

  /** The inner loop of the repaired walk: from the active descriptor `partIndex` on, every
      active descriptor whose index is `nodeIndex` gets `newIndex`; inactive ones are skipped.
      The result is the next active descriptor still to visit, or -1. */
  method RewriteActiveAt(parts: seq<TemplatePart>, partIndex: int, nodeIndex: int, newIndex: int)
    returns (rewritten: seq<TemplatePart>, next: int)
    requires partIndex == -1 || (0 <= partIndex < |parts| && IsActive(parts[partIndex]))
    ensures |rewritten| == |parts|
    ensures next == -1 || (0 <= next < |parts| && IsActive(parts[next]) && parts[next].index != nodeIndex)
    ensures Bound(parts, partIndex) <= Bound(parts, next)
    ensures forall j :: Bound(parts, partIndex) <= j < Bound(parts, next) && IsActive(parts[j]) ==>
      parts[j].index == nodeIndex && rewritten[j] == parts[j].(index := newIndex)
    ensures forall j :: 0 <= j < |parts| && !(Bound(parts, partIndex) <= j < Bound(parts, next) && IsActive(parts[j])) ==>
      rewritten[j] == parts[j]
  {
    rewritten, next := parts, partIndex;
    ghost var lo := Bound(parts, partIndex);
    ghost var hi := lo;
    while next != -1 && rewritten[next].index == nodeIndex
      invariant |rewritten| == |parts|
      invariant next == -1 || (0 <= next < |parts| && IsActive(parts[next]) && rewritten[next] == parts[next])
      invariant hi == Bound(parts, next) && lo <= hi
      invariant forall j :: lo <= j < hi && IsActive(parts[j]) ==> parts[j].index == nodeIndex && rewritten[j] == parts[j].(index := newIndex)
      invariant forall j :: 0 <= j < |parts| && !(lo <= j < hi && IsActive(parts[j])) ==> rewritten[j] == parts[j]
      decreases |parts| - hi
    {
      rewritten := rewritten[next := rewritten[next].(index := newIndex)];
      var after := NextActiveIndex(rewritten, next);
      assert forall j :: next < j < |parts| ==> rewritten[j] == parts[j];
      next := after;
      hi := Bound(parts, next);
    }
  }

  /** The same operation with the two defects of the code as written repaired (see
      `RepairedRemovalWalk`). */
  method RemoveNodesFromTemplateFixed(template: Template, nodesToRemove: set<nat>)
    requires ValidParts(template.parts, ForestSize(template.content))
    modifies template
    ensures template.content == RemoveForest(old(template.content), nodesToRemove)
    ensures template.parts == AdjustedParts(old(template.parts), Removed(Entries(old(template.content)), nodesToRemove))
  {
    EntriesNested(template.content);
    SubtreeRemovedIsCovered(Entries(template.content), nodesToRemove);
    var parts := RepairedRemovalWalk(Entries(template.content), template.parts, nodesToRemove);
    template.parts := parts;
    template.content := RemoveForest(template.content, nodesToRemove);
  }

  /** One node of the repaired walk: end the run once the walk has left the removing node's
      subtree, start one at a node to remove, and count the node if a run is open. */
  method VisitRepaired(E: seq<Entry>, nodesToRemove: set<nat>, nodeIndex: nat, current: int, removeCount: nat)
    returns (current': int, removeCount': nat)
    requires nodeIndex < |E|
    requires current == (if nodeIndex == 0 then -1 else SubtreeCursor(E, nodesToRemove, nodeIndex - 1))
    requires removeCount == CountBefore(SubtreeRemoved(E, nodesToRemove), nodeIndex)
    ensures current' == SubtreeCursor(E, nodesToRemove, nodeIndex)
    ensures SubtreeRemoved(E, nodesToRemove)[nodeIndex] == (current' != -1)
    ensures removeCount' == CountBefore(SubtreeRemoved(E, nodesToRemove), nodeIndex + 1)
    ensures current' == -1 ==> removeCount' == CountBefore(SubtreeRemoved(E, nodesToRemove), nodeIndex)
  {
    current', removeCount' := current, removeCount;
    if current' != -1 && nodeIndex >= E[current'].end {
      current' := -1;
    }
    if E[nodeIndex].id in nodesToRemove && current' == -1 {
      current' := nodeIndex;
    }
    if current' != -1 {
      removeCount' := removeCount' + 1;
    }
  }

  /** The removal walk with its two defects repaired: descriptors are visited with
      `nextActiveIndexInTemplateParts`, so an inactive one no longer stops the rewrite, and a
      removal run ends at the first node outside the removing node's subtree
      (`!currentRemovingNode.contains(node)`). */
  method RepairedRemovalWalk(E: seq<Entry>, parts: seq<TemplatePart>, nodesToRemove: set<nat>) returns (rewritten: seq<TemplatePart>)
    requires ValidParts(parts, |E|)
    ensures rewritten == AdjustedParts(parts, SubtreeRemoved(E, nodesToRemove))
  {
    ghost var flags := SubtreeRemoved(E, nodesToRemove);
    rewritten := parts;
    var partIndex := NextActiveIndex(parts, -1);
    ghost var lim := Bound(parts, partIndex);
    var nodeIndex := 0;
    var removeCount := 0;
    var currentRemovingNode := -1;
    while nodeIndex < |E|
      invariant 0 <= nodeIndex <= |E|
      invariant |rewritten| == |parts|
      invariant partIndex == -1 || (0 <= partIndex < |parts| && IsActive(parts[partIndex]))
      invariant lim == Bound(parts, partIndex)
      invariant currentRemovingNode == (if nodeIndex == 0 then -1 else SubtreeCursor(E, nodesToRemove, nodeIndex - 1))
      invariant removeCount == CountBefore(flags, nodeIndex)
      invariant forall j :: 0 <= j < lim ==> rewritten[j] == AdjustPart(parts[j], flags)
      invariant forall j :: lim <= j < |parts| ==> rewritten[j] == parts[j]
      invariant partIndex != -1 ==> parts[partIndex].index >= nodeIndex
    {
      currentRemovingNode, removeCount := VisitRepaired(E, nodesToRemove, nodeIndex, currentRemovingNode, removeCount);
      var newIndex := if currentRemovingNode != -1 then -1 else nodeIndex - removeCount;
      ghost var previous, from := rewritten, partIndex;
      rewritten, partIndex := RewriteActiveAt(rewritten, partIndex, nodeIndex, newIndex);
      ExtendAdjustedActive(parts, flags, previous, rewritten, lim, Bound(parts, partIndex), nodeIndex, newIndex);
      if partIndex != -1 {
        assert previous[partIndex] == parts[partIndex];
        if from < partIndex {
          assert Ordered(parts, from, partIndex);
        }
      }
      lim := Bound(parts, partIndex);
      nodeIndex := nodeIndex + 1;
    }
  }

  // ---------------------------------------------------------------------------
  // Rewriting descriptors after an insertion

  /** The descriptors after inserting a subtree of `n` nodes at walk position `pos`: every
      active descriptor at or after `pos` moves up by `n`, the others are unchanged. */
  function ShiftedParts(parts: seq<TemplatePart>, pos: nat, n: nat): (r: seq<TemplatePart>)
    ensures |r| == |parts|
    ensures forall j :: 0 <= j < |parts| ==>
      r[j] == if IsActive(parts[j]) && parts[j].index >= pos then parts[j].(index := parts[j].index + n) else parts[j]
  {
    seq(|parts|, j requires 0 <= j < |parts| =>
      if IsActive(parts[j]) && parts[j].index >= pos then parts[j].(index := parts[j].index + n) else parts[j])
  }

  /** The innermost loop of `insertNodeIntoTemplate` (es/index.js:1553-1558): every active
      descriptor from `partIndex` on moves up by `insertCount`. */
  method ShiftFrom(parts: seq<TemplatePart>, partIndex: int, insertCount: nat) returns (rewritten: seq<TemplatePart>)
    requires partIndex == -1 || (0 <= partIndex < |parts| && IsActive(parts[partIndex]))
    ensures |rewritten| == |parts|
    ensures forall j :: 0 <= j < |parts| ==>
      rewritten[j] == if Bound(parts, partIndex) <= j && IsActive(parts[j]) then parts[j].(index := parts[j].index + insertCount) else parts[j]
  {
    rewritten := parts;
    var next := partIndex;
    while next != -1
      invariant next == -1 || (Bound(parts, partIndex) <= next < |parts| && IsActive(parts[next]))
      invariant |rewritten| == |parts|
      invariant forall j :: 0 <= j < |parts| ==>
        rewritten[j] == if Bound(parts, partIndex) <= j < Bound(parts, next) && IsActive(parts[j]) then parts[j].(index := parts[j].index + insertCount) else parts[j]
      decreases |parts| - Bound(parts, next)
    {
      rewritten := rewritten[next := rewritten[next].(index := rewritten[next].index + insertCount)];
      var after := NextActiveIndex(parts, next);
      next := after;
    }
  }

  /** The walk of `insertNodeIntoTemplate` (es/index.js:1544-1562) over the walk-order ids
      `ids` of the content.  The node is inserted before the reference node, which the walker
      has already passed, so the positions the walk counts are those of the content before
      the insertion. */
  method InsertionWalk(ids: seq<nat>, parts: seq<TemplatePart>, refNode: nat, node: Node) returns (rewritten: seq<TemplatePart>)
    requires ValidParts(parts, |ids|)
    ensures refNode in ids ==> rewritten == ShiftedParts(parts, IndexOf(ids, refNode), Size(node))
    ensures refNode !in ids ==> rewritten == parts
  {
    ghost var pos := if refNode in ids then IndexOf(ids, refNode) else |ids|;
    rewritten := parts;
    var partIndex := NextActiveIndex(parts, -1);
    var insertCount := 0;
    var walkerIndex := 0;
    while walkerIndex < |ids|
      invariant 0 <= walkerIndex <= |ids|
      invariant partIndex == -1 || (0 <= partIndex < |parts| && IsActive(parts[partIndex]))
      invariant partIndex != -1 ==> parts[partIndex].index >= walkerIndex
      invariant forall j :: 0 <= j < Bound(parts, partIndex) && IsActive(parts[j]) ==> parts[j].index < pos
      invariant insertCount == 0 <==> walkerIndex <= pos
      invariant insertCount == 0 || insertCount == Size(node)
      invariant rewritten == parts
    {
      if ids[walkerIndex] == refNode {
        insertCount := CountNodes(node);
      }
      while partIndex != -1 && parts[partIndex].index == walkerIndex
        invariant partIndex == -1 || (0 <= partIndex < |parts| && IsActive(parts[partIndex]))
        invariant partIndex != -1 ==> parts[partIndex].index >= walkerIndex
        invariant forall j :: 0 <= j < Bound(parts, partIndex) && IsActive(parts[j]) ==> parts[j].index < pos
        decreases Bound(parts, -1) - Bound(parts, partIndex)
      {
        // If we've inserted the node, simply adjust all subsequent parts
        if insertCount > 0 {
          rewritten := ShiftFrom(parts, partIndex, insertCount);
          ShiftFromIsShifted(parts, |ids|, partIndex, pos, insertCount, rewritten);
          return;
        }
        ghost var at := partIndex;
        partIndex := NextActiveIndex(parts, partIndex);
        if partIndex != -1 {
          assert Ordered(parts, at, partIndex);
        }
      }
      walkerIndex := walkerIndex + 1;
    }
    AllBefore(parts, pos, Size(node));
  }

  /** Shifting from the first active descriptor at or after `pos` is shifting at `pos`. */
  lemma ShiftFromIsShifted(parts: seq<TemplatePart>, nodeCount: nat, at: nat, pos: nat, n: nat, rewritten: seq<TemplatePart>)
    requires ValidParts(parts, nodeCount)
    requires at < |parts| && IsActive(parts[at]) && parts[at].index >= pos
    requires forall j :: 0 <= j < at && IsActive(parts[j]) ==> parts[j].index < pos
    requires |rewritten| == |parts|
    requires forall j :: 0 <= j < |parts| ==>
      rewritten[j] == if at <= j && IsActive(parts[j]) then parts[j].(index := parts[j].index + n) else parts[j]
    ensures rewritten == ShiftedParts(parts, pos, n)
  {
    forall j | 0 <= j < |parts|
      ensures rewritten[j] == ShiftedParts(parts, pos, n)[j]
    {
      if at < j {
        assert Ordered(parts, at, j);
      }
    }
  }

  /** With every active descriptor before `pos`, shifting at `pos` changes nothing. */
  lemma AllBefore(parts: seq<TemplatePart>, pos: nat, n: nat)
    requires forall j :: 0 <= j < |parts| && IsActive(parts[j]) ==> parts[j].index < pos
    ensures ShiftedParts(parts, pos, n) == parts
  {
  }

  /** `insertNodeIntoTemplate` (es/index.js:1539-1563): without a reference node the node
      is appended to the content and no index changes; otherwise it goes before the
      reference node and the descriptors at or after that node move up by its size. */
  method InsertNodeIntoTemplate(template: Template, node: Node, refNode: Option<nat>)
    requires ValidParts(template.parts, ForestSize(template.content))
    modifies template
    ensures refNode.None? ==> template.content == old(template.content) + [node] && template.parts == old(template.parts)
    ensures refNode.Some? ==> template.content == InsertBefore(old(template.content), refNode.value, node)
    ensures refNode.Some? && refNode.value in Ids(old(template.content)) ==>
      template.parts == ShiftedParts(old(template.parts), IndexOf(Ids(old(template.content)), refNode.value), Size(node))
    ensures refNode.Some? && refNode.value !in Ids(old(template.content)) ==> template.parts == old(template.parts)
  {
    if refNode.None? {
      template.content := template.content + [node];
      return;
    }
    var parts := InsertionWalk(Ids(template.content), template.parts, refNode.value, node);
    template.parts := parts;
    template.content := InsertBefore(template.content, refNode.value, node);
  }

  // ---------------------------------------------------------------------------
  // What the rewrites preserve

  /** Adjusting the descriptors against `flags` follows the selection of the unflagged
      positions: a descriptor stays active exactly when its position is unflagged, it then
      names the same element, and validity carries over to the selected sequence. */
  lemma {:induction false} AdjustFollowsSelect(ids: seq<nat>, flags: seq<bool>, parts: seq<TemplatePart>)
    requires |ids| == |flags| && ValidParts(parts, |ids|)
    ensures forall j :: 0 <= j < |parts| && IsActive(parts[j]) ==>
      (IsActive(AdjustedParts(parts, flags)[j]) <==> !flags[parts[j].index])
    ensures forall j :: 0 <= j < |parts| && IsActive(AdjustedParts(parts, flags)[j]) ==>
      AdjustedParts(parts, flags)[j].index < |Select(ids, flags)|
      && Select(ids, flags)[AdjustedParts(parts, flags)[j].index] == ids[parts[j].index]
    ensures ValidParts(AdjustedParts(parts, flags), |Select(ids, flags)|)
  {
    var adjusted, after := AdjustedParts(parts, flags), Select(ids, flags);
    SelectLength(ids, flags);
    forall j | 0 <= j < |parts| && IsActive(adjusted[j])
      ensures adjusted[j].index < |after| && after[adjusted[j].index] == ids[parts[j].index]
    {
      SelectAt(ids, flags, parts[j].index);
    }
    forall i, j | 0 <= i < j < |parts|
      ensures Ordered(adjusted, i, j)
    {
      if IsActive(adjusted[i]) && IsActive(adjusted[j]) {
        assert Ordered(parts, i, j);
        CountBeforeMono(flags, parts[i].index, parts[j].index);
      }
    }
  }

  /** After the repaired removal, a descriptor stays active exactly when its node is not
      inside a removed subtree, every active descriptor still names the node it named before,
      and the descriptors are valid for the smaller content. */
  lemma RemovalKeepsParts(content: seq<Node>, parts: seq<TemplatePart>, removed: set<nat>)
    requires ValidParts(parts, ForestSize(content))
    ensures var flags, adjusted := Removed(Entries(content), removed), AdjustedParts(parts, Removed(Entries(content), removed));
      (forall j :: 0 <= j < |parts| && IsActive(parts[j]) ==> (IsActive(adjusted[j]) <==> !flags[parts[j].index]))
      && (forall j :: 0 <= j < |parts| && !IsActive(parts[j]) ==> adjusted[j] == parts[j])
    ensures var after, adjusted := Ids(RemoveForest(content, removed)), AdjustedParts(parts, Removed(Entries(content), removed));
      forall j :: 0 <= j < |parts| && IsActive(adjusted[j]) ==>
        adjusted[j].index < |after| && after[adjusted[j].index] == Ids(content)[parts[j].index]
    ensures ValidParts(AdjustedParts(parts, Removed(Entries(content), removed)), ForestSize(RemoveForest(content, removed)))
  {
    RemoveContentIds(content, removed);
    AdjustFollowsSelect(Ids(content), Removed(Entries(content), removed), parts);
  }

  /** Splicing `n` elements in at `pos` keeps every descriptor shifted at `pos` on its
      element, and keeps the descriptors valid. */
  lemma {:induction false} ShiftFollowsSplice(ids: seq<nat>, pos: nat, ins: seq<nat>, parts: seq<TemplatePart>)
    requires pos <= |ids| && ValidParts(parts, |ids|)
    ensures forall j :: 0 <= j < |parts| && IsActive(ShiftedParts(parts, pos, |ins|)[j]) ==>
      IsActive(parts[j])
      && ShiftedParts(parts, pos, |ins|)[j].index < |ids[..pos] + ins + ids[pos..]|
      && (ids[..pos] + ins + ids[pos..])[ShiftedParts(parts, pos, |ins|)[j].index] == ids[parts[j].index]
    ensures ValidParts(ShiftedParts(parts, pos, |ins|), |ids[..pos] + ins + ids[pos..]|)
  {
    var shifted, after, n := ShiftedParts(parts, pos, |ins|), ids[..pos] + ins + ids[pos..], |ins|;
    forall j | 0 <= j < |parts| && IsActive(shifted[j])
      ensures IsActive(parts[j]) && shifted[j].index < |after| && after[shifted[j].index] == ids[parts[j].index]
    {
      var i := parts[j].index;
      if i >= pos {
        assert after[i + n] == ids[pos..][i - pos];
      } else {
        assert after[i] == ids[..pos][i];
      }
    }
    forall i, j | 0 <= i < j < |parts|
      ensures Ordered(shifted, i, j)
    {
      assert Ordered(parts, i, j);
    }
  }

  /** Appending a node after the content changes no position, so every descriptor keeps its
      node (the case of `insertNodeIntoTemplate` without a reference node). */
  lemma AppendKeepsParts(content: seq<Node>, parts: seq<TemplatePart>, node: Node)
    requires ValidParts(parts, ForestSize(content))
    ensures Ids(content + [node]) == Ids(content) + Ids([node])
    ensures forall j :: 0 <= j < |parts| && IsActive(parts[j]) ==>
      Ids(content + [node])[parts[j].index] == Ids(content)[parts[j].index]
    ensures ValidParts(parts, ForestSize(content + [node]))
  {
    IdsAppend(content, [node]);
  }

  /** After an insertion before a node of the content, every active descriptor still names
      the node it named before, and the descriptors are valid for the larger content. */
  lemma InsertionKeepsParts(content: seq<Node>, parts: seq<TemplatePart>, refNode: nat, node: Node)
    requires ValidParts(parts, ForestSize(content))
    requires refNode in Ids(content)
    ensures var shifted := ShiftedParts(parts, IndexOf(Ids(content), refNode), Size(node));
      forall j :: 0 <= j < |parts| && IsActive(shifted[j]) ==>
        IsActive(parts[j])
        && shifted[j].index < |Ids(InsertBefore(content, refNode, node))|
        && Ids(InsertBefore(content, refNode, node))[shifted[j].index] == Ids(content)[parts[j].index]
    ensures ValidParts(ShiftedParts(parts, IndexOf(Ids(content), refNode), Size(node)), ForestSize(InsertBefore(content, refNode, node)))
  {
    InsertBeforeIds(content, refNode, node);
    assert |Ids([node])| == Size(node);
    ShiftFollowsSplice(Ids(content), IndexOf(Ids(content), refNode), Ids([node]), parts);
  }

  // ---------------------------------------------------------------------------
  // Two inputs on which the walk as written and the repaired walk differ

  /** A node-position descriptor at `index`. */
  function Slot(index: int): TemplatePart
  {
    TemplatePart(NodeKind, index, "", "", [])
  }

  /** An inactive descriptor ahead of an active one stops the rewrite as written: removing the
      first of two sibling nodes leaves the second one's descriptor at 1, past the end of the
      one-node content.  The repaired walk moves it to 0, where that node now is. */
  lemma InactiveDescriptorStopsRewrite()
    ensures var content, parts := [Node(1, []), Node(2, [])], [Slot(-1), Slot(1)];
      var written := AsWrittenParts(parts, AsWrittenRemoved(Entries(content), {1}));
      written == parts
      && Ids(RemoveForest(content, {1})) == [2]
      && !ValidParts(written, ForestSize(RemoveForest(content, {1})))
    ensures var content, parts := [Node(1, []), Node(2, [])], [Slot(-1), Slot(1)];
      AdjustedParts(parts, Removed(Entries(content), {1})) == [Slot(-1), Slot(0)]
  {
    var content, parts := [Node(1, []), Node(2, [])], [Slot(-1), Slot(1)];
    var E := Entries(content);
    assert E == [Entry(1, -1, 1), Entry(2, 0, 2)];
    assert FirstInactive(parts) == 0;
    var flags := Removed(E, {1});
    assert E[0].id in {1} && 0 < E[0].end;
    assert !CoveredIn(E, 0, {1}, 1);
    assert flags == [true, false];
    assert RemoveForest(content, {1}) == [Node(2, [])];
    assert ForestSize([Node(2, [])]) == 1;
    assert AsWrittenParts(parts, flags)[1] == Slot(1);
  }

  /** The walk over `<a><b></b></a><c></c>`, with ids 1, 2 and 3. */
  lemma LastChildEntries()
    ensures Entries([Node(1, [Node(2, [])]), Node(3, [])]) == [Entry(1, -1, 2), Entry(2, -1, 2), Entry(3, 0, 3)]
  {
    assert Flat([Node(2, [])], 1, -1) == [Entry(2, -1, 2)];
    assert Flat([Node(3, [])], 2, 0) == [Entry(3, 0, 3)];
  }

  /** When the node to remove is the last child of its parent, no later node has it as its
      previous sibling, so the run as written never ends: in `<a><b></b></a><c></c>` with `b`
      removed, the descriptor of the kept node `c` is deactivated. */
  lemma RunOutlivesLastChild()
    ensures var content, parts := [Node(1, [Node(2, [])]), Node(3, [])], [Slot(2)];
      AsWrittenParts(parts, AsWrittenRemoved(Entries(content), {2})) == [Slot(-1)]
      && Ids(RemoveForest(content, {2})) == [1, 3]
  {
    var content := [Node(1, [Node(2, [])]), Node(3, [])];
    LastChildEntries();
    var E := Entries(content);
    assert AsWrittenCursor(E, {2}, 1) == 1;
    assert AsWrittenCursor(E, {2}, 2) == 1;
    assert RemoveForest([Node(2, [])], {2}) == [];
    assert RemoveForest(content, {2}) == [Node(1, []), Node(3, [])];
  }

  /** On the same input the repaired walk moves the descriptor of `c` to 1, where `c` now is. */
  lemma RunEndsAfterSubtree()
    ensures var content, parts := [Node(1, [Node(2, [])]), Node(3, [])], [Slot(2)];
      AdjustedParts(parts, Removed(Entries(content), {2})) == [Slot(1)]
  {
    var content := [Node(1, [Node(2, [])]), Node(3, [])];
    LastChildEntries();
    var E := Entries(content);
    var flags := Removed(E, {2});
    assert !CoveredIn(E, 0, {2}, 0);
    assert E[1].id in {2} && 1 < E[1].end;
    assert !CoveredIn(E, 0, {2}, 2);
    assert flags == [false, true, false];
  }
}
