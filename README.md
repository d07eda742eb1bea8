# A verified model of the lit-html engine bundled in `es/index.js`

`es/index.js` bundles a small copy of the lit-html rendering engine, its lit-extended part
factories, and some custom-element glue. This project models the engine's core in Dafny and
proves what the engine promises. The core has four pieces:

- **The literal compiler.**
  - `findTagClose` and `TemplateResult.getHTML` join a tagged template's static fragments. Between two fragments they place a comment marker in text position and a bare marker in attribute position.
  - The part factories `defaultPartCallback` and `extendedPartCallback` pick a part kind from an attribute's sigils.
  - `getTemplateCacheKey` builds the template cache key.
- **Part-descriptor bookkeeping.**
  - A template's content is a tree, flattened in the TreeWalker's pre-order.
  - Descriptors record a kind and a walk position, with -1 meaning inactive.
  - `TemplateInstance._clone` and `update` hand parts and values out by position.
  - `removeNodesFromTemplate`, `insertNodeIntoTemplate`, `countNodes` and `nextActiveIndexInTemplateParts` rewrite positions after editing the content.
- **The parts' update state machines.**
  - `AttributePart`, `PropertyPart`, `BooleanAttributePart` and `EventPart` are classes over an element, which holds attributes, properties and listener registrations.
  - `NodePart` (`setValue`, `_setText`, `_setNode`, `_setTemplateResult`, `_setIterable`, `_setPromise`, `clear`, plus `removeNodes`) works over one parent's child list. It uses a heap of parts and ghost windows: the stretch of children each part owns.
    - Every operation is proved to keep each part owning a well-formed window in the same place.
    - Every operation leaves the part recording the value it rendered.
  - `render$1` decides whether to reuse an instance or rebuild it.
- **Helpers.**
  - `getValue` and `isPrimitiveValue`.
  - `classString` and `cn`.
  - The boolean and null branches of `_serializeValue`.
  - The microtask handle queue (`run`, `cancel`, `microtaskFlush`).
  - The once-per-batch capture of old values in `_setPendingProperty` / `_flushProperties`.

JavaScript values are a datatype (`Values.Value`):
- Every object carries an identity, and `===` on objects compares identities.
- A string form that comes from user code is carried as data.
- Numbers are integers.

The engine's string-building loops and in-place rewrites are methods with loop invariants. Each is proved equal to a specification function, and the promised properties are proved as lemmas about those functions.

Three places where the code and its own comments disagree are logged under Findings: two in `removeNodesFromTemplate` and one in `_setIterable`.
- For `removeNodesFromTemplate`, both the walk as written and a corrected walk are modelled in full.
- For `_setIterable`, the end-marker assignment as written is modelled as one step (`NodeParts.AsWrittenSetEnd`), with a concrete trace showing the stale marker it leaves. The full `_setIterable` (`ItemParts.AddItemAfter`, `ItemParts.Truncate`, `Rendering.SetIterable`) applies the corrected update, since the invariant every operation keeps does not hold after the assignment as written.

## Model

| member | source | states |
|---|---|---|
| Literal.FindTagClose | es/index.js:991-1001 | the result lies in `[-1, str.length]` |
| Literal.FindTagCloseMeaning | es/index.js:991-1001 | iff statements for each outcome: -1 exactly when the fragment has neither `>` nor `<`; `str.length` exactly when some `<` has no `>` after it; otherwise the index of a `>` followed by no tag character |
| Literal.LastIndexOf | es/index.js:998 | `lastIndexOf('>')`: -1 or a position of the character, with none after it |
| Literal.IndexOfFrom | es/index.js:999 | `indexOf('<', from)`: -1 with none from `from` on, or the first position at or after `from` holding the character |
| Literal.GetHtml | es/index.js:930-946 | the loop with `isTextBinding` produces `CompiledHtml(strings)`: each fragment followed by the marker its running text-position flag chooses |
| Literal.MarkerCount | es/index.js:930-946 | the compiled markup is the fragments interleaved with exactly `strings.length - 1` markers |
| Literal.CompiledHtmlIsInterleaving | es/index.js:930-946 | every prefix of the markup is the interleaving of the fragments so far with their markers |
| Literal.MarkerAt | es/index.js:943 | marker `i` of the markup is the one chosen after fragment `i` |
| Literal.InheritsWithoutTags | es/index.js:942 | a fragment with no `<` and no `>` keeps the previous classification |
| Literal.UnclosedTagIsAttributePosition | es/index.js:940-943 | a fragment with a `<` and no later `>` ends in attribute position and gets the bare marker |
| Literal.ClosedTagIsTextPosition | es/index.js:940-943 | a fragment whose last tag character is `>` ends in text position and gets the comment marker |
| Literal.TemplateCacheKey | es/index.js:1584 | the key is the type, `--`, then the scope name |
| Literal.CacheKeyInjectiveInScope | es/index.js:1584 | for one type, equal keys mean equal scope names |
| PartCallbacks.DefaultPartCallback | es/index.js:1371-1379 | attribute descriptors get an attribute part with the descriptor's name and strings; node descriptors get a node part; any other type fails with `Unknown part type <type>` |
| PartCallbacks.ExtendedPartCallback | es/index.js:1737-1755 | iff statements for each sigil: an event part exactly for an `on-` raw name, with the rest of it as the event name; an attribute part exactly for a `$` suffix; a boolean attribute part exactly for a `?` suffix, each with the sigil stripped; otherwise a property part under the raw name; non-attribute descriptors fall through to the default factory |
| PartCallbacks.LastChar | es/index.js:1743 | `substr(length - 1)`: empty for the empty name, else the last character |
| PartCallbacks.DropLast | es/index.js:1745-1749 | `slice(0, -1)`: the name without its last character |
| PartCallbacks.ChoiceSize | es/index.js:1396-1403 | attribute-like parts have `size = strings.length - 1`; node and event parts have none |
| TemplateParts.NextActiveIndex | es/index.js:1523-1532 | the first active descriptor after `startIndex`, or -1 when every later descriptor is inactive |
| TemplateParts.CountNodes | es/index.js:1515-1522 | the node plus all the nodes the walker visits below it: the size of its subtree, at least 1 |
| TemplateParts.AdjustPart | es/index.js:1505-1510 | a descriptor at a removed position becomes -1; one at a kept position drops by the number of removed positions before it; kind, names and strings are kept; out-of-walk descriptors are unchanged |
| TemplateParts.AsWrittenParts | es/index.js:1481-1510 | the code as written adjusts the descriptors before the first inactive one and leaves all later ones as they were |
| TemplateParts.RewriteAt | es/index.js:1505-1510 | the inner `while`: consecutive descriptors at `nodeIndex` get the new index, and it stops at the first descriptor elsewhere |
| TemplateParts.VisitAsWritten | es/index.js:1487-1504 | one node of the walk as written: the cursor ends a run on the exact test `node.previousSibling === currentRemovingNode`, opens one at a node to remove, and counts while one is open |
| TemplateParts.RemovalWalk | es/index.js:1478-1513 | the walk as written rewrites the descriptors to `AsWrittenParts` against the positions its runs cover |
| TemplateParts.RemoveNodesFromTemplate | es/index.js:1478-1514 | the template's content loses the subtrees of the nodes to remove, and its descriptors become those of the walk as written |
| TemplateParts.RewriteActiveAt | es/index.js:1505-1510 | the repaired inner loop: from an active descriptor on, the active ones at `nodeIndex` get the new index, skipping inactive ones |
| TemplateParts.VisitRepaired | es/index.js:1487-1504 | one node of the repaired walk: the run ends once the walk leaves the removing node's subtree |
| TemplateParts.RepairedRemovalWalk | es/index.js:1478-1513 | the repaired walk adjusts every descriptor against the positions inside removed subtrees |
| TemplateParts.RemoveNodesFromTemplateFixed | es/index.js:1466-1514 | the repaired operation: content edited as before, descriptors adjusted against the removed subtrees |
| TemplateParts.RemovalKeepsParts | es/index.js:1466-1514 | after the repaired removal, a descriptor stays active exactly when its node is not inside a removed subtree; a kept descriptor still names its node in the new walk; the descriptors stay valid |
| TemplateParts.AdjustFollowsSelect | es/index.js:1505-1510 | adjusting by the removed positions follows the filtering of the walk element by element |
| TemplateParts.ShiftFrom | es/index.js:1553-1558 | the innermost loop moves every active descriptor from `partIndex` on up by `insertCount` and leaves the others alone |
| TemplateParts.InsertionWalk | es/index.js:1544-1562 | the walk yields `ShiftedParts` at the reference node's position, and changes nothing if the reference node is not in the content |
| TemplateParts.ShiftFromIsShifted | es/index.js:1541-1558 | shifting from the first active descriptor at or after the position shifts exactly those at or after it |
| TemplateParts.AllBefore | es/index.js:1551-1562 | with every active descriptor before the reference node, no index changes |
| TemplateParts.InsertNodeIntoTemplate | es/index.js:1537-1563 | a null or undefined `refNode` appends the node and changes no index; otherwise the node is inserted before `refNode`, and every active descriptor at or after `refNode`'s position grows by `countNodes(node)` while earlier and inactive ones are untouched |
| TemplateParts.InsertionKeepsParts | es/index.js:1537-1563 | after an insertion every active descriptor still names the node it named; the descriptors stay valid for the larger content |
| TemplateParts.AppendKeepsParts | es/index.js:1541-1544 | appending changes no descriptor's node |
| TemplateParts.InactiveDescriptorStopsRewrite | es/index.js:1505-1510 | counterexample: an inactive descriptor ahead of an active one stops the rewrite as written, leaving an index past the end of the content; the repaired walk gets it right |
| TemplateParts.RunOutlivesLastChild | es/index.js:1491-1493 | counterexample: removing a last child opens a run that never ends, so the kept node after its parent loses its descriptor |
| TemplateParts.RunEndsAfterSubtree | es/index.js:1491-1493 | on the same input the repaired walk moves that descriptor to the node's new position |
| TemplateTree.Ids | es/index.js:1461-1463 | the TreeWalker's order: pre-order over the content, the root excluded |
| TemplateTree.Flat | es/index.js:1487-1491 | each walk entry carries its node's position, subtree end and previous sibling |
| TemplateTree.FlatIds | es/index.js:1461-1463 | the walk entries carry the pre-order ids |
| TemplateTree.FlatBounds | es/index.js:1461-1463 | every subtree starts at its node and ends inside the walk |
| TemplateTree.FlatLaminar | es/index.js:1461-1463 | subtrees nest |
| TemplateTree.RemoveForestIds | es/index.js:1513 | removing the subtrees keeps, in walk order, exactly the nodes no removed subtree covers |
| TemplateTree.RemoveContentIds | es/index.js:1513 | the new walk is the old walk without the covered positions |
| TemplateTree.CoverFlagsAreRemovedFlags | es/index.js:1513 | coverage computed on the walk equals coverage computed on the tree |
| TemplateTree.SubtreeRemovedIsCovered | es/index.js:1487-1504 | the subtree-aware run marks exactly the positions inside removed subtrees |
| TemplateTree.SubtreeCursorIsOutermost | es/index.js:1487-1504 | the subtree-aware run always sits at the outermost removed node around the current position |
| TemplateTree.InsertBeforeIds | es/index.js:1548-1549 | inserting before `ref` splices the new subtree's ids into the walk just before `ref` |
| TemplateTree.SelectLength | es/index.js:1505-1510 | filtering out the flagged positions drops exactly those |
| TemplateTree.SelectAt | es/index.js:1505-1510 | a kept element moves down by the number of flagged elements before it |
| Instance.TemplateInstance.Clone | es/index.js:1407-1433 | one entry per descriptor, in order: none for an inactive descriptor, else the factory's part for the node at its index; a failing factory stops the clone with its error |
| Instance.ClonedPartsAtDescriptors | es/index.js:1419-1430 | exactly the inactive descriptors get no part; every part sits at its descriptor's index and is what the factory chose |
| Instance.FirstRejected | es/index.js:1419-1430 | the first active descriptor the factory rejects; every earlier one is inactive or accepted |
| Instance.TemplateInstance.Update | es/index.js:1391-1406 | each part gets its value or its value range at the running offset; a missing part or a part without `size` consumes one value, others consume `size`; the total consumed is the sum of the widths |
| Instance.ExpectedCallsAt | es/index.js:1393-1404 | call `k` is the call for part `k` at its offset |
| Instance.OffsetsDisjoint | es/index.js:1393-1404 | the parts' value ranges follow each other without overlap |
| Instance.Render | es/index.js:1667-1693 | a container holding an instance of this template and factory updates it in place and keeps its content; otherwise a fresh instance is cloned and becomes the content, or the clone's error is reported with the content unchanged; either way the update's part calls, one per part with the values it is handed, are returned |
| AttributeParts.Interpolate | es/index.js:1179-1198 | the text is `s0 + t0 + s1 + ... + sn`, where an array or iterable value contributes the concatenation of its items |
| AttributeParts.AppendItems | es/index.js:1185-1189 | the inner `for...of` appends the string forms of the items |
| AttributeParts.Texts | es/index.js:1183-1192 | value `i`'s text reads slot `startIndex + i` through `getValue`, and there is one text per expression |
| AttributeParts.InterleaveSplit | es/index.js:1181-1196 | an interpolation is its first `i` fragments and texts, followed by the interpolation of the rest |
| AttributeParts.EqualToPreviousValues | es/index.js:1199-1207 | true exactly when every value in `[startIndex, startIndex + size)` is primitive and `===` the previous value at the same index |
| AttributeParts.SameValuesAreUnchanged | es/index.js:1199-1207 | primitive values set twice compare equal, so the second call writes nothing |
| AttributeParts.ObjectIsAlwaysChanged | es/index.js:1202-1204 | a non-primitive value always counts as a change, even the same object |
| AttributeParts.WholeValueIsInterpolation | es/index.js:1214-1221 | in the whole-value case (`strings == ['', '']`) the fast path writes what interpolation writes, except for `noChange`, non-array iterables and arrays with null-like items |
| AttributeParts.AttributePart.SetValue | es/index.js:1208-1229 | no write and `_previousValues` kept when every slot is unchanged; otherwise the attribute is written unless the value is `noChange`, and `_previousValues` is replaced either way |
| AttributeParts.PropertyPart.SetValue | es/index.js:1783-1804 | the same for the element's property, which receives the single value in the whole-value case and the interpolated string otherwise |
| AttributeParts.BooleanAttributePart.SetValue | es/index.js:1763-1782 | it throws exactly when `strings` is not `['', '']`, so a fixed text beside the one expression throws too; a truthy value sets the attribute to `''`, a falsy one removes it, and `noChange` leaves it |
| AttributeParts.EventPart.SetValue | es/index.js:1811-1823 | no-op for the same listener; the registration is removed exactly on a transition to null/undefined and added exactly on a transition from null/undefined; the part stays registered iff `_listener != null` |
| Values.GetValue | es/index.js:1153-1162 | a directive yields `noChange`; `null` becomes `undefined`; any other value is itself |
| Values.JoinEmptyIsConcatWithoutNullish | es/index.js:1214-1221 | `join('')` and item-by-item concatenation agree on arrays without null-like items |
| Values.JoinValues | es/index.js:1218 | `join('')` of null-like items is empty |
| Dom.RemoveNodes | es/index.js:1439-1446 | the children from the start node up to, but not including, the first end node after it are removed; the others stay in order |
| Dom.RemoveFrom | es/index.js:1439-1446 | clearing a window keeps its markers and the children around it, and keeps created nodes unique |
| NodePartOps.PostTrans | es/index.js:1238-1366 | two operations on a part, one after the other, make one operation: same place, same markers, other parts untouched |
| NodePartOps.Clear | es/index.js:1367-1369 | only the children between the part's markers are removed |
| NodePartOps.Insert | es/index.js:1268-1270 | the node goes just before the end marker |
| NodePartOps.SetNode | es/index.js:1271-1277 | a part already holding this very node does nothing; otherwise its window becomes the markers around the node, recorded as the previous value |
| NodePartOps.SingleText | es/index.js:1279-1283 | the test `_setText` makes, read over the node kinds the model has: the node after the start marker is the node before the end marker and a text node the engine created exactly when the window holds one such node |
| NodePartOps.SetText | es/index.js:1278-1294 | one engine-created text node in the window gets the new string; any other window is cleared and given a new text node; `undefined` shows as `''`, and the value is recorded |
| NodePartOps.NewText | es/index.js:1291 | the other branch: a fresh text node with the string form, between the markers |
| NodePartOps.SetTemplateResult | es/index.js:1295-1307 | an instance of the same template is kept untouched; otherwise the window is replaced by the new clone |
| NodePartOps.SetPromise | es/index.js:1359-1361 | the promise is recorded and nothing else changes |
| NodePartOps.ItemStep | es/index.js:1343 | rendering item `k` in the window the tiling gives it is an operation on the owner and leaves the other item parts alone |
| ItemParts.Reset | es/index.js:1318-1350 | the window is emptied and `_previousValue` becomes `[]` or `undefined` |
| ItemParts.AddFirstItem | es/index.js:1331-1342 | the first item part shares the owner's markers and holds `undefined` |
| ItemParts.AddItemAfter | es/index.js:1331-1342 | a new empty text node separates the items; the previous item part ends at it, and so do its nested last item parts (the corrected update); the new part runs from it to the owner's end; the other items keep what they render |
| ItemParts.Truncate | es/index.js:1351-1357 | the item parts from `k` on are dropped along with their nodes; the last kept part ends at the owner's end marker, and so do its nested last item parts (the corrected update); the kept item parts keep what they render |
| Rendering.SetValue | es/index.js:1238-1267 | `noChange` and an unchanged primitive do nothing; every other value goes to its own step; afterwards the part owns a well-formed window in the same place and records what it renders |
| Rendering.SetIterable | es/index.js:1308-1358 | item part `k` renders item `k`; with no items the part is cleared and records `undefined`; otherwise it holds one item part per item, the existing item parts are reused in order, and the ones beyond them are parts created by this call; extra item parts are dropped; the part renders the iterable |
| Rendering.RenderItem | es/index.js:1327-1344 | one round of the loop extends the rendered prefix by one item |
| Rendering.EnsureItem | es/index.js:1329-1342 | an existing item part is reused as is; a missing one is created |
| Rendering.DoneMatches | es/index.js:1345-1357 | when all items are rendered, one part each, the part records the whole iterable |
| Rendering.Resolve | es/index.js:1362-1364 | the resolved value is set only while the part still records that promise; otherwise nothing changes |
| NodeParts.SetEndChain | es/index.js:1334-1356 | the corrected end-marker update: it moves the end of the part and of its nested last item parts |
| NodeParts.EndChainWF | es/index.js:1334-1356 | moving the chain to a new created node keeps the part owning its window, with the last node replaced |
| NodeParts.EndChainShape | es/index.js:1334-1356 | only end markers change, only for parts the part reaches |
| NodeParts.AsWrittenSetEnd | es/index.js:1334-1356 | as written: only that one part's end marker moves |
| NodeParts.ItemsShareEnd | es/index.js:1334-1356 | in every well-formed state an iterable's part ends where its last item part ends |
| NodeParts.MatchesFrame | es/index.js:1238-1366 | what a part records depends only on the parts it reaches |
| NodeParts.WFFrame | es/index.js:1238-1366 | a window stays well formed when the reached parts and its text nodes are unchanged |
| NestedItems.StaleNestedEnd | es/index.js:1334-1338 | counterexample: after rendering `[['a','b']]`, the assignment as written for `[['a','b'], 'c']` leaves the nested last item part ending past the new separator, which no well-formed state allows |
| ClassNames.TruthyNames | es/index.js:1840-1849 | no more names than properties |
| ClassNames.TruthyNamesMeaning | es/index.js:1840-1849 | a name is listed exactly when its property has a truthy value |
| ClassNames.TruthyNamesSnoc | es/index.js:1843-1846 | one more property keeps the earlier names and appends its own when truthy |
| ClassNames.ClassString | es/index.js:1840-1849 | the result is the truthy properties' names, in order, joined by single spaces |
| ClassNames.NoTruthyNames | es/index.js:1840-1849 | with no truthy property the class string is empty |
| ClassNames.CnTrimmed | es/index.js:2054 | `cn(...)` is the join of its arguments less a white-space prefix and a white-space suffix, and has no white space at either end |
| ClassNames.CnIgnoresBlankLast | es/index.js:2054 | an empty (unset) or blank last argument, as in `cn('input', classname)`, leaves the result as it was |
| ClassNames.JoinSnoc | es/index.js:2054 | one more argument is joined after a single space |
| ClassNames.CnOfTidyNames | es/index.js:2054 | for names without surrounding white space, `cn` only joins them with single spaces |
| ClassNames.JoinEnds | es/index.js:2054 | the join of such names starts with the first name's first character and ends with the last name's last character |
| Strings.Trim | es/index.js:2054 | `trim()`: the input less a white-space prefix and a white-space suffix, with no white space at either end of the result |
| Strings.TrimTrailingSpace | es/index.js:2054 | white space added after a string does not change its trimmed form |
| MicroTask.Queue.Run | es/index.js:125-129 | the callback is queued, the text node is bumped, and the returned handle indexes the callback's entry |
| MicroTask.Queue.Cancel | es/index.js:138-146 | a handle from before the last flush is ignored; an unissued handle or a falsy entry throws `invalid async handle: <handle>`; otherwise the entry becomes null |
| MicroTask.Queue.Flush | es/index.js:87-101 | the truthy entries are called in queue order; then the queue is emptied and `lastHandle` moves past them; handles stay `lastHandle + index` |
| MicroTask.Runnable | es/index.js:89-97 | a flush calls only truthy entries, never more than there are entries |
| MicroTask.RunnableAppend | es/index.js:89-97 | the calls for two stretches of the queue follow one another |
| MicroTask.RunnableSkipsNull | es/index.js:89-97 | a nulled entry is never called |
| MicroTask.CancelledNotRun | es/index.js:138-146 | cancelling a queued callback removes exactly that call from the next flush and keeps the others in order |
| MicroTask.RunnableMeaning | es/index.js:89-97 | a value is called exactly when it is a truthy entry |
| Properties.SerializeValue | es/index.js:634-641 | no attribute (`undefined`) exactly for `false`, `null` and `undefined`; `true` gives `''`; a string gives itself; a number gives its decimal form; anything else its `toString()` |
| Properties.ValueToNodeAttribute | es/index.js:614-621 | the attribute is removed when the value does not serialize, and set to the serialization otherwise |
| Properties.Capture | es/index.js:411-413 | the old value is recorded only if the batch has none for the property; other entries are kept |
| Properties.CaptureKeepsFirst | es/index.js:411-413 | capturing again never replaces the first recorded old value |
| Properties.PropertyBatch.GetProperty | es/index.js:387-389 | a missing property reads as `undefined` |
| Properties.PropertyBatch.SetPendingProperty | es/index.js:404-420 | `changed` is `old !== value`; a change opens a batch if none is open, records the old value only the first time in a batch, and stores the value in `__data` and `__dataPending`; keeps the invariant that every recorded old value is the value at the batch's start |
| Properties.PropertyBatch.FlushProperties | es/index.js:474-481 | with an open batch, the storage, pending and old bags are handed on and both bags reset to null; with none nothing is called |

## Left out

- DOM parsing and the TreeWalker itself: `innerHTML`, `Template`'s constructor, `cloneNode` and `importNode`. Content is an abstract tree with a pre-order flatten, and node identity is an id.
- The regular expressions: `lastAttributeNameRegex` and `split(markerRegex)`.
- `Math.random()` marker digits. The marker is a constant of the right shape (`Literal.Marker`). The model does not state that the marker never occurs in a fragment, because nothing proved here depends on it.
- ShadyCSS scoping (`shadyTemplateFactory`, style preparation). `Instance.Render` does not model the `scopeName` branch.
- Instance.Render: the update's part calls are returned rather than performed, so an exception a call throws (such as `BooleanAttributePart`'s at es/index.js:1779) is not modelled. `Success` means only that the clone succeeded; in the source such a throw leaves a fresh render's old content in place and propagates out of a repeat render.
- MutationObserver wiring, the `setTimeout` rethrow of a failing callback, and `renderComplete`.
- MicroTask.Queue.Flush: callbacks that run or cancel during a flush are not modelled. A flush here calls a snapshot of the queue.
- Promise scheduling. `Rendering.Resolve` is an event that may happen at any time.
- Mixins, `defineProperty` accessors, `_invalidateProperties`, `_enableProperties`, and the LitElement lifecycle.
- Floating point:
  - NaN is not a value, so `_shouldPropertyChange`'s NaN clause is always true here.
  - `_deserializeValue` is not part of this model.
- Directive invocation. A directive is a flag whose `getValue` is `noChange`. `EventPart.handleEvent` and `console.trace` are left out too.
- Generated CSS class-name tables and widget templates.
- NodePartOps.SetText: a caller's `Text` node alone between the markers is not retexted in place. The source's test is `nodeType === Node.TEXT_NODE`, so it would set that node's `textContent`. Here the window is cleared and given a new text node instead, because supplied nodes carry no node kind and no contents in this model.
- NodePartOps.SingleText: for the same reason, it states the test only for text nodes the engine created.
- ItemParts.AddItemAfter: it moves the end marker of the previous item part and of that part's nested last item parts (`NodeParts.SetEndChain`). The source assigns only `previousPart.endNode` (es/index.js:1334). See Findings.
- ItemParts.Truncate: it moves the end marker of the last kept item part and of its nested last item parts to the owner's end. The source assigns only `lastPart.endNode` (es/index.js:1355). See Findings.
- Rendering.SetIterable: it renders through `ItemParts.AddItemAfter` and `ItemParts.Truncate`, so it is the corrected `_setIterable`, not the one as written, when a nested iterable is the last item.
- ClassNames.Cn: its arguments are strings; an `undefined` or `null` argument, which `join` renders as `''`, is passed as `""`.
- NodePartOps.SetTemplateResult: the new instance's fragment is one opaque created node, and the update of an instance being reused is not modelled.
- Supplied DOM nodes are never moved. Inserting a node that is already a child elsewhere is not modelled, so supplied nodes may repeat.
- The order of `for...in`, including integer-like keys first and inherited properties, is not modelled. `ClassNames.ClassInfo` is the enumeration order.
- `Strings.IsSpace` covers the ASCII white space `trim()` removes, not the Unicode spaces.

## Findings

| source | as written | input that shows it | evidently intended | confidence | as-written member | corrected member |
|---|---|---|---|---|---|---|
| es/index.js:1505-1510 | `part = parts[++partIndex]` visits descriptors one by one, and the loop ends at an inactive descriptor (index -1), whose index never equals a walk position | descriptors at -1 and 1 over two sibling nodes, the first removed: the second descriptor keeps index 1, past the end of the one-node content. The defect is latent in this bundle: only an earlier removal makes a descriptor -1, and `ensureStylesScoped` removes from a template at most once, so it shows only on a second removal over the same template | skip inactive descriptors, as `insertNodeIntoTemplate` does with `nextActiveIndexInTemplateParts` | not executed | TemplateParts.RemovalWalk, TemplateParts.InactiveDescriptorStopsRewrite | TemplateParts.RepairedRemovalWalk, TemplateParts.RemovalKeepsParts |
| es/index.js:1491-1493 | a removal run ends only at a node whose previous sibling is the removed node | `<a><b></b></a><c></c>` with `b` removed: `c`'s previous sibling is `a`, so the run never closes and `c`'s descriptor becomes -1 | end the run at the first node outside the removed node's subtree | not executed | TemplateParts.RemovalWalk, TemplateParts.RunOutlivesLastChild | TemplateParts.RepairedRemovalWalk, TemplateParts.RunEndsAfterSubtree |
| es/index.js:1334-1356 | `previousPart.endNode = ...` and `lastPart.endNode = this.endNode` move only the item part's own end marker | render `[['a','b']]`, then `[['a','b'],'c']`: the inner list's last item part still ends at the outer end marker, past the new separator | move the end marker of the nested last item parts too | not executed | NodeParts.AsWrittenSetEnd, NestedItems.StaleNestedEnd | NodeParts.SetEndChain, NodeParts.EndChainWF |
