/** The property bookkeeping of `PropertiesChanged`: the default attribute serialization
    (es/index.js:605-641) and the batching of pending changes with their old values
    (es/index.js:404-420, 474-481, 533-540). */
module Properties {
  import opened Wrappers
  import opened Values
  import opened AttributeParts

  // ---------------------------------------------------------------------------
  // Serialization

  /** `_serializeValue(value)`: a boolean becomes `''` when true and nothing when false; any
      other value becomes nothing when it is `null` or `undefined`, its string form otherwise. */
  function SerializeValue(v: Value): (r: Option<string>)
    ensures r.None? <==> v == Bool(false) || v == Null || v == Undefined
    ensures v == Bool(true) ==> r == Some("")
    ensures v.Str? ==> r == Some(v.s)
    ensures v.Num? ==> r == Some(IntToString(v.n))
  {
    if v.Bool? then (if v.b then Some("") else None)
    else if IsNullish(v) then None
    else Some(ToString(v))
  }

  /** `_valueToNodeAttribute(node, value, attribute)`: the attribute is removed when the value
      does not serialize and set to its serialization otherwise. */
  method ValueToNodeAttribute(node: Element, value: Value, attribute: string)
    modifies node
    ensures node.properties == old(node.properties) && node.listeners == old(node.listeners)
    ensures match SerializeValue(value)
      case None => node.attributes == old(node.attributes) - {attribute}
      case Some(s) => node.attributes == old(node.attributes)[attribute := s]
  {
    var str := SerializeValue(value);
    if str.None? {
      node.attributes := node.attributes - {attribute};
    } else {
      node.attributes := node.attributes[attribute := str.value];
    }
  }

  // ---------------------------------------------------------------------------
  // Pending changes

  /** `bag[property]`: `undefined` for a missing property. */
  function Lookup(bag: map<string, Value>, property: string): Value
  {
    if property in bag then bag[property] else Undefined
  }

  /** `_shouldPropertyChange(property, value, old)`: whether the new value is not `===` the
      old one (NaN, whose self-inequality the source also handles, is not a value here). */
  predicate ShouldPropertyChange(value: Value, previous: Value)
  {
    !StrictEq(previous, value)
  }

  /** Recording `previous` for `property` unless the batch already holds an old value for it. */
  function Capture(before: map<string, Value>, property: string, previous: Value): (r: map<string, Value>)
    ensures r.Keys == before.Keys + {property}
    ensures property in r && r[property] == (if property in before then before[property] else previous)
    ensures forall k :: k in before && k != property ==> r[k] == before[k]
  {
    if property in before then before else before[property := previous]
  }

  /** Capturing again never replaces the first value recorded for a property. */
  lemma {:induction false} CaptureKeepsFirst(before: map<string, Value>, property: string, a: Value, b: Value)
    ensures Capture(Capture(before, property, a), property, b) == Capture(before, property, a)
  {
  }

  /** Pending and old bags exist together and name the same properties; a pending property
      holds its stored value, its old value is the one it had when the batch opened (`start`),
      and every property not pending still has that value. */
  ghost predicate Batch(data: map<string, Value>, pending: Option<map<string, Value>>,
                        before: Option<map<string, Value>>, start: map<string, Value>)
  {
    pending.Some? == before.Some?
    && (pending.Some? ==>
          pending.value.Keys == before.value.Keys
          && (forall k :: k in pending.value ==> Lookup(data, k) == pending.value[k])
          && (forall k :: k in before.value ==> before.value[k] == Lookup(start, k))
          && (forall k :: k !in pending.value ==> Lookup(data, k) == Lookup(start, k)))
  }

  /** A change of one property keeps the bookkeeping together: the batch is opened on the
      storage as it was if none was open, and the property's first old value is kept. */
  lemma ChangeKeepsBatch(data: map<string, Value>, pending: Option<map<string, Value>>,
                         before: Option<map<string, Value>>, start: map<string, Value>,
                         property: string, value: Value)
    requires Batch(data, pending, before, start)
    ensures var p := if pending.Some? then pending.value else map[];
      var b := if before.Some? then before.value else map[];
      Batch(data[property := value], Some(p[property := value]),
            Some(Capture(b, property, Lookup(data, property))),
            if pending.Some? then start else data)
  {
  }

  /** An element's property storage (`__data`), the pending changes (`__dataPending`) and the
      old values of the pending properties (`__dataOld`), both `null` between batches.
      `batchStart` is the storage as it was when the current batch opened. */
  class PropertyBatch {
    var data: map<string, Value>
    var pending: Option<map<string, Value>>
    var before: Option<map<string, Value>>
    ghost var batchStart: map<string, Value>

    /** The bookkeeping holds together (see `Batch`). */
    ghost predicate Valid()
      reads this
    {
      Batch(data, pending, before, batchStart)
    }

    constructor()
      ensures Valid() && data == map[] && pending == None && before == None
    {
      data := map[];
      pending := None;
      before := None;
      batchStart := map[];
    }

    /** `_getProperty(property)`. */
    function GetProperty(property: string): (r: Value)
      reads this
      ensures property !in data ==> r == Undefined
    {
      Lookup(data, property)
    }

    /** `_setPendingProperty(property, value)`: when the value changes, opens a batch if none is
        open, records the property's old value unless the batch already has one, and stores
        the value in the storage and the pending bag; the result says whether it changed. */
    method SetPendingProperty(property: string, value: Value) returns (changed: bool)
      requires Valid()
      modifies this
      ensures Valid()
      ensures changed == ShouldPropertyChange(value, Lookup(old(data), property))
      ensures !changed ==> data == old(data) && pending == old(pending) && before == old(before)
      ensures changed ==>
        data == old(data)[property := value]
        && pending == Some((if old(pending).Some? then old(pending).value else map[])[property := value])
        && before == Some(Capture(if old(before).Some? then old(before).value else map[], property, Lookup(old(data), property)))
      ensures old(pending).Some? ==> batchStart == old(batchStart)
      ensures changed && old(pending).None? ==> batchStart == old(data)
    {
      ghost var (data0, pending0, before0, start0) := (data, pending, before, batchStart);
      var previous := Lookup(data, property);
      changed := ShouldPropertyChange(value, previous);
      if changed {
        if pending.None? {
          pending := Some(map[]);
          before := Some(map[]);
          batchStart := data;
        }
        if before.Some? && property !in before.value {
          before := Some(before.value[property := previous]);
        }
        data := data[property := value];
        pending := Some(pending.value[property := value]);
        ChangeKeepsBatch(data0, pending0, before0, start0, property, value);
      }
    }

    /** `_flushProperties()` with the default `_shouldPropertiesChange`: when a batch is open it
        is closed and handed to `_propertiesChanged` (returned here) with the current storage;
        otherwise nothing happens. */
    method FlushProperties() returns (called: bool, props: map<string, Value>,
                                      changedProps: map<string, Value>, oldProps: map<string, Value>)
      requires Valid()
      modifies this
      ensures Valid() && data == old(data) && pending == None && before == None
      ensures called == old(pending).Some?
      ensures called ==> props == data && Some(changedProps) == old(pending) && Some(oldProps) == old(before)
    {
      props := data;
      called := pending.Some?;
      changedProps, oldProps := map[], map[];
      if called {
        changedProps, oldProps := pending.value, before.value;
      }
      pending := None;
      before := None;
    }
  }
}
