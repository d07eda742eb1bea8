/** The parts bound to an element's attributes, properties and events (es/index.js:1170-1230,
    1763-1823). */
module AttributeParts {
  import opened Wrappers
  import opened Strings
  import opened Values

  /** The element a part writes to: its attributes, its JavaScript properties and its
      event-listener registrations (event name and listener object). */
  class Element {
    var attributes: map<string, string>
    var properties: map<string, Value>
    var listeners: set<(string, object)>

    constructor()
      ensures attributes == map[] && properties == map[] && listeners == {}
    {
      attributes := map[];
      properties := map[];
      listeners := {};
    }
  }

  // ---------------------------------------------------------------------------
  // Interpolation

  /** The text one interpolated value contributes: the concatenation of its items for an
      array or other iterable, its string form otherwise. */
  function ValueText(v: Value): string
  {
    if IsIterable(v) then ConcatValues(Items(v)) else ToString(v)
  }

  /** The texts of the `|strings| - 1` values an attribute reads from `startIndex` on. */
  function Texts(strings: seq<string>, values: seq<Value>, startIndex: int): (r: seq<string>)
    requires |strings| >= 1
    ensures |r| == |strings| - 1
    ensures forall i :: 0 <= i < |r| ==> r[i] == ValueText(GetValue(At(values, startIndex + i)))
  {
    seq(|strings| - 1, i requires 0 <= i < |strings| - 1 => ValueText(GetValue(At(values, startIndex + i))))
  }

  /** The text of an interpolated attribute: `s0 + t0 + s1 + ... + t(n-1) + sn`. */
  function Interpolation(strings: seq<string>, values: seq<Value>, startIndex: int): string
    requires |strings| >= 1
  {
    Interleave(strings, Texts(strings, values, startIndex))
  }

  /** The first `i` fragments, each followed by its fill. */
  function TextBefore(strings: seq<string>, fills: seq<string>, i: nat): string
    requires |strings| == |fills| + 1 && i <= |fills|
  {
    if i == 0 then "" else TextBefore(strings, fills, i - 1) + strings[i - 1] + fills[i - 1]
  }

  /** An interleaving is its first `i` fragments and fills followed by the interleaving of
      the rest. */
  lemma {:induction false} InterleaveSplit(strings: seq<string>, fills: seq<string>, i: nat)
    requires |strings| == |fills| + 1 && i <= |fills|
    ensures Interleave(strings, fills) == TextBefore(strings, fills, i) + Interleave(strings[i..], fills[i..])
  {
    if i > 0 {
      InterleaveSplit(strings, fills, i - 1);
      assert strings[i - 1..][1..] == strings[i..];
      assert fills[i - 1..][1..] == fills[i..];
    }
  }

  lemma {:induction false} ConcatValuesSnoc(items: seq<Value>, x: Value)
    ensures ConcatValues(items + [x]) == ConcatValues(items) + ToString(x)
  {
    if items != [] {
      ConcatValuesSnoc(items[1..], x);
      assert (items + [x])[1..] == items[1..] + [x];
    } else {
      assert ([x])[1..] == [];
    }
  }

  lemma ConcatPrefixStep(items: seq<Value>, k: nat)
    requires k < |items|
    ensures ConcatValues(items[..k + 1]) == ConcatValues(items[..k]) + ToString(items[k])
  {
    ConcatValuesSnoc(items[..k], items[k]);
    assert items[..k + 1] == items[..k] + [items[k]];
  }

  /** The inner `for (const t of v) text += t` loop of `_interpolate`. */
  method AppendItems(text: string, items: seq<Value>) returns (r: string)
    ensures r == text + ConcatValues(items)
  {
    r := text;
    var k := 0;
    while k < |items|
      invariant 0 <= k <= |items|
      invariant r == text + ConcatValues(items[..k])
    {
      ConcatPrefixStep(items, k);
      r := r + ToString(items[k]);
      k := k + 1;
    }
    assert items[..|items|] == items;
  }

  /** The loop's guard picks out exactly the iterables, whose text is their items'. */
  lemma IterableGuard(v: Value)
    ensures (Truthy(v) && v != NoChange && (v.Arr? || (!v.Str? && IsIterable(v)))) == IsIterable(v)
    ensures IsIterable(v) ==> ValueText(v) == ConcatValues(Items(v))
    ensures !IsIterable(v) ==> ValueText(v) == ToString(v)
  {
  }

  /** Appending fragment `i` and the text of value `i` extends the interpolation prefix. */
  lemma TextBeforeStep(strings: seq<string>, values: seq<Value>, startIndex: int, i: nat, before: string, after: string)
    requires i < |strings| - 1
    requires before == TextBefore(strings, Texts(strings, values, startIndex), i)
    requires after == before + strings[i] + ValueText(GetValue(At(values, startIndex + i)))
    ensures after == TextBefore(strings, Texts(strings, values, startIndex), i + 1)
  {
  }

  /** `_interpolate` (es/index.js:1179-1198). */
  method Interpolate(strings: seq<string>, values: seq<Value>, startIndex: int) returns (text: string)
    requires |strings| >= 1
    ensures text == Interpolation(strings, values, startIndex)
  {
    ghost var fills := Texts(strings, values, startIndex);
    var l := |strings| - 1;
    text := "";
    var i := 0;
    while i < l
      invariant 0 <= i <= l
      invariant text == TextBefore(strings, fills, i)
    {
      ghost var before := text;
      text := text + strings[i];
      var v := GetValue(At(values, startIndex + i));
      IterableGuard(v);
      if Truthy(v) && v != NoChange && (v.Arr? || (!v.Str? && IsIterable(v))) {
        text := AppendItems(text, Items(v));
      } else {
        text := text + ToString(v);
      }
      TextBeforeStep(strings, values, startIndex, i, before, text);
      i := i + 1;
    }
    InterleaveSplit(strings, fills, l);
    text := text + strings[l];
  }

  /** Every value of the slots `[startIndex, startIndex + size)` is primitive and `===` the
      previous value at the same index. */
  predicate SameAsPrevious(previousValues: seq<Value>, values: seq<Value>, startIndex: int, size: int)
  {
    forall i :: startIndex <= i < startIndex + size ==>
      StrictEq(At(previousValues, i), At(values, i)) && IsPrimitive(At(values, i))
  }

  /** `_equalToPreviousValues` (es/index.js:1199-1207). */
  method EqualToPreviousValues(previousValues: seq<Value>, values: seq<Value>, startIndex: int, size: int) returns (equal: bool)
    ensures equal <==> SameAsPrevious(previousValues, values, startIndex, size)
  {
    var i := startIndex;
    while i < startIndex + size
      invariant startIndex <= i || size <= 0
      invariant forall k :: startIndex <= k < i ==> StrictEq(At(previousValues, k), At(values, k)) && IsPrimitive(At(values, k))
      decreases startIndex + size - i
    {
      if !StrictEq(At(previousValues, i), At(values, i)) || !IsPrimitive(At(values, i)) {
        return false;
      }
      i := i + 1;
    }
    return true;
  }

  /** An expression that is the whole attribute value leaves two empty fragments. */
  predicate WholeValue(strings: seq<string>)
  {
    |strings| == 2 && strings[0] == "" && strings[1] == ""
  }

  /** The text `AttributePart.setValue` writes, or none for `noChange`. */
  function AttributeText(strings: seq<string>, values: seq<Value>, startIndex: int): Option<string>
    requires |strings| >= 1
  {
    if WholeValue(strings) then
      var v := GetValue(At(values, startIndex));
      if v == NoChange then None
      else Some(if v.Arr? then JoinValues(v.items, "") else ToString(v))
    else Some(Interpolation(strings, values, startIndex))
  }

  /** The value `PropertyPart.setValue` assigns, or none for `noChange`. */
  function PropertyValue(strings: seq<string>, values: seq<Value>, startIndex: int): Option<Value>
    requires |strings| >= 1
  {
    if WholeValue(strings) then
      var v := GetValue(At(values, startIndex));
      if v == NoChange then None else Some(v)
    else Some(Str(Interpolation(strings, values, startIndex)))
  }

  // ---------------------------------------------------------------------------
  // The parts

  /** `AttributePart` (es/index.js:1170-1230): sets one attribute from the static strings and
      the values. */
  class AttributePart {
    const element: Element
    const name: string
    const strings: seq<string>
    const size: int
    var previousValues: seq<Value>

    /** The parser always gives at least the fragments around one expression. */
    constructor(element: Element, name: string, strings: seq<string>)
      requires |strings| >= 1
      ensures this.element == element && this.name == name && this.strings == strings
      ensures size == |strings| - 1 && previousValues == []
    {
      this.element := element;
      this.name := name;
      this.strings := strings;
      size := |strings| - 1;
      previousValues := [];
    }

    predicate Valid()
    {
      |strings| >= 1 && size == |strings| - 1
    }

    /** `setValue` (es/index.js:1208-1229): nothing at all happens when every slot holds the
        same primitive as before; otherwise the attribute is written unless the value is
        `noChange`, and the values are remembered either way. */
    method SetValue(values: seq<Value>, startIndex: int)
      requires Valid()
      modifies this, element
      ensures SameAsPrevious(old(previousValues), values, startIndex, size) ==>
        previousValues == old(previousValues) && element.attributes == old(element.attributes)
      ensures !SameAsPrevious(old(previousValues), values, startIndex, size) ==>
        previousValues == values
        && element.attributes == (match AttributeText(strings, values, startIndex)
                                  case None => old(element.attributes)
                                  case Some(t) => old(element.attributes)[name := t])
      ensures element.properties == old(element.properties) && element.listeners == old(element.listeners)
    {
      var equal := EqualToPreviousValues(previousValues, values, startIndex, size);
      if equal {
        return;
      }
      var value;
      if |strings| == 2 && strings[0] == "" && strings[1] == "" {
        // An expression that occupies the whole attribute value will leave
        // leading and trailing empty strings.
        value := GetValue(At(values, startIndex));
        if value.Arr? {
          value := Str(JoinValues(value.items, ""));
        }
      } else {
        var text := Interpolate(strings, values, startIndex);
        value := Str(text);
      }
      if value != NoChange {
        element.attributes := element.attributes[name := ToString(value)];
      }
      previousValues := values;
    }
  }

  /** `PropertyPart` (es/index.js:1783-1804): assigns the element property instead of an
      attribute, and passes a whole value through unconverted. */
  class PropertyPart {
    const element: Element
    const name: string
    const strings: seq<string>
    const size: int
    var previousValues: seq<Value>

    constructor(element: Element, name: string, strings: seq<string>)
      requires |strings| >= 1
      ensures this.element == element && this.name == name && this.strings == strings
      ensures size == |strings| - 1 && previousValues == []
    {
      this.element := element;
      this.name := name;
      this.strings := strings;
      size := |strings| - 1;
      previousValues := [];
    }

    predicate Valid()
    {
      |strings| >= 1 && size == |strings| - 1
    }

    method SetValue(values: seq<Value>, startIndex: int)
      requires Valid()
      modifies this, element
      ensures SameAsPrevious(old(previousValues), values, startIndex, size) ==>
        previousValues == old(previousValues) && element.properties == old(element.properties)
      ensures !SameAsPrevious(old(previousValues), values, startIndex, size) ==>
        previousValues == values
        && element.properties == (match PropertyValue(strings, values, startIndex)
                                  case None => old(element.properties)
                                  case Some(v) => old(element.properties)[name := v])
      ensures element.attributes == old(element.attributes) && element.listeners == old(element.listeners)
    {
      var equal := EqualToPreviousValues(previousValues, values, startIndex, size);
      if equal {
        return;
      }
      var value;
      if |strings| == 2 && strings[0] == "" && strings[1] == "" {
        value := GetValue(At(values, startIndex));
      } else {
        // Interpolation, so interpolate
        var text := Interpolate(strings, values, startIndex);
        value := Str(text);
      }
      if value != NoChange {
        element.properties := element.properties[name := value];
      }
      previousValues := values;
    }
  }

  /** `BooleanAttributePart` (es/index.js:1763-1782): the attribute is present (empty) for a
      truthy value and absent for a falsy one; it keeps no previous values. */
  class BooleanAttributePart {
    const element: Element
    const name: string
    const strings: seq<string>

    constructor(element: Element, name: string, strings: seq<string>)
      ensures this.element == element && this.name == name && this.strings == strings
    {
      this.element := element;
      this.name := name;
      this.strings := strings;
    }

    method SetValue(values: seq<Value>, startIndex: int) returns (outcome: Result<()>)
      modifies element
      ensures outcome.Failure? <==> !WholeValue(strings)
      ensures outcome.Failure? ==> outcome.error == "boolean attributes can only contain a single expression"
      ensures var v := GetValue(At(values, startIndex));
        element.attributes ==
          if !WholeValue(strings) || v == NoChange then old(element.attributes)
          else if Truthy(v) then old(element.attributes)[name := ""]
          else old(element.attributes) - {name}
      ensures element.properties == old(element.properties) && element.listeners == old(element.listeners)
    {
      if |strings| == 2 && strings[0] == "" && strings[1] == "" {
        var value := GetValue(At(values, startIndex));
        if value == NoChange {
          return Success(());
        }
        if Truthy(value) {
          element.attributes := element.attributes[name := ""];
        } else {
          element.attributes := element.attributes - {name};
        }
        return Success(());
      }
      return Failure("boolean attributes can only contain a single expression");
    }
  }

  /** `EventPart` (es/index.js:1805-1832): the part itself is the DOM listener; it is
      registered while it holds a listener. */
  class EventPart {
    const element: Element
    const eventName: string
    var listener: Value

    constructor(element: Element, eventName: string)
      ensures this.element == element && this.eventName == eventName && listener == Undefined
      ensures element.listeners == old(element.listeners) && Valid()
    {
      this.element := element;
      this.eventName := eventName;
      listener := Undefined;
    }

    /** This part is registered on its element for its event. */
    predicate Registered()
      reads this, element
    {
      (eventName, this as object) in element.listeners
    }

    /** The part is registered exactly while `_listener != null`. */
    predicate Valid()
      reads this, element
    {
      Registered() <==> !IsNullish(listener)
    }

    /** `setValue` (es/index.js:1811-1823): nothing happens for the same listener; a
        null-like listener unregisters the part, and a listener after a null-like one
        registers it. */
    method SetValue(value: Value)
      modifies this, element
      ensures StrictEq(GetValue(value), old(listener)) ==>
        listener == old(listener) && element.listeners == old(element.listeners)
      ensures !StrictEq(GetValue(value), old(listener)) ==>
        listener == GetValue(value)
        && element.listeners ==
          if IsNullish(GetValue(value)) then old(element.listeners) - {(eventName, this)}
          else if IsNullish(old(listener)) then old(element.listeners) + {(eventName, this)}
          else old(element.listeners)
      ensures element.attributes == old(element.attributes) && element.properties == old(element.properties)
      ensures old(Valid()) ==> Valid()
    {
      var l := GetValue(value);
      if StrictEq(l, listener) {
        return;
      }
      if IsNullish(l) {
        element.listeners := element.listeners - {(eventName, this)};
      } else if IsNullish(listener) {
        element.listeners := element.listeners + {(eventName, this)};
      }
      listener := l;
    }
  }

  // ---------------------------------------------------------------------------
  // Properties of the parts

  /** For a whole-value attribute the fast path writes what interpolation would, except for
      `noChange`, non-array iterables, and arrays with null-like items. */
  lemma WholeValueIsInterpolation(values: seq<Value>, startIndex: int)
    requires var v := GetValue(At(values, startIndex));
      v != NoChange && !v.Iter? && (v.Arr? ==> forall k :: 0 <= k < |v.items| ==> !IsNullish(v.items[k]))
    ensures AttributeText(["", ""], values, startIndex) == Some(Interpolation(["", ""], values, startIndex))
  {
    var v := GetValue(At(values, startIndex));
    var fills := Texts(["", ""], values, startIndex);
    assert ["", ""][1..] == [""];
    assert Interleave(["", ""], fills) == "" + fills[0] + Interleave([""], fills[1..]);
    assert fills[0] == ValueText(v);
    assert "" + fills[0] + "" == fills[0];
    assert WholeValue(["", ""]);
    if v.Arr? {
      JoinEmptyIsConcatWithoutNullish(v.items);
    }
  }

  /** Values made only of primitives count as unchanged when set again: the second of two
      `setValue` calls with the same values writes nothing. */
  lemma SameValuesAreUnchanged(values: seq<Value>, startIndex: int, size: int)
    requires forall i :: startIndex <= i < startIndex + size ==> IsPrimitive(At(values, i))
    ensures SameAsPrevious(values, values, startIndex, size)
  {
  }

  /** A non-primitive value in a slot always counts as a change, even the same object. */
  lemma ObjectIsAlwaysChanged(previousValues: seq<Value>, values: seq<Value>, startIndex: int, size: int, i: int)
    requires startIndex <= i < startIndex + size && !IsPrimitive(At(values, i))
    ensures !SameAsPrevious(previousValues, values, startIndex, size)
  {
  }
}
