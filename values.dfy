/** The JavaScript values that flow through the rendering engine.

    Every object carries a `ref`, its identity: two object values are `===` exactly when
    their identities agree.  What an object's own `toString` returns is code this model cannot
    see, so it is carried as data (`repr`). */
module Values {
  import opened Strings

  datatype Value =
    | Undefined
    | Null
    | Bool(b: bool)
    | Num(n: int)
    | Str(s: string)
    | Obj(ref: nat, repr: string)
      /** a function; `directive` is its `__litDirective === true` tag */
    | Func(ref: nat, repr: string, directive: bool)
      /** an Array */
    | Arr(ref: nat, items: seq<Value>)
      /** a non-array object with a `Symbol.iterator` (a Set, a generator, ...) */
    | Iter(ref: nat, items: seq<Value>, repr: string)
      /** a TemplateResult; `strings` is the identity of the literal's string array */
    | Template(ref: nat, strings: nat, values: seq<Value>)
      /** an object whose `then` member is defined (a promise) */
    | Thenable(ref: nat, repr: string)
      /** a DOM node supplied by the caller */
    | DomNode(ref: nat, repr: string)
      /** the `noChange` sentinel object */
    | NoChange

  /** Object identity for `===` on non-primitive values. */
  datatype Identity = Ref(n: nat) | NoChangeId

  /** `isPrimitiveValue` (es/index.js:1168-1169): null, or neither an object nor a function. */
  predicate IsPrimitive(v: Value)
  {
    v.Undefined? || v.Null? || v.Bool? || v.Num? || v.Str?
  }

  function IdentityOf(v: Value): Identity
    requires !IsPrimitive(v)
  {
    if v.NoChange? then NoChangeId else Ref(v.ref)
  }

  /** JavaScript `===` (NaN is not modelled: numbers are integers here). */
  predicate StrictEq(a: Value, b: Value)
  {
    if IsPrimitive(a) || IsPrimitive(b) then a == b else IdentityOf(a) == IdentityOf(b)
  }

  /** `== null`: true of `null` and `undefined` only. */
  predicate IsNullish(v: Value)
  {
    v.Undefined? || v.Null?
  }

  /** JavaScript truthiness. */
  predicate Truthy(v: Value)
  {
    match v
    case Undefined => false
    case Null => false
    case Bool(b) => b
    case Num(n) => n != 0
    case Str(s) => s != ""
    case _ => true
  }

  /** `Array.isArray(v) || typeof v !== 'string' && v[Symbol.iterator]` */
  predicate IsIterable(v: Value)
  {
    v.Arr? || v.Iter?
  }

  function Items(v: Value): seq<Value>
    requires IsIterable(v)
  {
    v.items
  }

  function DigitChar(d: nat): char
    requires d < 10
  {
    "0123456789"[d]
  }

  /** Decimal representation of a natural number, without leading zeros. */
  function NatToString(n: nat): (r: string)
    ensures |r| >= 1
    ensures n < 10 <==> |r| == 1
    decreases n
  {
    if n < 10 then [DigitChar(n)] else NatToString(n / 10) + [DigitChar(n % 10)]
  }

  /** The digits of a natural number read back as a number. */
  function DigitsValue(s: string): int
  {
    if s == [] then 0 else DigitsValue(s[..|s| - 1]) * 10 + CharValue(s[|s| - 1])
  }

  function CharValue(c: char): int
  {
    if '0' <= c <= '9' then c as int - '0' as int else 0
  }

  /** The decimal text of `n` reads back as `n`. */
  lemma {:induction false} NatToStringRoundTrip(n: nat)
    ensures DigitsValue(NatToString(n)) == n
  {
    if n < 10 {
      assert DigitsValue([DigitChar(n)]) == DigitsValue([]) * 10 + CharValue(DigitChar(n));
    } else {
      NatToStringRoundTrip(n / 10);
      var s := NatToString(n / 10) + [DigitChar(n % 10)];
      assert s[..|s| - 1] == NatToString(n / 10);
    }
  }

  function IntToString(n: int): string
  {
    if n < 0 then "-" + NatToString(-n) else NatToString(n)
  }

  /** `String(v)`, which is also what `text += v` appends. */
  function ToString(v: Value): string
  {
    match v
    case Undefined => "undefined"
    case Null => "null"
    case Bool(b) => if b then "true" else "false"
    case Num(n) => IntToString(n)
    case Str(s) => s
    case Obj(_, repr) => repr
    case Func(_, repr, _) => repr
    case Arr(_, items) => JoinValues(items, ",")
    case Iter(_, _, repr) => repr
    case Template(_, _, _) => "[object Object]"
    case Thenable(_, repr) => repr
    case DomNode(_, repr) => repr
    case NoChange => "[object Object]"
  }

  /** `items.join(sep)`: `null` and `undefined` items contribute the empty string. */
  function JoinValues(items: seq<Value>, sep: string): (r: string)
    ensures (forall k :: 0 <= k < |items| ==> IsNullish(items[k])) && sep == "" ==> r == ""
  {
    if |items| == 0 then ""
    else if |items| == 1 then (if IsNullish(items[0]) then "" else ToString(items[0]))
    else (if IsNullish(items[0]) then "" else ToString(items[0])) + sep + JoinValues(items[1..], sep)
  }

  /** The text a `for (const t of v) text += t` loop appends. */
  function ConcatValues(items: seq<Value>): string
  {
    if |items| == 0 then "" else ToString(items[0]) + ConcatValues(items[1..])
  }

  /** `join('')` and item-by-item concatenation differ only in how they render
      `null` and `undefined` items. */
  lemma {:induction false} JoinEmptyIsConcatWithoutNullish(items: seq<Value>)
    requires forall k :: 0 <= k < |items| ==> !IsNullish(items[k])
    ensures JoinValues(items, "") == ConcatValues(items)
  {
    if |items| > 1 {
      JoinEmptyIsConcatWithoutNullish(items[1..]);
      assert ConcatValues(items[1..][..0]) == "";
    }
  }

  /** `getValue` (es/index.js:1153-1162).  A directive is a function the model cannot run:
      it is treated as having handled the part itself, so the result is `noChange`. */
  function GetValue(v: Value): (r: Value)
    ensures r.Null? == false
    ensures v.Func? && v.directive ==> r == NoChange
    ensures v.Null? ==> r == Undefined
    ensures !(v.Func? && v.directive) && !v.Null? ==> r == v
  {
    if v.Func? && v.directive then NoChange
    else if v.Null? then Undefined
    else v
  }

  /** Element `i` of a JavaScript array, `undefined` when out of range. */
  function At(values: seq<Value>, i: int): Value
  {
    if 0 <= i < |values| then values[i] else Undefined
  }
}
