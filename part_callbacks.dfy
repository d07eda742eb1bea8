/** The part factories: which kind of part the engine creates for a descriptor
    (es/index.js:1371-1379, 1737-1755). */
module PartCallbacks {
  import opened Wrappers
  import opened Strings
  import opened TemplateParts

  /** The part a factory creates, with the arguments it passes to the part's constructor. */
  datatype PartChoice =
    | EventChoice(eventName: string)
    | AttributeChoice(name: string, strings: seq<string>)
    | BooleanChoice(name: string, strings: seq<string>)
    | PropertyChoice(name: string, strings: seq<string>)
    | NodeChoice

  /** The last character of `s` as a string, `s.substr(s.length - 1)`. */
  function LastChar(s: string): (r: string)
    ensures |s| == 0 ==> r == ""
    ensures |s| > 0 ==> r == [s[|s| - 1]]
  {
    if |s| == 0 then "" else s[|s| - 1..]
  }

  /** `s.slice(0, -1)` */
  function DropLast(s: string): (r: string)
    ensures |s| > 0 ==> r + [s[|s| - 1]] == s
  {
    if |s| == 0 then "" else s[..|s| - 1]
  }

  /** `defaultPartCallback` (es/index.js:1371-1379): attribute descriptors give attribute
      parts, node descriptors node parts, and any other type throws. */
  function DefaultPartCallback(part: TemplatePart): (r: Result<PartChoice>)
    ensures r.Failure? <==> part.kind.OtherKind?
    ensures part.kind.AttributeKind? ==> r == Success(AttributeChoice(part.name, part.strings))
    ensures part.kind.NodeKind? ==> r == Success(NodeChoice)
    ensures part.kind.OtherKind? ==> r.error == "Unknown part type " + part.kind.tag
  {
    match part.kind
    case AttributeKind => Success(AttributeChoice(part.name, part.strings))
    case NodeKind => Success(NodeChoice)
    case OtherKind(tag) => Failure("Unknown part type " + tag)
  }

  /** `extendedPartCallback` (es/index.js:1737-1755): the sigils of the source-cased attribute
      name choose the part: an `on-` prefix an event part, a `$` suffix an attribute part, a
      `?` suffix a boolean attribute part, and anything else a property part under the
      source-cased name. */
  function ExtendedPartCallback(part: TemplatePart): (r: Result<PartChoice>)
    ensures r.Failure? <==> part.kind.OtherKind?
    ensures part.kind.AttributeKind? ==>
      (r.value.EventChoice? <==> HasPrefix(part.rawName, "on-"))
      && (r.value.EventChoice? ==> "on-" + r.value.eventName == part.rawName)
      && (r.value.AttributeChoice? <==> !HasPrefix(part.rawName, "on-") && LastChar(part.name) == "$")
      && (r.value.AttributeChoice? ==> r.value.name + "$" == part.name && r.value.strings == part.strings)
      && (r.value.BooleanChoice? <==> !HasPrefix(part.rawName, "on-") && LastChar(part.name) == "?")
      && (r.value.BooleanChoice? ==> r.value.name + "?" == part.name && r.value.strings == part.strings)
      && (r.value.PropertyChoice? ==> r.value.name == part.rawName && r.value.strings == part.strings)
      && !r.value.NodeChoice?
    ensures !part.kind.AttributeKind? ==> r == DefaultPartCallback(part)
  {
    if part.kind.AttributeKind? then
      if HasPrefix(part.rawName, "on-") then
        assert part.rawName == "on-" + part.rawName[3..];
        Success(EventChoice(part.rawName[3..]))
      else if LastChar(part.name) == "$" then
        Success(AttributeChoice(DropLast(part.name), part.strings))
      else if LastChar(part.name) == "?" then
        Success(BooleanChoice(DropLast(part.name), part.strings))
      else
        Success(PropertyChoice(part.rawName, part.strings))
    else
      DefaultPartCallback(part)
  }

  /** The `size` of the part a choice creates (es/index.js:1176): attribute-like parts have
      one slot per expression, `strings.length - 1`; node and event parts have no `size`. */
  function ChoiceSize(c: PartChoice): (r: Option<int>)
    ensures r.None? <==> c.NodeChoice? || c.EventChoice?
    ensures (c.AttributeChoice? || c.BooleanChoice? || c.PropertyChoice?) ==> r == Some(|c.strings| - 1)
  {
    match c
    case EventChoice(_) => None
    case NodeChoice => None
    case AttributeChoice(_, strings) => Some(|strings| - 1)
    case BooleanChoice(_, strings) => Some(|strings| - 1)
    case PropertyChoice(_, strings) => Some(|strings| - 1)
  }
}
