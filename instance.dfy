/** Template instances: creating the parts of a clone (`TemplateInstance._clone`,
    es/index.js:1407-1433), handing values to them (`TemplateInstance.update`,
    es/index.js:1391-1406) and the reuse test of `render$1` (es/index.js:1667-1693). */
module Instance {
  import opened Wrappers
  import opened Values
  import opened TemplateTree
  import opened TemplateParts
  import opened PartCallbacks

  /** The factory an instance was given: lit-html's `defaultPartCallback` or lit-extended's
      `extendedPartCallback`. */
  datatype Factory = DefaultFactory | ExtendedFactory

  function Callback(factory: Factory, part: TemplatePart): Result<PartChoice>
  {
    match factory
    case DefaultFactory => DefaultPartCallback(part)
    case ExtendedFactory => ExtendedPartCallback(part)
  }

  /** A part of an instance: what the factory created, and the walk position of the node of
      the clone it was created for. */
  datatype InstancePart = InstancePart(choice: PartChoice, node: int)

  /** The first active descriptor the factory throws on, or the number of descriptors. */
  function FirstRejected(factory: Factory, parts: seq<TemplatePart>): (r: nat)
    ensures r <= |parts|
    ensures r < |parts| ==> IsActive(parts[r]) && Callback(factory, parts[r]).Failure?
    ensures forall j :: 0 <= j < r ==> !IsActive(parts[j]) || Callback(factory, parts[j]).Success?
  {
    if parts == [] then 0
    else if IsActive(parts[0]) && Callback(factory, parts[0]).Failure? then 0
    else 1 + FirstRejected(factory, parts[1..])
  }

  /** The instance parts for the first `n` descriptors: none for an inactive descriptor,
      otherwise what the factory creates for the node at the descriptor's index. */
  function ClonedParts(factory: Factory, parts: seq<TemplatePart>, n: nat): (r: seq<Option<InstancePart>>)
    requires n <= FirstRejected(factory, parts)
    ensures |r| == n
  {
    seq(n, j requires 0 <= j < n =>
      if IsActive(parts[j]) then Some(InstancePart(Callback(factory, parts[j]).value, parts[j].index)) else None)
  }

  /** The number of values a part consumes: one for a missing part or a part without a
      `size`, its `size` otherwise. */
  function Width(p: Option<InstancePart>): int
  {
    if p.None? then 1
    else match ChoiceSize(p.value.choice)
      case None => 1
      case Some(n) => n
  }

  /** The value index at which part `j` starts: the widths of the parts before it. */
  function Offset(parts: seq<Option<InstancePart>>, j: nat): int
    requires j <= |parts|
  {
    if j == 0 then 0 else Offset(parts, j - 1) + Width(parts[j - 1])
  }

  /** A `setValue` call `update` makes: a part without `size` gets one value, a part with
      one gets the whole array and its start index. */
  datatype SetValueCall = SingleValue(value: Value) | ValueRange(values: seq<Value>, start: int)

  /** The call `update` makes on a part that starts at value index `offset`. */
  function ExpectedCall(p: Option<InstancePart>, values: seq<Value>, offset: int): Option<SetValueCall>
  {
    if p.None? then None
    else if ChoiceSize(p.value.choice).None? then Some(SingleValue(At(values, offset)))
    else Some(ValueRange(values, offset))
  }

  /** The calls `update` makes on the first `n` parts. */
  function ExpectedCalls(parts: seq<Option<InstancePart>>, values: seq<Value>, n: nat): (r: seq<Option<SetValueCall>>)
    requires n <= |parts|
    ensures |r| == n
  {
    if n == 0 then [] else ExpectedCalls(parts, values, n - 1) + [ExpectedCall(parts[n - 1], values, Offset(parts, n - 1))]
  }

  lemma {:induction false} ExpectedCallsAt(parts: seq<Option<InstancePart>>, values: seq<Value>, n: nat)
    requires n <= |parts|
    ensures forall k :: 0 <= k < n ==> ExpectedCalls(parts, values, n)[k] == ExpectedCall(parts[k], values, Offset(parts, k))
  {
    if n > 0 {
      ExpectedCallsAt(parts, values, n - 1);
    }
  }

  /** `calls` are the calls of one `update` of `parts` with `values`. */
  predicate UpdateCalls(parts: seq<Option<InstancePart>>, values: seq<Value>, calls: seq<Option<SetValueCall>>)
  {
    |calls| == |parts| && forall j :: 0 <= j < |parts| ==> calls[j] == ExpectedCall(parts[j], values, Offset(parts, j))
  }

  class TemplateInstance {
    const template: Template
    const factory: Factory
    var parts: seq<Option<InstancePart>>

    constructor(template: Template, factory: Factory)
      ensures this.template == template && this.factory == factory && parts == []
    {
      this.template := template;
      this.factory := factory;
      parts := [];
    }

    /** `_clone` (es/index.js:1407-1433): a walker cursor advances to the index of each
        active descriptor, which gets a part for the node there; an inactive descriptor gets
        none.  The result is the copy of the content; a factory that throws stops the
        clone after the parts made so far. */
    method Clone() returns (fragment: Result<seq<Node>>)
      requires ValidParts(template.parts, ForestSize(template.content))
      modifies this
      ensures fragment.Success? <==> FirstRejected(factory, template.parts) == |template.parts|
      ensures fragment.Success? ==> fragment.value == template.content
      ensures fragment.Failure? ==> fragment == Failure(Callback(factory, template.parts[FirstRejected(factory, template.parts)]).error)
      ensures parts == old(parts) + ClonedParts(factory, template.parts, FirstRejected(factory, template.parts))
    {
      var content := template.content;
      var descriptors := template.parts;
      if |descriptors| > 0 {
        var index := -1;
        ghost var last := -1;
        var i := 0;
        while i < |descriptors|
          invariant 0 <= i <= FirstRejected(factory, descriptors)
          invariant -1 <= last < i && (last == -1 || IsActive(descriptors[last]))
          invariant index == (if last == -1 then -1 else descriptors[last].index)
          invariant parts == old(parts) + ClonedParts(factory, descriptors, i)
        {
          var part := descriptors[i];
          var partActive := IsActive(part);
          // An inactive part has no corresponding template node.
          if partActive {
            if last != -1 {
              assert Ordered(descriptors, last, i);
            }
            while index < part.index
              invariant index <= part.index
            {
              index := index + 1;
            }
          }
          var created := None;
          if partActive {
            var choice := Callback(factory, part);
            if choice.Failure? {
              return Failure(choice.error);
            }
            created := Some(InstancePart(choice.value, index));
            last := i;
          }
          parts := parts + [created];
          i := i + 1;
        }
      }
      return Success(content);
    }

    /** `update` (es/index.js:1391-1406): the values are handed out positionally; a missing
        part or a part without `size` takes one value, a part with `size` gets the array and
        consumes `size` values.  The calls are returned instead of made. */
    method Update(values: seq<Value>) returns (calls: seq<Option<SetValueCall>>, consumed: int)
      ensures UpdateCalls(parts, values, calls)
      ensures consumed == Offset(parts, |parts|)
    {
      var valueIndex := 0;
      var ps := parts;
      calls := [];
      var j := 0;
      while j < |ps|
        invariant 0 <= j <= |ps|
        invariant valueIndex == Offset(ps, j)
        invariant calls == ExpectedCalls(ps, values, j)
      {
        var part := ps[j];
        var call;
        if part.None? {
          call := None;
          valueIndex := valueIndex + 1;
        } else if ChoiceSize(part.value.choice).None? {
          call := Some(SingleValue(At(values, valueIndex)));
          valueIndex := valueIndex + 1;
        } else {
          call := Some(ValueRange(values, valueIndex));
          valueIndex := valueIndex + ChoiceSize(part.value.choice).value;
        }
        assert call == ExpectedCall(ps[j], values, Offset(ps, j));
        calls := calls + [call];
        j := j + 1;
      }
      ExpectedCallsAt(ps, values, |ps|);
      consumed := valueIndex;
    }
  }

  /** Every clone part sits at the index of its descriptor, and exactly the inactive
      descriptors get no part. */
  lemma ClonedPartsAtDescriptors(factory: Factory, parts: seq<TemplatePart>, n: nat)
    requires n <= FirstRejected(factory, parts)
    ensures forall j :: 0 <= j < n ==> (ClonedParts(factory, parts, n)[j].None? <==> !IsActive(parts[j]))
    ensures forall j :: 0 <= j < n && IsActive(parts[j]) ==>
      ClonedParts(factory, parts, n)[j].value.node == parts[j].index
      && Success(ClonedParts(factory, parts, n)[j].value.choice) == Callback(factory, parts[j])
  {
  }

  /** With no part narrower than zero values, the value ranges of the parts follow each
      other without overlap: part `j` reads values `[Offset(j), Offset(j) + Width(j))`. */
  lemma {:induction false} OffsetsDisjoint(parts: seq<Option<InstancePart>>, j: nat, k: nat)
    requires j < k <= |parts|
    requires forall i :: 0 <= i < |parts| ==> Width(parts[i]) >= 0
    ensures Offset(parts, j) + Width(parts[j]) <= Offset(parts, k)
    decreases k - j
  {
    if j + 1 < k {
      OffsetsDisjoint(parts, j, k - 1);
    }
  }

  /** A rendering container, holding `__templateInstance` and the rendered content. */
  class Container {
    var templateInstance: TemplateInstance?
    var content: seq<Node>

    constructor()
      ensures templateInstance == null && content == []
    {
      templateInstance := null;
      content := [];
    }
  }

  /** The test of `render$1` (es/index.js:1670-1676) for a repeat render: the container
      already holds an instance of the same template made with the same factory. */
  predicate Reuses(instance: TemplateInstance?, template: Template, factory: Factory)
    reads instance
  {
    instance != null && instance.template == template && instance.factory == factory
  }

  /** `render$1` (es/index.js:1667-1693): a repeat render updates the existing instance; any
      other render makes a fresh instance, clones the template, updates it and replaces the
      container's content with the clone.  The update's part calls are returned, not made, so
      an exception one of them throws is not modelled.  The ShadyCSS scoping branch is not
      modelled. */
  method Render(container: Container, template: Template, factory: Factory, values: seq<Value>)
    returns (calls: seq<Option<SetValueCall>>, outcome: Result<()>)
    requires ValidParts(template.parts, ForestSize(template.content))
    modifies container
    ensures Reuses(container.templateInstance, template, factory)
    ensures Reuses(old(container.templateInstance), template, factory) ==>
      container.templateInstance == old(container.templateInstance)
      && container.content == old(container.content) && outcome.Success?
      && UpdateCalls(container.templateInstance.parts, values, calls)
    ensures !Reuses(old(container.templateInstance), template, factory) ==>
      fresh(container.templateInstance)
      && container.templateInstance.parts == ClonedParts(factory, template.parts, FirstRejected(factory, template.parts))
      && (outcome.Success? <==> FirstRejected(factory, template.parts) == |template.parts|)
      && (outcome.Success? ==> container.content == template.content && UpdateCalls(container.templateInstance.parts, values, calls))
      && (outcome.Failure? ==> container.content == old(container.content) && calls == [])
  {
    var instance := container.templateInstance;
    // Repeat render, just call update()
    if instance != null && instance.template == template && instance.factory == factory {
      var consumed;
      calls, consumed := instance.Update(values);
      return calls, Success(());
    }
    // First render, create a new TemplateInstance and append it
    instance := new TemplateInstance(template, factory);
    container.templateInstance := instance;
    var fragment := instance.Clone();
    if fragment.Failure? {
      return [], Failure(fragment.error);
    }
    var consumed;
    calls, consumed := instance.Update(values);
    container.content := fragment.value;
    outcome := Success(());
  }
}
