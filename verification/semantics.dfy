/** The reference semantics of the hydration engine: each operation of the
    engine as a function from the engine's state (the object graph, the
    identity table and the queue of deferred finishers) to its outcome and the
    new state. A failed step carries the state as it was when the exception
    was thrown. */
module Semantics {
  import opened Errors
  import opened Document
  import opened Metadata
  import opened Objects

  /** The collaborators the engine consults: the reflector, and the value
      coercions `cast` (`None`: the value has an invalid format) and `toDate`. */
  datatype Env = Env(schema: Schema, cast: (PrimType, Value) -> Option<Prim>, toDate: Value -> DateCoercion)

  /** A deferred reference resolution: set property `slot` of instance `inst`
      to the instance registered under `refId`. */
  datatype Finisher = Finisher(inst: nat, slot: string, refId: string)

  datatype State = State(heap: Heap, refs: map<string, nat>, queue: seq<Finisher>)

  datatype Step<+T> = Step(result: Result<T>, st: State)

  datatype Resolution = Resolution(result: Result<()>, heap: Heap)

  /** What a top-level call leaves behind: its outcome and the object graph. */
  datatype Outcome = Outcome(result: Result<nat>, heap: Heap)

  /** The identity table and the queue only point at allocated instances. */
  predicate Valid(st: State) {
    && (forall id :: id in st.refs ==> st.refs[id] < |st.heap|)
    && (forall k :: 0 <= k < |st.queue| ==> st.queue[k].inst < |st.heap|)
  }

  /** What every step keeps: instances are never freed nor change class, an
      identity once registered keeps its instance, and the queue only grows at
      its end. */
  predicate Grows(st: State, st': State) {
    && |st.heap| <= |st'.heap|
    && (forall j :: 0 <= j < |st.heap| ==> st'.heap[j].cls == st.heap[j].cls)
    && (forall id :: id in st.refs ==> id in st'.refs && st'.refs[id] == st.refs[id])
    && st.queue <= st'.queue
  }

  /** Of the instances that existed before, only property `name` of `inst` may
      have changed. */
  predicate OnlySlot(st: State, st': State, inst: nat, name: string)
    requires inst < |st.heap| && Grows(st, st')
  {
    && (forall j :: 0 <= j < |st.heap| && j != inst ==> st'.heap[j] == st.heap[j])
    && st'.heap[inst] == st.heap[inst].(slots := st'.heap[inst].slots)
    && st'.heap[inst].slots - {name} == st.heap[inst].slots - {name}
  }

  /** `registerReference`: a new identity gains exactly one entry in the
      table; a duplicate one fails and changes nothing. */
  function Register(st: State, id: string, inst: nat): (r: Step<()>)
    ensures r.result.Err? <==> id in st.refs
    ensures r.result.Err? ==> r.result.error == DuplicateReferenceId(id) && r.st == st
    ensures r.result.Ok? ==> && r.st.heap == st.heap && r.st.queue == st.queue
                             && r.st.refs.Keys == st.refs.Keys + {id} && r.st.refs[id] == inst
                             && forall other :: other in st.refs ==> r.st.refs[other] == st.refs[other]
  {
    if id in st.refs then Step(Err(DuplicateReferenceId(id)), st)
    else Step(Ok(()), st.(refs := st.refs[id := inst]))
  }

  /** `hydrate`: allocate an instance of `cls`, register it under the node's
      identity if it has one, then hydrate its properties in declaration
      order. The instance is the next free index of the heap. */
  function Hydrate(env: Env, st: State, data: Node, cls: ClassName): (r: Step<nat>)
    requires WellFormed(env.schema) && cls in env.schema && Valid(st)
    ensures Valid(r.st) && Grows(st, r.st)
    ensures forall j :: 0 <= j < |st.heap| ==> r.st.heap[j] == st.heap[j]
    ensures r.result.Ok? ==> r.result.value == |st.heap| < |r.st.heap| && r.st.heap[|st.heap|].cls == cls
    decreases Weight(data), data, 6
  {
    var inst := |st.heap|;
    var st1 := st.(heap := Allocate(st.heap, cls));
    var reg := if HasValue(data, IdKey) then Register(st1, data.values[IdKey].text, inst) else Step(Ok(()), st1);
    if reg.result.Err? then Step(Err(reg.result.error), reg.st)
    else
      var props := HydrateProperties(env, reg.st, inst, data, env.schema[cls].properties);
      if props.result.Err? then Step(Err(props.result.error), props.st)
      else Step(Ok(inst), props.st)
  }

  /** The `foreach` over the properties: the first `|props| - 1`, then the last,
      unless an earlier one failed. */
  function HydrateProperties(env: Env, st: State, inst: nat, data: Node, props: seq<Property>): (r: Step<()>)
    requires WellFormed(env.schema) && Valid(st) && inst < |st.heap|
    requires forall p :: p in props ==> PropertyTargets(env.schema, p)
    ensures Valid(r.st) && Grows(st, r.st)
    ensures forall j :: 0 <= j < |st.heap| && j != inst ==> r.st.heap[j] == st.heap[j]
    ensures r.st.heap[inst] == st.heap[inst].(slots := r.st.heap[inst].slots)
    decreases Weight(data), data, 5, |props|
  {
    if props == [] then Step(Ok(()), st)
    else
      var pre := HydrateProperties(env, st, inst, data, props[..|props| - 1]);
      if pre.result.Err? then pre
      else HydrateProperty(env, pre.st, inst, data, props[|props| - 1])
  }

  /** `hydrateProperty` and `hydrateMappedProperty`: dispatch on the kind. */
  function HydrateProperty(env: Env, st: State, inst: nat, data: Node, p: Property): (r: Step<()>)
    requires WellFormed(env.schema) && Valid(st) && inst < |st.heap| && PropertyTargets(env.schema, p)
    ensures Valid(r.st) && Grows(st, r.st) && OnlySlot(st, r.st, inst, p.name)
    decreases Weight(data), data, 4
  {
    match p.kind
    case Reference => ReferenceStep(st, inst, data, p)
    case Primitive(_) => PrimitiveStep(env, st, inst, data, p)
    case DateKind => DateStep(env, st, inst, data, p)
    case SimpleContent(_) => SimpleContentStep(env, st, inst, data, p)
    case Complex(_) => ComplexStep(env, st, inst, data, p)
  }

  /** `hydrateReferenceProperty`: a node without `@ref` fails at once;
      otherwise exactly one finisher is queued and no property is set yet. */
  function ReferenceStep(st: State, inst: nat, data: Node, p: Property): (r: Step<()>)
    requires Valid(st) && inst < |st.heap|
    ensures Valid(r.st) && Grows(st, r.st) && OnlySlot(st, r.st, inst, p.name)
    ensures r.result.Err? <==> !HasValue(data, RefKey)
    ensures r.result.Err? ==> r.result.error == MissingReferenceId && r.st == st
    ensures r.result.Ok? ==> && r.st.heap == st.heap && r.st.refs == st.refs
                             && r.st.queue == st.queue + [Finisher(inst, p.name, data.values[RefKey].text)]
  {
    if !HasValue(data, RefKey) then Step(Err(MissingReferenceId), st)
    else Step(Ok(()), st.(queue := st.queue + [Finisher(inst, p.name, data.values[RefKey].text)]))
  }

  /** `hydratePrimitiveProperty`: the value at the key, cast to the declared
      type. A missing value or a failed cast fails and changes nothing. */
  function PrimitiveStep(env: Env, st: State, inst: nat, data: Node, p: Property): (r: Step<()>)
    requires Valid(st) && inst < |st.heap| && p.kind.Primitive?
    ensures Valid(r.st) && Grows(st, r.st) && OnlySlot(st, r.st, inst, p.name)
    ensures r.result.Ok? <==> HasValue(data, p.key) && env.cast(p.kind.primType, data.values[p.key]).Some?
    ensures r.result.Err? ==> r.st == st
    ensures !HasValue(data, p.key) ==> r.result == Err(MissingRequiredChild(p.key))
    ensures HasValue(data, p.key) && env.cast(p.kind.primType, data.values[p.key]).None? ==>
      r.result == Err(InvalidFormat(p.key))
    ensures r.result.Ok? ==>
      r.st == st.(heap := SetSlot(st.heap, inst, p.name, PrimVal(env.cast(p.kind.primType, data.values[p.key]).value)))
  {
    match GetValue(data, p.key)
    case Err(e) => Step(Err(e), st)
    case Ok(v) =>
      match env.cast(p.kind.primType, v)
      case None => Step(Err(InvalidFormat(p.key)), st)
      case Some(x) => Step(Ok(()), st.(heap := SetSlot(st.heap, inst, p.name, PrimVal(x))))
  }

  /** `hydrateDateProperty`: a date that converts to nothing is accepted only
      for a nullable property, and is then stored as null. */
  function DateStep(env: Env, st: State, inst: nat, data: Node, p: Property): (r: Step<()>)
    requires Valid(st) && inst < |st.heap| && p.kind.DateKind?
    ensures Valid(r.st) && Grows(st, r.st) && OnlySlot(st, r.st, inst, p.name)
    ensures r.result.Ok? <==> HasValue(data, p.key) && env.toDate(data.values[p.key]) != BadDate
                              && (env.toDate(data.values[p.key]) == NoDate ==> p.nullable)
    ensures r.result.Err? ==> r.st == st
    ensures !HasValue(data, p.key) ==> r.result == Err(MissingRequiredChild(p.key))
    ensures HasValue(data, p.key) && env.toDate(data.values[p.key]) == BadDate ==> r.result == Err(InvalidFormat(p.key))
    ensures HasValue(data, p.key) && env.toDate(data.values[p.key]) == NoDate && !p.nullable ==>
      r.result == Err(MissingRequiredChild(p.key))
    ensures r.result.Ok? ==> exists v :: r.st == st.(heap := SetSlot(st.heap, inst, p.name, v))
                                      && (v == Null <==> env.toDate(data.values[p.key]) == NoDate)
                                      && (v != Null ==> v == DateVal(env.toDate(data.values[p.key]).date))
  {
    match GetValue(data, p.key)
    case Err(e) => Step(Err(e), st)
    case Ok(v) =>
      match env.toDate(v)
      case BadDate => Step(Err(InvalidFormat(p.key)), st)
      case NoDate =>
        if !p.nullable then Step(Err(MissingRequiredChild(p.key)), st)
        else Step(Ok(()), st.(heap := SetSlot(st.heap, inst, p.name, Null)))
      case DateOf(d) => Step(Ok(()), st.(heap := SetSlot(st.heap, inst, p.name, DateVal(d))))
  }

  /** `hydrateSimpleContentElementProperty`: hydrate the child element (or an
      empty node when the content is a flat value), then give the resulting
      element its text content. */
  function SimpleContentStep(env: Env, st: State, inst: nat, data: Node, p: Property): (r: Step<()>)
    requires WellFormed(env.schema) && Valid(st) && inst < |st.heap|
    requires p.kind.SimpleContent? && p.kind.cls in env.schema
    ensures Valid(r.st) && Grows(st, r.st) && OnlySlot(st, r.st, inst, p.name)
    decreases Weight(data), data, 2
  {
    var hasChild := HasChild(data, p.key);
    if !hasChild && !HasValue(data, p.key) then
      if p.nullable then Step(Ok(()), st.(heap := SetSlot(st.heap, inst, p.name, Null)))
      else Step(Err(MissingRequiredChild(p.key)), st)
    else
      var child := if hasChild then GetChild(data, p.key) else Empty();
      var h := Hydrate(env, st, child, p.kind.cls);
      if h.result.Err? then Step(Err(h.result.error), h.st)
      else AttachContent(env, st, h.st, inst, data, child, hasChild, h.result.value, p)
  }

  /** The rest of `hydrateSimpleContentElementProperty` once the element has
      been hydrated as instance `v`: it must be a simple-content element; its
      text is the child's `#` value, or the flat value when there is no child
      element. */
  function AttachContent(env: Env, ghost st0: State, st: State, inst: nat, data: Node, child: Node, hasChild: bool, v: nat, p: Property): (r: Step<()>)
    requires WellFormed(env.schema) && Valid(st) && inst < |st0.heap| <= v < |st.heap|
    requires Grows(st0, st) && forall j :: 0 <= j < |st0.heap| ==> st.heap[j] == st0.heap[j]
    requires p.kind.SimpleContent? && p.kind.cls in env.schema && (hasChild || HasValue(data, p.key))
    ensures Valid(r.st) && Grows(st, r.st) && OnlySlot(st0, r.st, inst, p.name)
    ensures r.result.Ok? <==> env.schema[p.kind.cls].kind.SimpleContentElement? && (hasChild ==> HasValue(child, ContentKey))
    ensures r.result.Err? ==> r.st == st
    ensures !env.schema[p.kind.cls].kind.SimpleContentElement? ==> r.result == Err(UnsupportedMetadata(p.kind.cls))
    ensures env.schema[p.kind.cls].kind.SimpleContentElement? && hasChild && !HasValue(child, ContentKey) ==>
      r.result == Err(MissingRequiredChild(ContentKey))
    ensures r.result.Ok? ==>
      && p.name in r.st.heap[inst].slots && r.st.heap[inst].slots[p.name] == Ref(v)
      && r.st.heap[v].content == Some(if hasChild then child.values[ContentKey].text else data.values[p.key].text)
  {
    if !env.schema[p.kind.cls].kind.SimpleContentElement? then
      Step(Err(UnsupportedMetadata(p.kind.cls)), st)
    else
      var content := if hasChild then GetValue(child, ContentKey) else Ok(data.values[p.key]);
      if content.Err? then Step(Err(content.error), st)
      else Step(Ok(()), st.(heap := SetSlot(SetContent(st.heap, v, content.value.text), inst, p.name, Ref(v))))
  }

  /** `hydrateComplexProperty`: hydrate the child element, then attach it. */
  function ComplexStep(env: Env, st: State, inst: nat, data: Node, p: Property): (r: Step<()>)
    requires WellFormed(env.schema) && Valid(st) && inst < |st.heap|
    requires p.kind.Complex? && p.kind.cls in env.schema
    ensures Valid(r.st) && Grows(st, r.st) && OnlySlot(st, r.st, inst, p.name)
    decreases Weight(data), data, 2
  {
    if !HasChild(data, p.key) then
      if !p.nullable then Step(Err(MissingRequiredChild(p.key)), st)
      else Step(Ok(()), st.(heap := SetSlot(st.heap, inst, p.name, Null)))
    else
      var child := GetChild(data, p.key);
      var h := Hydrate(env, st, child, p.kind.cls);
      if h.result.Err? then Step(Err(h.result.error), h.st)
      else AttachComplex(env, st, h.st, inst, data, child, h.result.value, p)
  }

  /** The rest of `hydrateComplexProperty` once the child element `child` has
      been hydrated as instance `v`: when its class is a collection, hydrate and
      append every item element in document order; then set the property. */
  function AttachComplex(env: Env, ghost st0: State, st: State, inst: nat, data: Node, child: Node, v: nat, p: Property): (r: Step<()>)
    requires WellFormed(env.schema) && Valid(st) && inst < |st0.heap| <= v < |st.heap|
    requires Grows(st0, st) && forall j :: 0 <= j < |st0.heap| ==> st.heap[j] == st0.heap[j]
    requires p.kind.Complex? && p.kind.cls in env.schema && HasChild(data, p.key) && child < data
    ensures Valid(r.st) && Grows(st, r.st) && OnlySlot(st0, r.st, inst, p.name)
    ensures !env.schema[p.kind.cls].kind.Collection? ==> r.result.Ok? && r.st.heap[v] == st.heap[v]
    ensures r.result.Ok? ==> p.name in r.st.heap[inst].slots && r.st.heap[inst].slots[p.name] == Ref(v)
    ensures r.result.Ok? && env.schema[p.kind.cls].kind.Collection? ==>
      |r.st.heap[v].items| == |st.heap[v].items| + |ChildList(child, env.schema[p.kind.cls].kind.itemKey)|
    decreases Weight(data), data, 1
  {
    match env.schema[p.kind.cls].kind
    case Collection(itemKey, itemClass) =>
      var items := HydrateItems(env, st, v, ChildList(child, itemKey), itemClass, child);
      if items.result.Err? then Step(Err(items.result.error), items.st)
      else Step(Ok(()), items.st.(heap := SetSlot(items.st.heap, inst, p.name, Ref(v))))
    case _ => Step(Ok(()), st.(heap := SetSlot(st.heap, inst, p.name, Ref(v))))
  }

  /** The items appended to collection `coll` between `st` and `st'` are new
      instances of `itemClass`, in increasing allocation order. */
  predicate ItemsAppended(st: State, st': State, coll: nat, itemClass: ClassName)
    requires coll < |st.heap| <= |st'.heap|
  {
    var before, after := st.heap[coll].items, st'.heap[coll].items;
    && before <= after
    && (forall k :: |before| <= k < |after| ==> |st.heap| <= after[k] < |st'.heap| && st'.heap[after[k]].cls == itemClass)
    && (forall a, b :: |before| <= a < b < |after| ==> after[a] < after[b])
  }

  /** The `foreach` over the item elements of a collection: each is hydrated as
      the item class and appended to the collection `coll`, one item per item
      element. */
  function HydrateItems(env: Env, st: State, coll: nat, nodes: seq<Node>, itemClass: ClassName, ghost parent: Node): (r: Step<()>)
    requires WellFormed(env.schema) && Valid(st) && coll < |st.heap| && itemClass in env.schema
    requires |nodes| <= |parent.children| && forall k :: 0 <= k < |nodes| ==> nodes[k] < parent
    ensures Valid(r.st) && Grows(st, r.st)
    ensures forall j :: 0 <= j < |st.heap| && j != coll ==> r.st.heap[j] == st.heap[j]
    ensures r.st.heap[coll] == st.heap[coll].(items := r.st.heap[coll].items)
    ensures ItemsAppended(st, r.st, coll, itemClass)
    ensures r.result.Ok? ==> |r.st.heap[coll].items| == |st.heap[coll].items| + |nodes|
    decreases Weight(parent), parent, 0, |nodes|
  {
    if nodes == [] then Step(Ok(()), st)
    else
      var pre := HydrateItems(env, st, coll, nodes[..|nodes| - 1], itemClass, parent);
      if pre.result.Err? then pre
      else
        var h := Hydrate(env, pre.st, nodes[|nodes| - 1], itemClass);
        if h.result.Err? then Step(Err(h.result.error), h.st)
        else
          AppendedItem(st, pre.st, h.st, coll, itemClass);
          Step(Ok(()), h.st.(heap := AddItem(h.st.heap, coll, h.result.value)))
  }

  /** Appending the instance just hydrated after `mid` keeps what
      `HydrateItems` promises. */
  lemma AppendedItem(st: State, mid: State, st': State, coll: nat, itemClass: ClassName)
    requires Valid(st) && Valid(mid) && Valid(st') && coll < |st.heap|
    requires Grows(st, mid) && Grows(mid, st') && |mid.heap| < |st'.heap| && st'.heap[|mid.heap|].cls == itemClass
    requires forall j :: 0 <= j < |st.heap| && j != coll ==> mid.heap[j] == st.heap[j]
    requires mid.heap[coll] == st.heap[coll].(items := mid.heap[coll].items)
    requires ItemsAppended(st, mid, coll, itemClass)
    requires forall j :: 0 <= j < |mid.heap| ==> st'.heap[j] == mid.heap[j]
    ensures var r := st'.(heap := AddItem(st'.heap, coll, |mid.heap|));
      && Valid(r) && Grows(st, r)
      && (forall j :: 0 <= j < |st.heap| && j != coll ==> r.heap[j] == st.heap[j])
      && r.heap[coll] == st.heap[coll].(items := r.heap[coll].items)
      && ItemsAppended(st, r, coll, itemClass)
      && |r.heap[coll].items| == |mid.heap[coll].items| + 1
  {
    var r := st'.(heap := AddItem(st'.heap, coll, |mid.heap|));
    var before, between, after := st.heap[coll].items, mid.heap[coll].items, r.heap[coll].items;
    assert after == between + [|mid.heap|];
    forall k | |before| <= k < |between| ensures r.heap[after[k]].cls == itemClass {
      assert st'.heap[between[k]] == mid.heap[between[k]];
    }
  }

  /** `finish`: run the queued finishers in registration order; the first whose
      identity is not in the table fails. */
  function Resolve(heap: Heap, refs: map<string, nat>, queue: seq<Finisher>): (r: Resolution)
    requires forall k :: 0 <= k < |queue| ==> queue[k].inst < |heap|
    ensures |r.heap| == |heap|
    decreases |queue|
  {
    if queue == [] then Resolution(Ok(()), heap)
    else
      var pre := Resolve(heap, refs, queue[..|queue| - 1]);
      if pre.result.Err? then pre
      else
        var f := queue[|queue| - 1];
        if f.refId !in refs then Resolution(Err(ReferencedElementNotFound(f.refId)), pre.heap)
        else Resolution(Ok(()), SetSlot(pre.heap, f.inst, f.slot, Ref(refs[f.refId])))
  }

  /** A whole top-level `hydrate`: traverse from an empty table and queue, then
      run the finishers whether the traversal succeeded or not. An exception
      thrown by a finisher replaces the traversal's. */
  function Hydration(env: Env, heap: Heap, data: Node, cls: ClassName): (r: Outcome)
    requires WellFormed(env.schema) && cls in env.schema
    ensures |heap| <= |r.heap|
    ensures r.result.Ok? ==> r.result.value == |heap| < |r.heap|
  {
    var t := Hydrate(env, State(heap, map[], []), data, cls);
    var f := Resolve(t.st.heap, t.st.refs, t.st.queue);
    Outcome(if f.result.Err? then Err(f.result.error) else t.result, f.heap)
  }

  /** Once a property fails, the remaining properties are not hydrated: the
      outcome and the state are those of the failing prefix. */
  lemma {:induction false} PropertiesAbort(env: Env, st: State, inst: nat, data: Node, props: seq<Property>, i: nat)
    requires WellFormed(env.schema) && Valid(st) && inst < |st.heap|
    requires forall p :: p in props ==> PropertyTargets(env.schema, p)
    requires i <= |props| && HydrateProperties(env, st, inst, data, props[..i]).result.Err?
    ensures HydrateProperties(env, st, inst, data, props) == HydrateProperties(env, st, inst, data, props[..i])
    decreases |props| - i
  {
    if i < |props| {
      var front := props[..|props| - 1];
      assert front[..i] == props[..i];
      PropertiesAbort(env, st, inst, data, front, i);
      assert HydrateProperties(env, st, inst, data, front).result.Err?;
    } else {
      assert props[..i] == props;
    }
  }

  /** Once an item fails, the remaining items are not hydrated. */
  lemma {:induction false} ItemsAbort(env: Env, st: State, coll: nat, nodes: seq<Node>, itemClass: ClassName, parent: Node, i: nat)
    requires WellFormed(env.schema) && Valid(st) && coll < |st.heap| && itemClass in env.schema
    requires |nodes| <= |parent.children| && forall k :: 0 <= k < |nodes| ==> nodes[k] < parent
    requires i <= |nodes| && HydrateItems(env, st, coll, nodes[..i], itemClass, parent).result.Err?
    ensures HydrateItems(env, st, coll, nodes, itemClass, parent) == HydrateItems(env, st, coll, nodes[..i], itemClass, parent)
    decreases |nodes| - i
  {
    if i < |nodes| {
      var front := nodes[..|nodes| - 1];
      assert front[..i] == nodes[..i];
      ItemsAbort(env, st, coll, front, itemClass, parent, i);
      assert HydrateItems(env, st, coll, front, itemClass, parent).result.Err?;
    } else {
      assert nodes[..i] == nodes;
    }
  }

  /** Once a finisher fails, the remaining finishers do not run. */
  lemma {:induction false} ResolveAbort(heap: Heap, refs: map<string, nat>, queue: seq<Finisher>, i: nat)
    requires forall k :: 0 <= k < |queue| ==> queue[k].inst < |heap|
    requires i <= |queue| && Resolve(heap, refs, queue[..i]).result.Err?
    ensures Resolve(heap, refs, queue) == Resolve(heap, refs, queue[..i])
    decreases |queue| - i
  {
    if i < |queue| {
      var front := queue[..|queue| - 1];
      assert front[..i] == queue[..i];
      ResolveAbort(heap, refs, front, i);
      assert Resolve(heap, refs, front).result.Err?;
    } else {
      assert queue[..i] == queue;
    }
  }

  /** One more item element: hydrate it after the prefix and append it, or,
      when it fails, stop with that failure for the whole list. */
  lemma ItemsNext(env: Env, st: State, coll: nat, nodes: seq<Node>, itemClass: ClassName, parent: Node, j: nat, pre: State)
    requires WellFormed(env.schema) && Valid(st) && coll < |st.heap| && itemClass in env.schema
    requires |nodes| <= |parent.children| && forall k :: 0 <= k < |nodes| ==> nodes[k] < parent
    requires j < |nodes| && HydrateItems(env, st, coll, nodes[..j], itemClass, parent) == Step(Ok(()), pre)
    ensures Valid(pre) && coll < |pre.heap|
    ensures var h := Hydrate(env, pre, nodes[j], itemClass);
      && (h.result.Ok? ==> HydrateItems(env, st, coll, nodes[..j + 1], itemClass, parent)
                             == Step(Ok(()), h.st.(heap := AddItem(h.st.heap, coll, h.result.value))))
      && (h.result.Err? ==> HydrateItems(env, st, coll, nodes, itemClass, parent) == Step(Err(h.result.error), h.st))
  {
    assert nodes[..j + 1][..j] == nodes[..j];
    if Hydrate(env, pre, nodes[j], itemClass).result.Err? {
      ItemsAbort(env, st, coll, nodes, itemClass, parent, j + 1);
    }
  }

  /** One more property: hydrate it after the prefix. */
  lemma PropertiesStep(env: Env, st: State, inst: nat, data: Node, props: seq<Property>, i: nat)
    requires WellFormed(env.schema) && Valid(st) && inst < |st.heap|
    requires forall p :: p in props ==> PropertyTargets(env.schema, p)
    requires i < |props| && HydrateProperties(env, st, inst, data, props[..i]).result.Ok?
    ensures HydrateProperties(env, st, inst, data, props[..i + 1]) ==
      HydrateProperty(env, HydrateProperties(env, st, inst, data, props[..i]).st, inst, data, props[i])
  {
    assert props[..i + 1][..i] == props[..i];
  }

  /** `Hydrate` unfolded: allocation, registration, then the properties. */
  lemma HydrateUnfold(env: Env, st: State, data: Node, cls: ClassName)
    requires WellFormed(env.schema) && cls in env.schema && Valid(st)
    ensures var inst := |st.heap|;
      var st1 := st.(heap := Allocate(st.heap, cls));
      var reg := if HasValue(data, IdKey) then Register(st1, data.values[IdKey].text, inst) else Step(Ok(()), st1);
      Hydrate(env, st, data, cls) ==
        if reg.result.Err? then Step(Err(reg.result.error), reg.st)
        else
          var props := HydrateProperties(env, reg.st, inst, data, env.schema[cls].properties);
          if props.result.Err? then Step(Err(props.result.error), props.st) else Step(Ok(inst), props.st)
  {
  }
}
