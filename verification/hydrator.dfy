/** The hydration engine: one object whose depth counter, identity table and
    finisher queue are shared by the nested `hydrate` calls of one top-level
    call. Every method is proved to compute what the reference semantics says. */
module Engine {
  import opened Errors
  import opened Document
  import opened Metadata
  import opened Objects
  import opened Semantics

  class Hydrator {
    /** The reflector and the value coercions. */
    const env: Env
    /** The number of `hydrate` calls in progress. */
    var depth: nat
    /** Instances registered under their `@id`. */
    var references: map<string, nat>
    /** Deferred reference resolutions, in registration order. */
    var finishers: seq<Finisher>
    /** Every instance allocated so far. */
    var heap: Heap

    function Current(): State
      reads this
    {
      State(heap, references, finishers)
    }

    /** Outside a call (depth 0) the table and the queue are empty. */
    ghost predicate Valid()
      reads this
    {
      && WellFormed(env.schema)
      && Semantics.Valid(Current())
      && (depth == 0 ==> references == map[] && finishers == [])
    }

    constructor (env: Env)
      requires WellFormed(env.schema)
      ensures Valid() && this.env == env
      ensures depth == 0 && references == map[] && finishers == [] && heap == []
    {
      this.env := env;
      depth := 0;
      references := map[];
      finishers := [];
      heap := [];
    }

    /** `hydrate`. A nested call computes the reference `Hydrate` on the shared
        state. The outermost call also runs the finishers, and leaves the table
        and the queue empty whether it succeeded or failed. */
    method Hydrate(data: Node, cls: ClassName) returns (r: Result<nat>)
      requires Valid() && cls in env.schema
      modifies this
      ensures Valid() && depth == old(depth)
      ensures old(depth) > 0 ==> Step(r, Current()) == Semantics.Hydrate(env, old(Current()), data, cls)
      ensures old(depth) == 0 ==> references == map[] && finishers == []
      ensures old(depth) == 0 ==> Outcome(r, heap) == Hydration(env, old(heap), data, cls)
      decreases Weight(data), data, 8
    {
      depth := depth + 1;
      r := HydrateInstance(data, cls);
      depth := depth - 1;
      if depth == 0 {
        var fin := Finish();
        if fin.Err? {
          r := Err(fin.error);
        }
      }
    }

    /** The body of `hydrate` inside its `try`: allocate the instance, register
        its identity, hydrate the properties in declaration order. */
    method HydrateInstance(data: Node, cls: ClassName) returns (r: Result<nat>)
      requires Valid() && depth > 0 && cls in env.schema
      modifies this
      ensures Semantics.Valid(Current()) && depth == old(depth)
      ensures Step(r, Current()) == Semantics.Hydrate(env, old(Current()), data, cls)
      decreases Weight(data), data, 7
    {
      HydrateUnfold(env, Current(), data, cls);
      var inst := |heap|;
      heap := Allocate(heap, cls);
      var status: Result<()> := Ok(());
      if HasValue(data, IdKey) {
        status := RegisterReference(data.values[IdKey], inst);
      }
      if status.Ok? {
        status := HydrateProperties(data, inst, env.schema[cls].properties);
      }
      r := if status.Ok? then Ok(inst) else Err(status.error);
    }

    /** The `foreach` of `hydrate` over the properties of instance `inst`, in
        declaration order, stopping at the first that fails. */
    method HydrateProperties(data: Node, inst: nat, props: seq<Property>) returns (status: Result<()>)
      requires Valid() && depth > 0 && inst < |heap|
      requires forall p :: p in props ==> PropertyTargets(env.schema, p)
      modifies this
      ensures Valid() && depth == old(depth)
      ensures Step(status, Current()) == Semantics.HydrateProperties(env, old(Current()), inst, data, props)
      decreases Weight(data), data, 6
    {
      status := Ok(());
      var i := 0;
      while i < |props| && status.Ok?
        invariant 0 <= i <= |props| && inst < |heap|
        invariant Valid() && depth == old(depth)
        invariant Step(status, Current()) == Semantics.HydrateProperties(env, old(Current()), inst, data, props[..i])
      {
        PropertiesStep(env, old(Current()), inst, data, props, i);
        status := HydrateProperty(data, inst, props[i]);
        i := i + 1;
      }
      if status.Err? {
        PropertiesAbort(env, old(Current()), inst, data, props, i);
      } else {
        assert props[..i] == props;
      }
    }

    /** `finish`: run every finisher in registration order, stopping at the
        first that fails; then empty the table and the queue in any case. */
    method Finish() returns (r: Result<()>)
      requires Semantics.Valid(Current())
      modifies this
      ensures depth == old(depth) && references == map[] && finishers == []
      ensures Resolution(r, heap) == Resolve(old(heap), old(references), old(finishers))
    {
      r := Ok(());
      var i := 0;
      while i < |finishers|
        invariant 0 <= i <= |finishers| && |heap| == |old(heap)|
        invariant depth == old(depth) && references == old(references) && finishers == old(finishers)
        invariant Resolution(r, heap) == Resolve(old(heap), references, finishers[..i])
      {
        var f := finishers[i];
        assert finishers[..i + 1][..i] == finishers[..i];
        if f.refId !in references {
          r := Err(ReferencedElementNotFound(f.refId));
          ResolveAbort(old(heap), references, finishers, i + 1);
          break;
        }
        heap := SetSlot(heap, f.inst, f.slot, Ref(references[f.refId]));
        i := i + 1;
      }
      if r.Ok? {
        assert finishers[..i] == finishers;
      }
      references := map[];
      finishers := [];
    }

    /** `registerReference`: an identity already in the table fails with a
        duplicate-id error; otherwise the table gains exactly that entry. */
    method RegisterReference(value: Value, inst: nat) returns (r: Result<()>)
      requires Valid() && depth > 0 && inst < |heap|
      modifies this
      ensures Valid() && depth == old(depth) && heap == old(heap) && finishers == old(finishers)
      ensures r.Err? <==> value.text in old(references)
      ensures r.Err? ==> r.error == DuplicateReferenceId(value.text) && references == old(references)
      ensures r.Ok? ==> references == old(references)[value.text := inst]
      ensures Step(r, Current()) == Register(old(Current()), value.text, inst)
    {
      var id := value.text;
      if id in references {
        return Err(DuplicateReferenceId(id));
      }
      references := references[id := inst];
      r := Ok(());
    }

    /** `hydrateProperty`: a reference property or a mapped one. */
    method HydrateProperty(data: Node, inst: nat, p: Property) returns (r: Result<()>)
      requires Valid() && depth > 0 && inst < |heap| && PropertyTargets(env.schema, p)
      modifies this
      ensures Valid() && depth == old(depth)
      ensures Step(r, Current()) == Semantics.HydrateProperty(env, old(Current()), inst, data, p)
      decreases Weight(data), data, 5
    {
      if p.kind.Reference? {
        r := HydrateReferenceProperty(data, inst, p);
      } else {
        r := HydrateMappedProperty(data, inst, p);
      }
    }

    /** `hydrateReferenceProperty`: no `@ref` fails at once; otherwise one
        finisher is queued and nothing is set yet. */
    method HydrateReferenceProperty(data: Node, inst: nat, p: Property) returns (r: Result<()>)
      requires Valid() && depth > 0 && inst < |heap|
      modifies this
      ensures Valid() && depth == old(depth) && heap == old(heap) && references == old(references)
      ensures r.Err? <==> !HasValue(data, RefKey)
      ensures r.Err? ==> r.error == MissingReferenceId && finishers == old(finishers)
      ensures r.Ok? ==> finishers == old(finishers) + [Finisher(inst, p.name, data.values[RefKey].text)]
      ensures Step(r, Current()) == ReferenceStep(old(Current()), inst, data, p)
    {
      if !HasValue(data, RefKey) {
        return Err(MissingReferenceId);
      }
      finishers := finishers + [Finisher(inst, p.name, data.values[RefKey].text)];
      r := Ok(());
    }

    /** `hydrateMappedProperty`: dispatch on the mapped kind. */
    method HydrateMappedProperty(data: Node, inst: nat, p: Property) returns (r: Result<()>)
      requires Valid() && depth > 0 && inst < |heap| && PropertyTargets(env.schema, p) && !p.kind.Reference?
      modifies this
      ensures Valid() && depth == old(depth)
      ensures Step(r, Current()) == Semantics.HydrateProperty(env, old(Current()), inst, data, p)
      decreases Weight(data), data, 4
    {
      match p.kind
      case Primitive(_) => r := HydratePrimitiveProperty(data, inst, p);
      case DateKind => r := HydrateDateProperty(data, inst, p);
      case SimpleContent(_) => r := HydrateSimpleContentElementProperty(data, inst, p);
      case Complex(_) => r := HydrateComplexProperty(data, inst, p);
    }

    /** `hydratePrimitiveProperty`: cast the value at the key and set it. */
    method HydratePrimitiveProperty(data: Node, inst: nat, p: Property) returns (r: Result<()>)
      requires Valid() && depth > 0 && inst < |heap| && p.kind.Primitive?
      modifies this
      ensures Valid() && depth == old(depth)
      ensures Step(r, Current()) == PrimitiveStep(env, old(Current()), inst, data, p)
    {
      var value := GetValue(data, p.key);
      if value.Err? {
        return Err(value.error);
      }
      var cast := env.cast(p.kind.primType, value.value);
      if cast.None? {
        return Err(InvalidFormat(p.key));
      }
      heap := SetSlot(heap, inst, p.name, PrimVal(cast.value));
      r := Ok(());
    }

    /** `hydrateDateProperty`: convert the value at the key to a date; no date
        is an error for a property that is not nullable. */
    method HydrateDateProperty(data: Node, inst: nat, p: Property) returns (r: Result<()>)
      requires Valid() && depth > 0 && inst < |heap| && p.kind.DateKind?
      modifies this
      ensures Valid() && depth == old(depth)
      ensures Step(r, Current()) == DateStep(env, old(Current()), inst, data, p)
    {
      var value := GetValue(data, p.key);
      if value.Err? {
        return Err(value.error);
      }
      var date := env.toDate(value.value);
      if date.BadDate? {
        return Err(InvalidFormat(p.key));
      }
      if date.NoDate? && !p.nullable {
        return Err(MissingRequiredChild(p.key));
      }
      heap := SetSlot(heap, inst, p.name, if date.NoDate? then Null else DateVal(date.date));
      r := Ok(());
    }

    /** `hydrateSimpleContentElementProperty`. */
    method HydrateSimpleContentElementProperty(data: Node, inst: nat, p: Property) returns (r: Result<()>)
      requires Valid() && depth > 0 && inst < |heap| && p.kind.SimpleContent? && p.kind.cls in env.schema
      modifies this
      ensures Valid() && depth == old(depth)
      ensures Step(r, Current()) == SimpleContentStep(env, old(Current()), inst, data, p)
      decreases Weight(data), data, 3
    {
      var hasChild := HasChild(data, p.key);
      if !hasChild && !HasValue(data, p.key) {
        if p.nullable {
          heap := SetSlot(heap, inst, p.name, Null);
          return Ok(());
        }
        return Err(MissingRequiredChild(p.key));
      }
      var child := if hasChild then GetChild(data, p.key) else Empty();
      var value := Hydrate(child, p.kind.cls);
      if value.Err? {
        return Err(value.error);
      }
      if !env.schema[p.kind.cls].kind.SimpleContentElement? {
        return Err(UnsupportedMetadata(p.kind.cls));
      }
      var content: Value;
      if hasChild {
        var text := GetValue(child, ContentKey);
        if text.Err? {
          return Err(text.error);
        }
        content := text.value;
      } else {
        content := data.values[p.key];
      }
      heap := SetContent(heap, value.value, content.text);
      heap := SetSlot(heap, inst, p.name, Ref(value.value));
      r := Ok(());
    }

    /** `hydrateComplexProperty`; a collection gets one item per item element,
        appended in document order. */
    method HydrateComplexProperty(data: Node, inst: nat, p: Property) returns (r: Result<()>)
      requires Valid() && depth > 0 && inst < |heap| && p.kind.Complex? && p.kind.cls in env.schema
      modifies this
      ensures Valid() && depth == old(depth)
      ensures Step(r, Current()) == ComplexStep(env, old(Current()), inst, data, p)
      decreases Weight(data), data, 3
    {
      if !HasChild(data, p.key) {
        if !p.nullable {
          return Err(MissingRequiredChild(p.key));
        }
        heap := SetSlot(heap, inst, p.name, Null);
        return Ok(());
      }
      var child := GetChild(data, p.key);
      ghost var st0 := Current();
      var value := Hydrate(child, p.kind.cls);
      if value.Err? {
        return Err(value.error);
      }
      r := AttachComplexProperty(data, child, inst, value.value, p, st0);
    }

    /** The rest of `hydrateComplexProperty` once the child element has been
        hydrated as instance `v` (from state `st0`): a collection gets one item
        per item element, appended in document order; then the property is set. */
    method AttachComplexProperty(data: Node, child: Node, inst: nat, v: nat, p: Property, ghost st0: State)
      returns (r: Result<()>)
      requires Valid() && depth > 0 && inst < |st0.heap| <= v < |heap|
      requires Grows(st0, Current()) && forall j :: 0 <= j < |st0.heap| ==> heap[j] == st0.heap[j]
      requires p.kind.Complex? && p.kind.cls in env.schema && HasChild(data, p.key) && child < data
      modifies this
      ensures Valid() && depth == old(depth)
      ensures Step(r, Current()) == AttachComplex(env, st0, old(Current()), inst, data, child, v, p)
      decreases Weight(data), data, 2
    {
      match env.schema[p.kind.cls].kind {
        case Collection(itemKey, itemClass) =>
          r := HydrateCollectionItems(child, v, itemKey, itemClass);
          if r.Err? {
            return;
          }
        case _ =>
      }
      heap := SetSlot(heap, inst, p.name, Ref(v));
      r := Ok(());
    }

    /** The loop of `hydrateComplexProperty` over the item elements of the
        collection element `child`, hydrated as instance `coll`: each item is
        hydrated and appended with `add`, in document order. */
    method HydrateCollectionItems(child: Node, coll: nat, itemKey: string, itemClass: ClassName)
      returns (r: Result<()>)
      requires Valid() && depth > 0 && coll < |heap| && itemClass in env.schema
      modifies this
      ensures Valid() && depth == old(depth)
      ensures Step(r, Current()) == HydrateItems(env, old(Current()), coll, ChildList(child, itemKey), itemClass, child)
      decreases Weight(child), child, 1
    {
      var items := ChildList(child, itemKey);
      ghost var st0 := Current();
      r := Ok(());
      var j := 0;
      while j < |items|
        invariant 0 <= j <= |items| && coll < |heap|
        invariant Valid() && depth == old(depth)
        invariant r == Ok(()) && HydrateItems(env, st0, coll, items[..j], itemClass, child) == Step(Ok(()), Current())
      {
        var item := HydrateItem(child, coll, items, j, itemClass, st0);
        if item.Err? {
          return item;
        }
        j := j + 1;
      }
      assert items[..j] == items;
    }

    /** One pass of that loop: hydrate item element `j` and append it to the
        collection, or stop the whole loop with its failure. */
    method HydrateItem(child: Node, coll: nat, items: seq<Node>, j: nat, itemClass: ClassName, ghost st0: State)
      returns (r: Result<()>)
      requires Valid() && depth > 0 && itemClass in env.schema
      requires WellFormed(env.schema) && Semantics.Valid(st0) && coll < |st0.heap|
      requires |items| <= |child.children| && forall k :: 0 <= k < |items| ==> items[k] < child
      requires j < |items| && HydrateItems(env, st0, coll, items[..j], itemClass, child) == Step(Ok(()), Current())
      modifies this
      ensures Valid() && depth == old(depth) && coll < |heap|
      ensures r.Ok? ==> HydrateItems(env, st0, coll, items[..j + 1], itemClass, child) == Step(Ok(()), Current())
      ensures r.Err? ==> HydrateItems(env, st0, coll, items, itemClass, child) == Step(r, Current())
      decreases Weight(child), child, 0
    {
      ItemsNext(env, st0, coll, items, itemClass, child, j, Current());
      assert items[j] < child && Weight(child) == 1;
      var item := Hydrate(items[j], itemClass);
      if item.Err? {
        return Err(item.error);
      }
      heap := AddItem(heap, coll, item.value);
      r := Ok(());
    }
  }
}
