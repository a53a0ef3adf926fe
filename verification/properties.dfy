/** What the reference semantics guarantees: resolution of deferred references,
    completeness of every instance a hydration builds, collection order,
    identity registration and the handling of absent data. */
module Properties {
  import opened Errors
  import opened Document
  import opened Metadata
  import opened Objects
  import opened Semantics

  // ---------------------------------------------------------------------------
  // Deferred resolution

  /** Some finisher of `q` targets property `s` of instance `j`. */
  predicate Targeted(q: seq<Finisher>, j: nat, s: string) {
    exists k :: 0 <= k < |q| && q[k].inst == j && q[k].slot == s
  }

  /** Finisher `k` is the last one of `q` that targets its property. */
  predicate LastFor(q: seq<Finisher>, k: nat)
    requires k < |q|
  {
    forall k' :: k < k' < |q| ==> q[k'].inst != q[k].inst || q[k'].slot != q[k].slot
  }

  /** Finishers run in registration order: resolving a queue resolves its first
      part, then, unless that failed, the rest. */
  lemma {:induction false} ResolveInOrder(heap: Heap, refs: map<string, nat>, q1: seq<Finisher>, q2: seq<Finisher>)
    requires forall k :: 0 <= k < |q1| ==> q1[k].inst < |heap|
    requires forall k :: 0 <= k < |q2| ==> q2[k].inst < |heap|
    ensures var a := Resolve(heap, refs, q1);
      Resolve(heap, refs, q1 + q2) == if a.result.Err? then a else Resolve(a.heap, refs, q2)
    decreases |q2|
  {
    if q2 == [] {
      assert q1 + q2 == q1;
    } else {
      var front := q2[..|q2| - 1];
      assert (q1 + q2)[..|q1 + q2| - 1] == q1 + front;
      ResolveInOrder(heap, refs, q1, front);
    }
  }

  /** Resolution succeeds exactly when every queued identity is registered. */
  lemma {:induction false} ResolveSucceedsIff(heap: Heap, refs: map<string, nat>, q: seq<Finisher>)
    requires forall k :: 0 <= k < |q| ==> q[k].inst < |heap|
    ensures Resolve(heap, refs, q).result.Ok? <==> forall k :: 0 <= k < |q| ==> q[k].refId in refs
    decreases |q|
  {
    if q != [] {
      var front := q[..|q| - 1];
      ResolveSucceedsIff(heap, refs, front);
      assert forall k :: 0 <= k < |front| ==> front[k] == q[k];
    }
  }

  /** A failing resolution reports the first queued identity that is not
      registered. */
  lemma {:induction false} ResolveReportsFirst(heap: Heap, refs: map<string, nat>, q: seq<Finisher>, k: nat)
    requires forall i :: 0 <= i < |q| ==> q[i].inst < |heap|
    requires k < |q| && q[k].refId !in refs && forall i :: 0 <= i < k ==> q[i].refId in refs
    ensures Resolve(heap, refs, q).result == Err(ReferencedElementNotFound(q[k].refId))
    decreases |q|
  {
    var front := q[..|q| - 1];
    if k == |q| - 1 {
      ResolveSucceedsIff(heap, refs, front);
    } else {
      ResolveReportsFirst(heap, refs, front, k);
    }
  }

  /** A successful resolution changes only the properties some finisher
      targets; classes, content and items stay as they were. */
  lemma {:induction false} ResolveKeeps(heap: Heap, refs: map<string, nat>, q: seq<Finisher>)
    requires forall k :: 0 <= k < |q| ==> q[k].inst < |heap|
    ensures var r := Resolve(heap, refs, q); r.result.Ok? ==>
      && (forall j :: 0 <= j < |heap| ==> r.heap[j] == heap[j].(slots := r.heap[j].slots))
      && (forall j, s :: 0 <= j < |heap| && !Targeted(q, j, s) ==>
            (s in r.heap[j].slots <==> s in heap[j].slots) && (s in heap[j].slots ==> r.heap[j].slots[s] == heap[j].slots[s]))
    decreases |q|
  {
    var r := Resolve(heap, refs, q);
    if q != [] && r.result.Ok? {
      var front := q[..|q| - 1];
      var f := q[|q| - 1];
      ResolveKeeps(heap, refs, front);
      var pre := Resolve(heap, refs, front);
      assert r.heap == SetSlot(pre.heap, f.inst, f.slot, Ref(refs[f.refId]));
      forall j, s | 0 <= j < |heap| && !Targeted(q, j, s)
        ensures (s in r.heap[j].slots <==> s in heap[j].slots) && (s in heap[j].slots ==> r.heap[j].slots[s] == heap[j].slots[s])
      {
        assert !Targeted(front, j, s) by {
          assert forall k :: 0 <= k < |front| ==> front[k] == q[k];
        }
        assert f.inst != j || f.slot != s by {
          assert q[|q| - 1] == f;
        }
      }
    }
  }

  /** A successful resolution leaves every targeted property holding an
      instance reference. */
  lemma {:induction false} ResolveSetsRefs(heap: Heap, refs: map<string, nat>, q: seq<Finisher>)
    requires forall k :: 0 <= k < |q| ==> q[k].inst < |heap|
    ensures var r := Resolve(heap, refs, q); r.result.Ok? ==>
      forall k :: 0 <= k < |q| ==> q[k].slot in r.heap[q[k].inst].slots && r.heap[q[k].inst].slots[q[k].slot].Ref?
    decreases |q|
  {
    var r := Resolve(heap, refs, q);
    if q != [] && r.result.Ok? {
      var front := q[..|q| - 1];
      var f := q[|q| - 1];
      ResolveSetsRefs(heap, refs, front);
      var pre := Resolve(heap, refs, front);
      assert r.heap == SetSlot(pre.heap, f.inst, f.slot, Ref(refs[f.refId]));
      forall k | 0 <= k < |q|
        ensures q[k].slot in r.heap[q[k].inst].slots && r.heap[q[k].inst].slots[q[k].slot].Ref?
      {
        if k < |front| {
          assert front[k] == q[k];
          assert q[k].slot in pre.heap[q[k].inst].slots;
        }
      }
    }
  }

  /** The last finisher for a property decides it: the property refers to the
      instance registered under that finisher's identity. */
  lemma {:induction false} ResolveLastWins(heap: Heap, refs: map<string, nat>, q: seq<Finisher>)
    requires forall k :: 0 <= k < |q| ==> q[k].inst < |heap|
    ensures var r := Resolve(heap, refs, q); r.result.Ok? ==>
      forall k :: 0 <= k < |q| && LastFor(q, k) ==>
        q[k].refId in refs && q[k].slot in r.heap[q[k].inst].slots && r.heap[q[k].inst].slots[q[k].slot] == Ref(refs[q[k].refId])
    decreases |q|
  {
    var r := Resolve(heap, refs, q);
    if q != [] && r.result.Ok? {
      var front := q[..|q| - 1];
      var f := q[|q| - 1];
      ResolveLastWins(heap, refs, front);
      ResolveSucceedsIff(heap, refs, q);
      var pre := Resolve(heap, refs, front);
      assert r.heap == SetSlot(pre.heap, f.inst, f.slot, Ref(refs[f.refId]));
      forall k | 0 <= k < |q| && LastFor(q, k)
        ensures q[k].slot in r.heap[q[k].inst].slots && r.heap[q[k].inst].slots[q[k].slot] == Ref(refs[q[k].refId])
      {
        if k < |front| {
          assert front[k] == q[k];
          assert LastFor(front, k);
          assert f.inst != q[k].inst || f.slot != q[k].slot;
        }
      }
    }
  }

  // ---------------------------------------------------------------------------
  // Completeness of the traversal

  /** What a hydrated property of kind `p.kind` may hold: a primitive, a date,
      or an instance of the declared class; null only where nullable. */
  predicate Fits(heap: Heap, v: Val, p: Property) {
    match p.kind
    case Primitive(_) => v.PrimVal?
    case DateKind => v.DateVal? || (v.Null? && p.nullable)
    case SimpleContent(c) => (v.Ref? && v.obj < |heap| && heap[v.obj].cls == c) || (v.Null? && p.nullable)
    case Complex(c) => (v.Ref? && v.obj < |heap| && heap[v.obj].cls == c) || (v.Null? && p.nullable)
    case Reference => v.Ref?
  }

  /** Property `p` of instance `j` has been dealt with by the traversal: set to
      a value that fits it, or, for a reference, awaiting a finisher. */
  predicate Settled(st: State, j: nat, p: Property)
    requires j < |st.heap|
  {
    if p.kind.Reference? then Targeted(st.queue, j, p.name)
    else p.name in st.heap[j].slots && Fits(st.heap, st.heap[j].slots[p.name], p)
  }

  /** Every declared property of instance `j` is settled. */
  predicate Built(env: Env, st: State, j: nat)
    requires j < |st.heap|
  {
    && st.heap[j].cls in env.schema
    && forall p :: p in env.schema[st.heap[j].cls].properties ==> Settled(st, j, p)
  }

  /** Every instance from index `from` on is built. */
  predicate AllBuilt(env: Env, st: State, from: nat) {
    forall j :: from <= j < |st.heap| ==> Built(env, st, j)
  }

  lemma SettledKept(st: State, st': State, j: nat, p: Property)
    requires Grows(st, st') && j < |st.heap| && Settled(st, j, p)
    requires !p.kind.Reference? ==> p.name in st'.heap[j].slots && st'.heap[j].slots[p.name] == st.heap[j].slots[p.name]
    ensures Settled(st', j, p)
  {
    if p.kind.Reference? {
      var k :| 0 <= k < |st.queue| && st.queue[k].inst == j && st.queue[k].slot == p.name;
      assert st'.queue[k] == st.queue[k];
    }
  }

  lemma BuiltKept(env: Env, st: State, st': State, j: nat)
    requires Grows(st, st') && j < |st.heap| && Built(env, st, j)
    requires st'.heap[j].slots == st.heap[j].slots
    ensures Built(env, st', j)
  {
    forall p | p in env.schema[st'.heap[j].cls].properties ensures Settled(st', j, p) {
      SettledKept(st, st', j, p);
    }
  }

  /** A successful `Hydrate` builds every instance it allocates. */
  lemma {:induction false} HydrateBuilds(env: Env, st: State, data: Node, cls: ClassName)
    requires WellFormed(env.schema) && cls in env.schema && Valid(st)
    ensures Hydrate(env, st, data, cls).result.Ok? ==> AllBuilt(env, Hydrate(env, st, data, cls).st, |st.heap|)
    decreases Weight(data), data, 6
  {
    var r := Hydrate(env, st, data, cls);
    if r.result.Ok? {
      HydrateUnfold(env, st, data, cls);
      var inst := |st.heap|;
      var st1 := st.(heap := Allocate(st.heap, cls));
      var reg := if HasValue(data, IdKey) then Register(st1, data.values[IdKey].text, inst) else Step(Ok(()), st1);
      var props := env.schema[cls].properties;
      assert ClassWellFormed(env.schema, env.schema[cls]);
      PropertiesBuild(env, reg.st, inst, data, props);
      assert r.st.heap[inst].cls == cls;
    }
  }

  /** Successfully hydrated properties are all settled on `inst`, and every
      instance allocated meanwhile is built. */
  lemma {:induction false} PropertiesBuild(env: Env, st: State, inst: nat, data: Node, props: seq<Property>)
    requires WellFormed(env.schema) && Valid(st) && inst < |st.heap|
    requires forall p :: p in props ==> PropertyTargets(env.schema, p)
    requires DistinctNames(props)
    ensures var r := HydrateProperties(env, st, inst, data, props);
      r.result.Ok? ==> (forall p :: p in props ==> Settled(r.st, inst, p)) && AllBuilt(env, r.st, |st.heap|)
    decreases Weight(data), data, 5, |props|
  {
    var r := HydrateProperties(env, st, inst, data, props);
    if props != [] && r.result.Ok? {
      var front := props[..|props| - 1];
      var last := props[|props| - 1];
      PropertiesBuild(env, st, inst, data, front);
      var pre := HydrateProperties(env, st, inst, data, front);
      PropertyBuilds(env, pre.st, inst, data, last);
      forall p | p in props ensures Settled(r.st, inst, p) {
        if p != last {
          var i :| 0 <= i < |front| && front[i] == p;
          assert p.name != last.name;
          assert p.name in r.st.heap[inst].slots - {last.name} <==> p.name in pre.st.heap[inst].slots - {last.name};
          SettledKept(pre.st, r.st, inst, p);
        }
      }
      forall j | |st.heap| <= j < |r.st.heap| ensures Built(env, r.st, j) {
        if j < |pre.st.heap| {
          BuiltKept(env, pre.st, r.st, j);
        }
      }
    }
  }

  lemma {:induction false} PropertyBuilds(env: Env, st: State, inst: nat, data: Node, p: Property)
    requires WellFormed(env.schema) && Valid(st) && inst < |st.heap| && PropertyTargets(env.schema, p)
    ensures var r := HydrateProperty(env, st, inst, data, p);
      r.result.Ok? ==> Settled(r.st, inst, p) && AllBuilt(env, r.st, |st.heap|)
    decreases Weight(data), data, 4
  {
    match p.kind
    case Reference =>
      var r := ReferenceStep(st, inst, data, p);
      if r.result.Ok? {
        assert r.st.queue[|st.queue|].inst == inst && r.st.queue[|st.queue|].slot == p.name;
      }
    case Primitive(_) =>
    case DateKind =>
    case SimpleContent(_) => SimpleContentBuilds(env, st, inst, data, p);
    case Complex(_) => ComplexBuilds(env, st, inst, data, p);
  }

  lemma {:induction false} SimpleContentBuilds(env: Env, st: State, inst: nat, data: Node, p: Property)
    requires WellFormed(env.schema) && Valid(st) && inst < |st.heap|
    requires p.kind.SimpleContent? && p.kind.cls in env.schema
    ensures var r := SimpleContentStep(env, st, inst, data, p);
      r.result.Ok? ==> Settled(r.st, inst, p) && AllBuilt(env, r.st, |st.heap|)
    decreases Weight(data), data, 2
  {
    var r := SimpleContentStep(env, st, inst, data, p);
    var hasChild := HasChild(data, p.key);
    if r.result.Ok? && (hasChild || HasValue(data, p.key)) {
      var child := if hasChild then GetChild(data, p.key) else Empty();
      HydrateBuilds(env, st, child, p.kind.cls);
      var h := Hydrate(env, st, child, p.kind.cls);
      forall j | |st.heap| <= j < |r.st.heap| ensures Built(env, r.st, j) {
        BuiltKept(env, h.st, r.st, j);
      }
    }
  }

  lemma {:induction false} ComplexBuilds(env: Env, st: State, inst: nat, data: Node, p: Property)
    requires WellFormed(env.schema) && Valid(st) && inst < |st.heap|
    requires p.kind.Complex? && p.kind.cls in env.schema
    ensures var r := ComplexStep(env, st, inst, data, p);
      r.result.Ok? ==> Settled(r.st, inst, p) && AllBuilt(env, r.st, |st.heap|)
    decreases Weight(data), data, 2
  {
    var r := ComplexStep(env, st, inst, data, p);
    if r.result.Ok? && HasChild(data, p.key) {
      var child := GetChild(data, p.key);
      HydrateBuilds(env, st, child, p.kind.cls);
      var h := Hydrate(env, st, child, p.kind.cls);
      AttachBuilds(env, st, h.st, inst, data, child, h.result.value, p);
    }
  }

  lemma {:induction false} AttachBuilds(env: Env, st0: State, st: State, inst: nat, data: Node, child: Node, v: nat, p: Property)
    requires WellFormed(env.schema) && Valid(st) && inst < |st0.heap| <= v < |st.heap|
    requires Grows(st0, st) && forall j :: 0 <= j < |st0.heap| ==> st.heap[j] == st0.heap[j]
    requires p.kind.Complex? && p.kind.cls in env.schema && HasChild(data, p.key) && child < data
    requires st.heap[v].cls == p.kind.cls && AllBuilt(env, st, |st0.heap|)
    ensures var r := AttachComplex(env, st0, st, inst, data, child, v, p);
      r.result.Ok? ==> Settled(r.st, inst, p) && AllBuilt(env, r.st, |st0.heap|)
    decreases Weight(data), data, 1
  {
    var r := AttachComplex(env, st0, st, inst, data, child, v, p);
    if r.result.Ok? {
      match env.schema[p.kind.cls].kind
      case Collection(itemKey, itemClass) =>
        var nodes := ChildList(child, itemKey);
        ItemsBuild(env, st, v, nodes, itemClass, child);
        var items := HydrateItems(env, st, v, nodes, itemClass, child);
        forall j | |st0.heap| <= j < |r.st.heap| ensures Built(env, r.st, j) {
          if j < |st.heap| {
            BuiltKept(env, st, items.st, j);
          }
          BuiltKept(env, items.st, r.st, j);
        }
      case _ =>
        forall j | |st0.heap| <= j < |r.st.heap| ensures Built(env, r.st, j) {
          BuiltKept(env, st, r.st, j);
        }
    }
  }

  lemma {:induction false} ItemsBuild(env: Env, st: State, coll: nat, nodes: seq<Node>, itemClass: ClassName, parent: Node)
    requires WellFormed(env.schema) && Valid(st) && coll < |st.heap| && itemClass in env.schema
    requires |nodes| <= |parent.children| && forall k :: 0 <= k < |nodes| ==> nodes[k] < parent
    ensures var r := HydrateItems(env, st, coll, nodes, itemClass, parent);
      r.result.Ok? ==> AllBuilt(env, r.st, |st.heap|)
    decreases Weight(parent), parent, 0, |nodes|
  {
    var r := HydrateItems(env, st, coll, nodes, itemClass, parent);
    if nodes != [] && r.result.Ok? {
      var front := nodes[..|nodes| - 1];
      ItemsBuild(env, st, coll, front, itemClass, parent);
      var pre := HydrateItems(env, st, coll, front, itemClass, parent);
      HydrateBuilds(env, pre.st, nodes[|nodes| - 1], itemClass);
      var h := Hydrate(env, pre.st, nodes[|nodes| - 1], itemClass);
      forall j | |st.heap| <= j < |r.st.heap| ensures Built(env, r.st, j) {
        if j < |pre.st.heap| {
          BuiltKept(env, pre.st, h.st, j);
        }
        BuiltKept(env, h.st, r.st, j);
      }
    }
  }

  // ---------------------------------------------------------------------------
  // A whole top-level hydration

  /** Instance `j` of a finished graph has every declared property set: a
      reference to an instance, any other property non-null unless it is
      nullable. */
  predicate Complete(env: Env, heap: Heap, j: nat)
    requires j < |heap|
  {
    && heap[j].cls in env.schema
    && forall p :: p in env.schema[heap[j].cls].properties ==>
         && p.name in heap[j].slots
         && (p.kind.Reference? ==> heap[j].slots[p.name].Ref?)
         && (heap[j].slots[p.name].Null? ==> p.nullable)
  }

  /** A successful top-level hydration returns a new instance of the requested
      class, and every instance it built is complete once the finishers ran. */
  lemma HydrationComplete(env: Env, heap: Heap, data: Node, cls: ClassName)
    requires WellFormed(env.schema) && cls in env.schema
    ensures var Outcome(r, heap') := Hydration(env, heap, data, cls);
      r.Ok? ==> && r.value == |heap| < |heap'| && heap'[r.value].cls == cls
                && forall j :: |heap| <= j < |heap'| ==> Complete(env, heap', j)
  {
    var st := State(heap, map[], []);
    var t := Hydrate(env, st, data, cls);
    var f := Resolve(t.st.heap, t.st.refs, t.st.queue);
    if f.result.Ok? && t.result.Ok? {
      HydrateBuilds(env, st, data, cls);
      ResolveKeeps(t.st.heap, t.st.refs, t.st.queue);
      ResolveSetsRefs(t.st.heap, t.st.refs, t.st.queue);
      forall j | |heap| <= j < |f.heap| ensures Complete(env, f.heap, j) {
        assert Built(env, t.st, j);
        forall p | p in env.schema[f.heap[j].cls].properties
          ensures p.name in f.heap[j].slots && (p.kind.Reference? ==> f.heap[j].slots[p.name].Ref?)
                  && (f.heap[j].slots[p.name].Null? ==> p.nullable)
        {
          assert Settled(t.st, j, p);
          if Targeted(t.st.queue, j, p.name) {
            var k :| 0 <= k < |t.st.queue| && t.st.queue[k].inst == j && t.st.queue[k].slot == p.name;
          }
        }
      }
    }
  }

  /** Deferred resolution: identities are looked up in the table as it stands
      after the whole traversal, so an element may refer to one that comes
      later in the document. When every queued identity is registered, the
      outcome is the traversal's, and each referencing property refers to the
      instance registered under the identity of its last finisher. */
  lemma ReferencesResolve(env: Env, heap: Heap, data: Node, cls: ClassName)
    requires WellFormed(env.schema) && cls in env.schema
    ensures var t := Hydrate(env, State(heap, map[], []), data, cls);
      var Outcome(r, heap') := Hydration(env, heap, data, cls);
      (forall k :: 0 <= k < |t.st.queue| ==> t.st.queue[k].refId in t.st.refs) ==>
        && r == t.result
        && forall k :: 0 <= k < |t.st.queue| && LastFor(t.st.queue, k) ==>
             t.st.queue[k].slot in heap'[t.st.queue[k].inst].slots
             && heap'[t.st.queue[k].inst].slots[t.st.queue[k].slot] == Ref(t.st.refs[t.st.queue[k].refId])
  {
    var t := Hydrate(env, State(heap, map[], []), data, cls);
    ResolveSucceedsIff(t.st.heap, t.st.refs, t.st.queue);
    ResolveLastWins(t.st.heap, t.st.refs, t.st.queue);
  }

  /** A reference to an identity that no element of the document carries makes
      the whole hydration fail, naming the first such identity in registration
      order, even when the traversal itself succeeded. */
  lemma DanglingReferenceFails(env: Env, heap: Heap, data: Node, cls: ClassName, k: nat)
    requires WellFormed(env.schema) && cls in env.schema
    requires var t := Hydrate(env, State(heap, map[], []), data, cls);
      k < |t.st.queue| && t.st.queue[k].refId !in t.st.refs
      && forall i :: 0 <= i < k ==> t.st.queue[i].refId in t.st.refs
    ensures var t := Hydrate(env, State(heap, map[], []), data, cls);
      Hydration(env, heap, data, cls).result == Err(ReferencedElementNotFound(t.st.queue[k].refId))
  {
    var t := Hydrate(env, State(heap, map[], []), data, cls);
    ResolveReportsFirst(t.st.heap, t.st.refs, t.st.queue, k);
  }

  // ---------------------------------------------------------------------------
  // Identities

  /** `hydrate` allocates exactly one instance of `cls` up front, with no
      content and no items; only its properties are set afterwards. */
  lemma HydrateAllocates(env: Env, st: State, data: Node, cls: ClassName)
    requires WellFormed(env.schema) && cls in env.schema && Valid(st)
    ensures var r := Hydrate(env, st, data, cls);
      |st.heap| < |r.st.heap| && r.st.heap[|st.heap|] == Instance(cls, r.st.heap[|st.heap|].slots, None, [])
  {
    HydrateUnfold(env, st, data, cls);
  }

  /** An element carrying `@id` is registered under it, as the instance built
      for it; an identity already in the table fails with a duplicate error. */
  lemma IdentityRegistered(env: Env, st: State, data: Node, cls: ClassName)
    requires WellFormed(env.schema) && cls in env.schema && Valid(st) && HasValue(data, IdKey)
    ensures var r := Hydrate(env, st, data, cls); var id := data.values[IdKey].text;
      && (id in st.refs ==> r.result == Err(DuplicateReferenceId(id)))
      && (r.result.Ok? ==> id in r.st.refs && r.st.refs[id] == r.result.value)
  {
    HydrateUnfold(env, st, data, cls);
  }

  // ---------------------------------------------------------------------------
  // Properties

  /** Properties are hydrated in declaration order: the first part of the
      list, then, unless that failed, the rest. */
  lemma {:induction false} PropertiesInOrder(env: Env, st: State, inst: nat, data: Node, ps1: seq<Property>, ps2: seq<Property>)
    requires WellFormed(env.schema) && Valid(st) && inst < |st.heap|
    requires forall p :: p in ps1 + ps2 ==> PropertyTargets(env.schema, p)
    ensures var a := HydrateProperties(env, st, inst, data, ps1);
      HydrateProperties(env, st, inst, data, ps1 + ps2) ==
        if a.result.Err? then a else HydrateProperties(env, a.st, inst, data, ps2)
    decreases |ps2|
  {
    if ps2 == [] {
      assert ps1 + ps2 == ps1;
      var a := HydrateProperties(env, st, inst, data, ps1);
      if a.result.Ok? {
        match a.result.value { case () => }
      }
    } else {
      var front := ps2[..|ps2| - 1];
      var all := ps1 + ps2;
      assert all[..|all| - 1] == ps1 + front;
      assert all[|all| - 1] == ps2[|ps2| - 1];
      PropertiesInOrder(env, st, inst, data, ps1, front);
      var a := HydrateProperties(env, st, inst, data, ps1);
      if a.result.Ok? {
        assert HydrateProperties(env, a.st, inst, data, ps2) ==
          var pre := HydrateProperties(env, a.st, inst, data, front);
          if pre.result.Err? then pre else HydrateProperty(env, pre.st, inst, data, ps2[|ps2| - 1]);
      }
    }
  }

  /** A simple-content property present in the node refers to a new instance
      of its class whose text is the child's `#` value, or the flat value when
      there is no child element. */
  lemma SimpleContentText(env: Env, st: State, inst: nat, data: Node, p: Property)
    requires WellFormed(env.schema) && Valid(st) && inst < |st.heap|
    requires p.kind.SimpleContent? && p.kind.cls in env.schema
    requires HasChild(data, p.key) || HasValue(data, p.key)
    ensures var r := SimpleContentStep(env, st, inst, data, p);
      r.result.Ok? ==>
        && env.schema[p.kind.cls].kind.SimpleContentElement?
        && p.name in r.st.heap[inst].slots && r.st.heap[inst].slots[p.name] == Ref(|st.heap|)
        && r.st.heap[|st.heap|].cls == p.kind.cls
        && r.st.heap[|st.heap|].content ==
             Some(if HasChild(data, p.key) then GetChild(data, p.key).values[ContentKey].text
                  else data.values[p.key].text)
  {
  }

  /** An absent simple-content property is null when nullable and otherwise a
      missing-required-child failure that changes nothing. */
  lemma AbsentSimpleContent(env: Env, st: State, inst: nat, data: Node, p: Property)
    requires WellFormed(env.schema) && Valid(st) && inst < |st.heap|
    requires p.kind.SimpleContent? && p.kind.cls in env.schema
    requires !HasChild(data, p.key) && !HasValue(data, p.key)
    ensures var r := SimpleContentStep(env, st, inst, data, p);
      && (p.nullable ==> r.result.Ok? && r.st.heap[inst].slots == st.heap[inst].slots[p.name := Null])
      && (!p.nullable ==> r == Step(Err(MissingRequiredChild(p.key)), st))
  {
  }

  /** An absent complex property is null when nullable and otherwise a
      missing-required-child failure that changes nothing; a flat value under
      its key does not count as present. */
  lemma AbsentComplex(env: Env, st: State, inst: nat, data: Node, p: Property)
    requires WellFormed(env.schema) && Valid(st) && inst < |st.heap|
    requires p.kind.Complex? && p.kind.cls in env.schema && !HasChild(data, p.key)
    ensures var r := ComplexStep(env, st, inst, data, p);
      && (p.nullable ==> r.result.Ok? && r.st.heap[inst].slots == st.heap[inst].slots[p.name := Null])
      && (!p.nullable ==> r == Step(Err(MissingRequiredChild(p.key)), st))
  {
  }

  /** Item element k of a loop: after a successful pass over the first k + 1
      elements, the first k succeeded and element k was hydrated and appended. */
  lemma ItemsAt(env: Env, st: State, coll: nat, nodes: seq<Node>, itemClass: ClassName, parent: Node, k: nat)
    requires WellFormed(env.schema) && Valid(st) && coll < |st.heap| && itemClass in env.schema
    requires |nodes| <= |parent.children| && forall k :: 0 <= k < |nodes| ==> nodes[k] < parent
    requires k < |nodes|
    ensures var next := HydrateItems(env, st, coll, nodes[..k + 1], itemClass, parent);
      var pre := HydrateItems(env, st, coll, nodes[..k], itemClass, parent);
      next.result.Ok? ==>
        && pre.result.Ok?
        && var h := Hydrate(env, pre.st, nodes[k], itemClass);
           && h.result.Ok? && next.st.refs == h.st.refs
           && next.st.heap[coll].items == pre.st.heap[coll].items + [h.result.value]
  {
    assert nodes[..k + 1][..k] == nodes[..k];
  }

  /** Every prefix of a successful item loop succeeds, and the items it
      appends come first. */
  lemma {:induction false} ItemsPrefix(env: Env, st: State, coll: nat, nodes: seq<Node>, itemClass: ClassName, parent: Node, j: nat)
    requires WellFormed(env.schema) && Valid(st) && coll < |st.heap| && itemClass in env.schema
    requires |nodes| <= |parent.children| && forall k :: 0 <= k < |nodes| ==> nodes[k] < parent
    requires j <= |nodes|
    ensures var r := HydrateItems(env, st, coll, nodes, itemClass, parent);
      var pre := HydrateItems(env, st, coll, nodes[..j], itemClass, parent);
      r.result.Ok? ==> pre.result.Ok? && pre.st.heap[coll].items <= r.st.heap[coll].items
    decreases |nodes| - j
  {
    if j == |nodes| {
      assert nodes[..j] == nodes;
    } else {
      ItemsPrefix(env, st, coll, nodes, itemClass, parent, j + 1);
      ItemsAt(env, st, coll, nodes, itemClass, parent, j);
    }
  }

  /** What a prefix of a successful item loop registers stays registered. */
  lemma {:induction false} ItemsPrefixRefs(env: Env, st: State, coll: nat, nodes: seq<Node>, itemClass: ClassName, parent: Node, j: nat)
    requires WellFormed(env.schema) && Valid(st) && coll < |st.heap| && itemClass in env.schema
    requires |nodes| <= |parent.children| && forall k :: 0 <= k < |nodes| ==> nodes[k] < parent
    requires j <= |nodes|
    ensures var r := HydrateItems(env, st, coll, nodes, itemClass, parent);
      var pre := HydrateItems(env, st, coll, nodes[..j], itemClass, parent);
      r.result.Ok? ==> forall id :: id in pre.st.refs ==> id in r.st.refs && r.st.refs[id] == pre.st.refs[id]
    decreases |nodes| - j
  {
    if j == |nodes| {
      assert nodes[..j] == nodes;
    } else {
      ItemsPrefix(env, st, coll, nodes, itemClass, parent, j + 1);
      ItemsPrefixRefs(env, st, coll, nodes, itemClass, parent, j + 1);
      ItemsAt(env, st, coll, nodes, itemClass, parent, j);
      var pre := HydrateItems(env, st, coll, nodes[..j], itemClass, parent);
      assert Grows(pre.st, Hydrate(env, pre.st, nodes[j], itemClass).st);
    }
  }

  /** Item element k becomes item k: in a successful item loop, the instance
      appended in position k is the one hydrated from `nodes[k]` once the
      elements before it are done, and, when that element carries an
      identity, the instance registered under it. */
  lemma ItemsFollowNodes(env: Env, st: State, coll: nat, nodes: seq<Node>, itemClass: ClassName, parent: Node, k: nat)
    requires WellFormed(env.schema) && Valid(st) && coll < |st.heap| && itemClass in env.schema
    requires |nodes| <= |parent.children| && forall k :: 0 <= k < |nodes| ==> nodes[k] < parent
    requires k < |nodes|
    ensures var r := HydrateItems(env, st, coll, nodes, itemClass, parent);
      var item := Hydrate(env, HydrateItems(env, st, coll, nodes[..k], itemClass, parent).st, nodes[k], itemClass);
      r.result.Ok? ==>
        && |st.heap[coll].items| + k < |r.st.heap[coll].items|
        && item.result == Ok(r.st.heap[coll].items[|st.heap[coll].items| + k])
        && (HasValue(nodes[k], IdKey) ==>
              nodes[k].values[IdKey].text in r.st.refs
              && r.st.refs[nodes[k].values[IdKey].text] == r.st.heap[coll].items[|st.heap[coll].items| + k])
  {
    var r := HydrateItems(env, st, coll, nodes, itemClass, parent);
    if r.result.Ok? {
      var pre := HydrateItems(env, st, coll, nodes[..k], itemClass, parent);
      var next := HydrateItems(env, st, coll, nodes[..k + 1], itemClass, parent);
      ItemsPrefix(env, st, coll, nodes, itemClass, parent, k + 1);
      ItemsPrefixRefs(env, st, coll, nodes, itemClass, parent, k + 1);
      ItemsAt(env, st, coll, nodes, itemClass, parent, k);
      var h := Hydrate(env, pre.st, nodes[k], itemClass);
      assert |pre.st.heap[coll].items| == |st.heap[coll].items| + k;
      assert next.st.heap[coll].items[|st.heap[coll].items| + k] == h.result.value;
      if HasValue(nodes[k], IdKey) {
        IdentityRegistered(env, pre.st, nodes[k], itemClass);
      }
    }
  }

  /** A collection property gets one item per item element of its child: each
      a new instance of the item class, allocated in increasing order, and
      item k the one registered under item element k's identity. */
  lemma CollectionItems(env: Env, st: State, inst: nat, data: Node, p: Property)
    requires WellFormed(env.schema) && Valid(st) && inst < |st.heap|
    requires p.kind.Complex? && p.kind.cls in env.schema && HasChild(data, p.key)
    requires env.schema[p.kind.cls].kind.Collection?
    ensures var r := ComplexStep(env, st, inst, data, p);
      var kind := env.schema[p.kind.cls].kind;
      r.result.Ok? ==>
        && p.name in r.st.heap[inst].slots && r.st.heap[inst].slots[p.name] == Ref(|st.heap|)
        && var items := r.st.heap[|st.heap|].items;
           && |items| == |ChildList(GetChild(data, p.key), kind.itemKey)|
           && (forall k :: 0 <= k < |items| ==> |st.heap| < items[k] < |r.st.heap| && r.st.heap[items[k]].cls == kind.itemClass)
           && (forall a, b :: 0 <= a < b < |items| ==> items[a] < items[b])
           && var nodes := ChildList(GetChild(data, p.key), kind.itemKey);
              forall k :: 0 <= k < |nodes| && HasValue(nodes[k], IdKey) ==>
                nodes[k].values[IdKey].text in r.st.refs && r.st.refs[nodes[k].values[IdKey].text] == items[k]
  {
    var r := ComplexStep(env, st, inst, data, p);
    if r.result.Ok? {
      var child := GetChild(data, p.key);
      var kind := env.schema[p.kind.cls].kind;
      var nodes := ChildList(child, kind.itemKey);
      HydrateAllocates(env, st, child, p.kind.cls);
      var h := Hydrate(env, st, child, p.kind.cls);
      assert h.st.heap[|st.heap|].items == [];
      assert r == AttachComplex(env, st, h.st, inst, data, child, |st.heap|, p);
      AttachedItemsRegistered(env, st, h.st, inst, data, child, |st.heap|, p);
    }
  }

  /** Filling a collection registers each item element's identity as the item
      in its own position. */
  lemma AttachedItemsRegistered(env: Env, st0: State, st: State, inst: nat, data: Node, child: Node, v: nat, p: Property)
    requires WellFormed(env.schema) && Valid(st) && inst < |st0.heap| <= v < |st.heap|
    requires Grows(st0, st) && forall j :: 0 <= j < |st0.heap| ==> st.heap[j] == st0.heap[j]
    requires p.kind.Complex? && p.kind.cls in env.schema && HasChild(data, p.key) && child < data
    requires env.schema[p.kind.cls].kind.Collection?
    ensures var r := AttachComplex(env, st0, st, inst, data, child, v, p);
      var nodes := ChildList(child, env.schema[p.kind.cls].kind.itemKey);
      r.result.Ok? ==> forall k :: 0 <= k < |nodes| && HasValue(nodes[k], IdKey) ==>
        && nodes[k].values[IdKey].text in r.st.refs
        && |st.heap[v].items| + k < |r.st.heap[v].items|
        && r.st.refs[nodes[k].values[IdKey].text] == r.st.heap[v].items[|st.heap[v].items| + k]
  {
    var r := AttachComplex(env, st0, st, inst, data, child, v, p);
    var kind := env.schema[p.kind.cls].kind;
    var nodes := ChildList(child, kind.itemKey);
    var loop := HydrateItems(env, st, v, nodes, kind.itemClass, child);
    if r.result.Ok? {
      assert loop.result.Ok? && r.st == loop.st.(heap := SetSlot(loop.st.heap, inst, p.name, Ref(v)));
      forall k | 0 <= k < |nodes| && HasValue(nodes[k], IdKey)
        ensures nodes[k].values[IdKey].text in r.st.refs
          && |st.heap[v].items| + k < |r.st.heap[v].items|
          && r.st.refs[nodes[k].values[IdKey].text] == r.st.heap[v].items[|st.heap[v].items| + k]
      {
        ItemsFollowNodes(env, st, v, nodes, kind.itemClass, child, k);
      }
    }
  }
}
