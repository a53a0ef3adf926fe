# Hydration engine of an ISDOC binding library, in Dafny

The library turns a parsed invoice document (a tree of elements with attributes,
text content and child elements) into a graph of typed objects. Its engine,
`Hydrator`, walks the tree guided by per-class binding metadata:
- It allocates one instance per element.
- It registers every instance whose element carries `@id`.
- It sets each declared property in declaration order. A property is a primitive, a date, a simple-content element (a typed text value with attributes), a nested element, or a reference (`@ref`).
- It fills collections item by item.
- It defers reference resolution: each reference property queues a *finisher*. The outermost `hydrate` call runs the queued finishers once the whole tree has been visited, so a reference may point at an element that comes later in the document.

The project models that engine and the one collection class named here, `PaymentMeans`.

- `errors.dfy`: the failure taxonomy (`Error`) and the `Result`/`Option` wrappers.
- `document.dfy`: the document tree the engine reads.
  - `Node` is a map of scalar values (attributes `@…`, the text slot `#`, flat child values) plus its child elements *in document order*.
  - The queries `GetValue`, `HasChild`, `GetChild` (the first child with that name), `ChildList` and `Empty` (`createEmpty`).
- `metadata.dfy`: what the reflector reports per class.
  - The declared properties, in order, each with its key, nullability and kind.
  - Whether the class is plain, a simple-content element, or a collection with an item key and an item class.
- `objects.dfy`: the object graph.
  - A heap of instances, indexed by allocation order.
  - Each instance has its set properties, its text content and its collection items.
- `semantics.dfy`: the reference semantics.
  - Every engine operation is a function from the engine's state to an outcome and a new state. The state is the heap, the identity table and the finisher queue.
  - A failing step returns the state as it was when the exception was thrown.
  - `Hydration` is a whole top-level call: traverse, then run the finishers whether the traversal succeeded or not. A failing finisher's error replaces the traversal's, as an exception thrown in the `finally` block does.
- `hydrator.dfy`: the engine itself, as the class `Engine.Hydrator`.
  - Its fields are `depth`, `references` and `finishers`, plus the heap of instances it builds.
  - Each method is proved to compute exactly the corresponding semantic function.
  - The outermost `Hydrate` is proved to equal `Hydration`, and to leave the table and the queue empty.
- `payment_means.dfy`: the `PaymentMeans` collection: `add` appends and returns the collection, and `getIterator` yields the items in insertion order.
  - The engine sees a collection only through `add`. In the heap that call is `Objects.AddItem`: it appends the item after the instance's current items, as `PaymentMeans.Add` does to its `items`.
  - The engine ignores the value `add` returns (`src/Hydrator.php:231`). That value is the collection itself, so ignoring it and chaining on it, as `AddInOrder` does, come to the same thing.
- `properties.dfy`: theorems about the semantics.
  - Completeness of every instance built.
  - Resolution order, lookup, and the error for a dangling identity.
  - Identity registration and duplicates.
  - Collection order and count, and which item element each item came from.
  - Simple-content text.
  - Absent properties.
  - Declaration order.
- `scenario.dfy`: a worked document in which a buyer element refers forward to the seller element registered after it. The reference resolves to the seller instance.

Where the engine's behaviour is easy to misread, the model follows the code:
- A primitive or date property whose key is absent fails even when the property is nullable. The value is read unconditionally at `src/Hydrator.php:153` and `:159`, and `getValue` is taken to fail with a missing-child error on an absent key (see "## Left out"). Only a date value that converts to no date becomes null.
- A reference property reads `@ref` from the element being hydrated, not from a child under the property's key (`src/Hydrator.php:108`).
- A failed top-level call still runs the finishers and then empties the table and the queue (`src/Hydrator.php:55-59`, `:72-74`).

Several engine methods are split into helpers purely for proof size:
- `Hydrate`: `HydrateInstance` is its `try` body and `HydrateProperties` is its `foreach` loop.
- `hydrateComplexProperty`: `AttachComplexProperty` is its tail, `HydrateCollectionItems` is its item loop and `HydrateItem` is one pass of that loop.

Each helper mirrors one function of `Semantics`.

## Model

| member | source | states |
|---|---|---|
| Engine.Hydrator.constructor | src/Hydrator.php:25-28 | A new engine has depth 0, an empty identity table and an empty finisher queue. |
| Engine.Hydrator.Hydrate | src/Hydrator.php:37-62 | Depth is restored on every exit. A nested call computes `Semantics.Hydrate` on the shared state. The outermost call computes `Semantics.Hydration`, which runs the finishers even after a failure, and leaves the table and the queue empty on success or failure. |
| Engine.Hydrator.HydrateInstance | src/Hydrator.php:41-53 | Allocates the instance, registers `@id` if present, then hydrates the properties; the outcome and the state are exactly those of `Semantics.Hydrate`. |
| Engine.Hydrator.HydrateProperties | src/Hydrator.php:49-51 | The property loop stops at the first failure. Its outcome and state equal the declaration-order fold `Semantics.HydrateProperties`. |
| Engine.Hydrator.Finish | src/Hydrator.php:64-75 | Runs the finishers in registration order and stops at the first failure. The heap and outcome equal `Semantics.Resolve`. The table and queue are emptied in every case. |
| Engine.Hydrator.RegisterReference | src/Hydrator.php:78-87 | Fails with a duplicate-id error, changing nothing, exactly when the identity is already registered. Otherwise the table gains exactly that entry. |
| Engine.Hydrator.HydrateProperty | src/Hydrator.php:90-103 | Dispatches reference and mapped properties and equals `Semantics.HydrateProperty`. |
| Engine.Hydrator.HydrateReferenceProperty | src/Hydrator.php:106-124 | Without `@ref` it fails with a missing-reference-id error and changes nothing. Otherwise it queues exactly one finisher for this instance and property, and sets nothing yet. |
| Engine.Hydrator.HydrateMappedProperty | src/Hydrator.php:127-148 | Dispatches primitive, date, simple-content and complex properties and equals `Semantics.HydrateProperty`. |
| Engine.Hydrator.HydratePrimitiveProperty | src/Hydrator.php:151-154 | Equals `Semantics.PrimitiveStep`: a missing value or a failed cast fails and changes nothing; otherwise sets the cast value. |
| Engine.Hydrator.HydrateDateProperty | src/Hydrator.php:157-167 | Equals `Semantics.DateStep`: no date on a non-nullable property fails with a missing-child error; otherwise sets the date, or null. |
| Engine.Hydrator.HydrateSimpleContentElementProperty | src/Hydrator.php:170-202 | Equals `Semantics.SimpleContentStep`, including the absent-and-nullable, absent-and-required and flat-value (`createEmpty`) paths. |
| Engine.Hydrator.HydrateComplexProperty | src/Hydrator.php:205-219 | Equals `Semantics.ComplexStep`. An absent child gives null or a missing-child error; otherwise the child is hydrated as the declared class. |
| Engine.Hydrator.AttachComplexProperty | src/Hydrator.php:221-236 | Equals `Semantics.AttachComplex`: a collection is filled first, then the property is set to the hydrated child. |
| Engine.Hydrator.HydrateCollectionItems | src/Hydrator.php:229-232 | The item loop stops at the first failing item. It equals `Semantics.HydrateItems` over the child list in document order. |
| Engine.Hydrator.HydrateItem | src/Hydrator.php:230-232 | One pass: after the first `j` item elements, hydrating element `j` and appending it gives `Semantics.HydrateItems` over the first `j + 1`; a failure gives that of the whole loop. |
| Semantics.Register | src/Hydrator.php:78-87 | Fails exactly when the identity is already in the table, leaving the state unchanged. Otherwise the table's keys grow by exactly that identity, mapped to the instance. |
| Semantics.Hydrate | src/Hydrator.php:37-53 | On success, returns the next free heap index holding an instance of the requested class. Existing instances are untouched. The table only grows, the queue only grows at its end, and classes never change. |
| Semantics.HydrateProperties | src/Hydrator.php:49-51 | Only the properties of the instance being hydrated change among existing instances; the new state grows the old one. |
| Semantics.HydrateProperty | src/Hydrator.php:90-148 | One property step changes, of existing instances, only that one property of that one instance. |
| Semantics.ReferenceStep | src/Hydrator.php:106-124 | Fails exactly when `@ref` is absent, changing nothing. Otherwise the queue gains exactly the finisher for this property, and the heap and table are unchanged. |
| Semantics.PrimitiveStep | src/Hydrator.php:150-154 | Succeeds exactly when the value is present and casts. An absent value fails with a missing-child error, and a value that does not cast with an invalid-format error (`ValueException`). Success sets exactly the cast value; failure changes nothing. |
| Semantics.DateStep | src/Hydrator.php:157-167 | Succeeds exactly when the value is present, is not malformed, and converts to a date or the property is nullable. An absent value fails with a missing-child error, a malformed one with an invalid-format error, and no date on a non-nullable property with a missing-child error. Success sets null exactly when the value converted to no date. |
| Semantics.SimpleContentStep | src/Hydrator.php:170-202 | Changes, of existing instances, only the one property; the state grows. |
| Semantics.AttachContent | src/Hydrator.php:191-201 | Succeeds exactly when the class is a simple-content element and, with a child element, that child has a `#` value. A class that is not one fails with unsupported-metadata; a child element without `#` fails with a missing-child error for `#`. A failure changes nothing. On success the element's text is the child's `#` value, or the flat value without a child element, and the property refers to the element. Of what existed before the child was hydrated, only that property changes. |
| Semantics.ComplexStep | src/Hydrator.php:205-237 | Changes, of existing instances, only the one property; the state grows. |
| Semantics.AttachComplex | src/Hydrator.php:221-236 | A class that is not a collection always succeeds and leaves the child untouched. On success the property refers to the child. A collection gains exactly one item per item element. Of what existed before the child was hydrated, only that property changes. Which item comes from which element is stated by `Properties.AttachedItemsRegistered`. |
| Semantics.HydrateItems | src/Hydrator.php:229-232 | Appends to the collection only new instances of the item class, in increasing allocation order, keeping the old items. On success it appends exactly one item per item element. |
| Semantics.Resolve | src/Hydrator.php:64-75 | Resolution allocates nothing. Its effect on properties is stated by the `Properties.Resolve*` lemmas. |
| Semantics.Hydration | src/Hydrator.php:37-75 | The whole outermost call: the `try` body from an empty table and queue, then `finish` in the `finally`, whose error replaces the traversal's. The heap only grows, and a success is a fresh heap index. What it builds and how references resolve is proved by `Properties.HydrationComplete`, `Properties.ReferencesResolve`, `Properties.DanglingReferenceFails` and `Scenario.ForwardReference`. |
| Semantics.PropertiesAbort | src/Hydrator.php:49-51 | Once a property fails, the remaining properties are not hydrated. |
| Semantics.ItemsAbort | src/Hydrator.php:230-232 | Once an item fails, the remaining item elements are not hydrated. |
| Semantics.ResolveAbort | src/Hydrator.php:68-70 | Once a finisher fails, the remaining finishers do not run. |
| Properties.ResolveInOrder | src/Hydrator.php:68-70 | Finishers run in registration order: resolving a queue resolves its first part, then, unless that failed, the rest. |
| Properties.ResolveSucceedsIff | src/Hydrator.php:112-123 | Resolution succeeds if and only if every queued identity is in the table. |
| Properties.ResolveReportsFirst | src/Hydrator.php:116-118 | A failing resolution reports the first queued identity, in registration order, that is not registered. |
| Properties.ResolveKeeps | src/Hydrator.php:112-123 | A successful resolution changes only the properties some finisher targets; classes, text content and items are unchanged. |
| Properties.ResolveSetsRefs | src/Hydrator.php:121 | After a successful resolution, every targeted property holds an instance reference. |
| Properties.ResolveLastWins | src/Hydrator.php:121 | Each property refers to the instance registered under the identity of the last finisher that targets it. |
| Properties.HydrateBuilds | src/Hydrator.php:37-53 | Every instance a successful `hydrate` allocates is built. Every declared property is either set to a value of its kind (a primitive, a date or null, or an instance of the declared class or null), null only where nullable, or, for a reference, has a queued finisher. |
| Properties.PropertiesBuild | src/Hydrator.php:49-51 | After a successful property loop, every declared property of the instance is settled, and every instance allocated meanwhile is built. |
| Properties.PropertyBuilds | src/Hydrator.php:90-148 | A successful property step settles that property and builds every instance it allocated. |
| Properties.SimpleContentBuilds | src/Hydrator.php:170-202 | A successful simple-content step sets null (only if nullable) or an instance of the declared class, and builds what it allocated. |
| Properties.ComplexBuilds | src/Hydrator.php:205-237 | A successful complex step sets null (only if nullable) or an instance of the declared class, and builds what it allocated. |
| Properties.AttachBuilds | src/Hydrator.php:221-236 | Filling a collection keeps the built instances built and builds every item. |
| Properties.ItemsBuild | src/Hydrator.php:230-232 | Every item instance hydrated by a successful item loop is built. |
| Properties.HydrationComplete | src/Hydrator.php:37-75 | A successful top-level call returns a new instance of the requested class. Every instance built has every declared property set: references to instances, and nothing null unless nullable. |
| Properties.ReferencesResolve | src/Hydrator.php:106-124 | Identities are looked up after the whole traversal, so a reference to a later element resolves. When all queued identities are registered, the outcome is the traversal's and each reference property holds the registered instance. |
| Properties.DanglingReferenceFails | src/Hydrator.php:116-118 | An identity that no visited element registered makes the whole call fail with referenced-element-not-found for the first such identity, even if the traversal succeeded. |
| Properties.HydrateAllocates | src/Hydrator.php:43 | `hydrate` allocates exactly one fresh instance of the class, with no content and no items. |
| Properties.IdentityRegistered | src/Hydrator.php:45-47 | An element's `@id` already in the table fails with a duplicate-id error. On success the identity maps to the instance built for that element. |
| Properties.PropertiesInOrder | src/Hydrator.php:49-51 | Properties are hydrated in declaration order, each once: the first part of the list, then, unless that failed, the rest from the resulting state. |
| Properties.SimpleContentText | src/Hydrator.php:183-201 | A present simple-content property refers to a new instance of its class, which must be a simple-content element. Its text is the child's `#` value, or the flat value when there is no child element. |
| Properties.AbsentSimpleContent | src/Hydrator.php:172-181 | With neither child nor value: null if nullable, otherwise a missing-child error that changes nothing. |
| Properties.AbsentComplex | src/Hydrator.php:207-216 | With no child element: null if nullable, otherwise a missing-child error that changes nothing. |
| Properties.CollectionItems | src/Hydrator.php:218-236 | A collection property refers to a new collection with exactly one item per item element of its child. Each item is a new instance of the item class, in increasing allocation order. Item `k` is the instance registered under the identity of item element `k` when that element has one. |
| Properties.AttachedItemsRegistered | src/Hydrator.php:229-236 | After a collection is filled, each item element's identity maps to the item in that element's own position. |
| Properties.ItemsAt | src/Hydrator.php:230-232 | When the loop over the first `k + 1` item elements succeeds, the loop over the first `k` succeeded, element `k` was hydrated after it, and its instance was appended last. |
| Properties.ItemsPrefix | src/Hydrator.php:230-232 | Every prefix of a successful item loop succeeds, and the items it appended are a prefix of the final items. |
| Properties.ItemsPrefixRefs | src/Hydrator.php:230-232 | What a prefix of a successful item loop registered stays registered, under the same instance. |
| Properties.ItemsFollowNodes | src/Hydrator.php:230-232 | Item element `k` becomes item `k`. The item appended in position `k` is the instance that hydrating element `k` returns once elements `0..k-1` are done. When element `k` has an identity, that item is the instance registered under it. |
| Scenario.Traversal | src/Hydrator.php:37-53 | In the worked invoice, the traversal queues the buyer's reference before the seller registers `p1`. |
| Scenario.ForwardReference | src/Hydrator.php:55-59 | The worked invoice hydrates successfully, and the buyer's reference resolves to the seller instance registered after it. |
| PaymentMeansCollection.PaymentMeans.GetIterator | src/Schema/Invoice/PaymentMeans.php:19-22 | The iterator yields exactly the stored items, first added first. |
| PaymentMeansCollection.PaymentMeans.Add | src/Schema/Invoice/PaymentMeans.php:24-28 | Appends the payment after the stored ones, which keep their positions; the iterator gains exactly it at the end; returns the same collection. |
| PaymentMeansCollection.AddInOrder | src/Schema/Invoice/PaymentMeans.php:19-28 | Adding items one by one through the fluent `add` and then iterating yields exactly those items, in the order added. |

## Left out

- `src/Encoder.php` and `src/ToArray.php`: encoding back to a document is not part of this model.
- The reflector, `Instance`, `Data` and `Value` are modelled only by what the engine observes.
  - The reflector becomes a map from class names to metadata.
  - `Value::cast` and `Value::toDate` are functions supplied with the engine (`Env`); number and date parsing are not modelled.
  - `getChild` is taken to return the first child element with the key.
  - `getValue` is taken to fail with a missing-child error when the key is absent. So in the model a nullable primitive or date property with no value is an error, not null.
- Diagnostic paths (`getPath`) carried by the errors are not modelled. Errors carry the key or identity only.
- PHP object identity is modelled as heap indices. Setting a property, setting content and appending an item update the record at an index.
- The defensive `RuntimeException`s:
  - A class that is not a simple-content element at `src/Hydrator.php:191-193` is the `UnsupportedMetadata` error.
  - A collection without collection reflection at `:225-227` cannot arise, because a collection class always carries its item key and item class.
- PHP chains an exception thrown in `finally` to the one in flight; the model keeps only the finisher's error.
- Validation of the item type added to a collection (`src/Hydrator.php:229`) and of the instance a reference resolves to (`:120`) is not done in the source and not modelled.
- In the engine, collections are the `items` of an instance; the concrete collection classes other than `PaymentMeans`, and the other schema classes, are not part of this model.
- Properties.HydrationComplete: after the finishers run it states presence, non-null and reference-ness of every property, not the kind of each value. The kinds are stated before resolution by `Properties.HydrateBuilds`, because the model does not carry the invariant that finishers only target reference properties.
- Properties.IdentityRegistered: states the duplicate check per element. That a document whose identities are all distinct never fails with a duplicate-id error is not stated, as it needs a notion of the identities of the visited elements.
