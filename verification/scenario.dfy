/** A worked document: a forward reference, resolved after the traversal. */
module Scenario {
  import opened Errors
  import opened Document
  import opened Metadata
  import opened Objects
  import opened Semantics

  /** An invoice whose buyer element refers, by `@ref`, to the seller element
      that follows it and carries the matching `@id`. */
  const Invoice: ClassMeta := ClassMeta(Plain, [
    Property("buyer", "Buyer", false, Complex("PartyRef")),
    Property("seller", "Seller", false, Complex("Party"))])
  const PartyRef: ClassMeta := ClassMeta(Plain, [Property("party", "Party", false, Reference)])
  const Party: ClassMeta := ClassMeta(Plain, [])

  const Classes: Schema := map["Invoice" := Invoice, "PartyRef" := PartyRef, "Party" := Party]

  const Coercions: Env := Env(Classes, (t: PrimType, v: Value) => None, (v: Value) => NoDate)

  const BuyerNode: Node := Node(map["@ref" := Value("p1")], [])
  const SellerNode: Node := Node(map["@id" := Value("p1")], [])
  const InvoiceNode: Node := Node(map[], [Element("Buyer", BuyerNode), Element("Seller", SellerNode)])

  /** The finisher the buyer element queues. */
  const Pending: Finisher := Finisher(1, "party", "p1")

  /** The state once the invoice is allocated, once the buyer property is set,
      and once the seller property is set. */
  const Allocated: State := State([Instance("Invoice", map[], None, [])], map[], [])
  const AfterBuyer: State := State([Instance("Invoice", map["buyer" := Ref(1)], None, []),
                                    Instance("PartyRef", map[], None, [])], map[], [Pending])
  const AfterSeller: State := State([Instance("Invoice", map["buyer" := Ref(1), "seller" := Ref(2)], None, []),
                                     Instance("PartyRef", map[], None, []),
                                     Instance("Party", map[], None, [])], map["p1" := 2], [Pending])

  lemma ChildLists()
    ensures ChildList(InvoiceNode, "Buyer") == [BuyerNode]
    ensures ChildList(InvoiceNode, "Seller") == [SellerNode]
  {
    var cs := InvoiceNode.children;
    assert cs[1..] == [cs[1]] && cs[1..][1..] == [];
    assert Named(cs[1..], "Buyer", InvoiceNode) == [];
    assert Named(cs[1..], "Seller", InvoiceNode) == [SellerNode];
  }

  /** The buyer element is hydrated as a new `PartyRef`, which queues its
      reference; `p1` is not registered yet. */
  lemma PartyRefStep()
    ensures WellFormed(Classes)
    ensures Hydrate(Coercions, Allocated, BuyerNode, "PartyRef") == Step(Ok(1), AfterBuyer.(heap := [Allocated.heap[0], AfterBuyer.heap[1]]))
  {
    HydrateUnfold(Coercions, Allocated, BuyerNode, "PartyRef");
    assert PartyRef.properties == PartyRef.properties[..0] + [PartyRef.properties[0]];
  }

  /** The buyer property then refers to that `PartyRef`. */
  lemma BuyerStep()
    ensures WellFormed(Classes) && HydrateProperty(Coercions, Allocated, 0, InvoiceNode, Invoice.properties[0]) == Step(Ok(()), AfterBuyer)
  {
    var stB := AfterBuyer.(heap := [Allocated.heap[0], AfterBuyer.heap[1]]);
    PartyRefStep();
    ChildLists();
    assert GetChild(InvoiceNode, "Buyer") == BuyerNode;
    assert AttachComplex(Coercions, Allocated, stB, 0, InvoiceNode, BuyerNode, 1, Invoice.properties[0]) == Step(Ok(()), AfterBuyer);
  }

  /** The seller element is hydrated as a `Party` and registered under `p1`. */
  lemma SellerStep()
    ensures WellFormed(Classes) && Valid(AfterBuyer)
    ensures HydrateProperty(Coercions, AfterBuyer, 0, InvoiceNode, Invoice.properties[1]) == Step(Ok(()), AfterSeller)
  {
    var env := Coercions;
    var seller := Invoice.properties[1];
    ChildLists();
    HydrateUnfold(env, AfterBuyer, SellerNode, "Party");
    var stS := AfterSeller.(heap := AfterBuyer.heap + [Instance("Party", map[], None, [])]);
    assert Hydrate(env, AfterBuyer, SellerNode, "Party") == Step(Ok(2), stS);
    assert GetChild(InvoiceNode, "Seller") == SellerNode;
    assert AttachComplex(env, AfterBuyer, stS, 0, InvoiceNode, SellerNode, 2, seller) == Step(Ok(()), AfterSeller);
  }

  /** The traversal: the invoice's properties in declaration order. It ends
      with the buyer's reference still pending. */
  lemma Traversal()
    ensures WellFormed(Classes)
    ensures Hydrate(Coercions, State([], map[], []), InvoiceNode, "Invoice") == Step(Ok(0), AfterSeller)
  {
    var env := Coercions;
    BuyerStep();
    SellerStep();
    HydrateUnfold(env, State([], map[], []), InvoiceNode, "Invoice");
    var props := Invoice.properties;
    assert props[..1][..0] == [] && props[..2] == props;
    assert HydrateProperties(env, Allocated, 0, InvoiceNode, props[..1]) == Step(Ok(()), AfterBuyer);
    assert HydrateProperties(env, Allocated, 0, InvoiceNode, props) == Step(Ok(()), AfterSeller);
    assert !HasValue(InvoiceNode, IdKey);
    assert State([], map[], []).(heap := Allocate([], "Invoice")) == Allocated;
  }

  /** The buyer's reference is queued before the seller registers `p1`, and
      still resolves to the seller instance once the finishers run. */
  lemma ForwardReference()
    ensures WellFormed(Classes)
    ensures Hydration(Coercions, [], InvoiceNode, "Invoice") == Outcome(Ok(0), [
      Instance("Invoice", map["buyer" := Ref(1), "seller" := Ref(2)], None, []),
      Instance("PartyRef", map["party" := Ref(2)], None, []),
      Instance("Party", map[], None, [])])
  {
    Traversal();
    assert [Pending][..0] == [];
    var resolved := SetSlot(AfterSeller.heap, 1, "party", Ref(2));
    assert Resolve(AfterSeller.heap, AfterSeller.refs, AfterSeller.queue) == Resolution(Ok(()), resolved);
    assert resolved[1] == Instance("PartyRef", map["party" := Ref(2)], None, []);
    assert resolved == [AfterSeller.heap[0], resolved[1], AfterSeller.heap[2]];
  }
}
