/** The object graph under construction: every allocated instance, by index. */
module Objects {
  import opened Errors
  import opened Document
  import opened Metadata

  /** What a property slot can hold: null, a cast primitive, a date, or another
      object of the graph. */
  datatype Val = Null | PrimVal(prim: Prim) | DateVal(date: Date) | Ref(obj: nat)

  /** An instance: its class, the properties set so far, the text content of a
      simple-content element, and the items of a collection. */
  datatype Instance = Instance(cls: ClassName, slots: map<string, Val>, content: Option<string>, items: seq<nat>)

  type Heap = seq<Instance>

  /** The reflector allocates a fresh instance of `cls` with nothing set. */
  function Allocate(heap: Heap, cls: ClassName): Heap {
    heap + [Instance(cls, map[], None, [])]
  }

  /** `setValue` on property `name` of instance `i`. */
  function SetSlot(heap: Heap, i: nat, name: string, v: Val): Heap
    requires i < |heap|
  {
    heap[i := heap[i].(slots := heap[i].slots[name := v])]
  }

  /** `setContent` on the simple-content element `i`. */
  function SetContent(heap: Heap, i: nat, text: string): Heap
    requires i < |heap|
  {
    heap[i := heap[i].(content := Some(text))]
  }

  /** `add` on the collection `i` (the contract of the collection classes). */
  function AddItem(heap: Heap, i: nat, x: nat): Heap
    requires i < |heap|
  {
    heap[i := heap[i].(items := heap[i].items + [x])]
  }
}
