/** Binding metadata: what the reflector reports about each target class. */
module Metadata {

  type ClassName = string

  /** The declared type a primitive property is cast to. */
  datatype PrimType = StringType | IntType | FloatType | BoolType

  /** How a property is hydrated. The first four are the kinds of a mapped
      property, tried in this order by the engine; a reference property is
      resolved after the traversal. */
  datatype Kind =
    | Primitive(primType: PrimType)
    | DateKind
    | SimpleContent(cls: ClassName)
    | Complex(cls: ClassName)
    | Reference

  /** A bindable property: its name on the object, the key it is read from in
      the document, whether it may be null, and its kind. */
  datatype Property = Property(name: string, key: string, nullable: bool, kind: Kind)

  /** A class is a plain object, a simple-content element (a typed text value
      that also carries attributes), or a collection whose items are the child
      elements named `itemKey`, each hydrated as `itemClass`. */
  datatype ClassKind = Plain | SimpleContentElement | Collection(itemKey: string, itemClass: ClassName)

  datatype ClassMeta = ClassMeta(kind: ClassKind, properties: seq<Property>)

  /** The reflector: the metadata of every class it knows. */
  type Schema = map<ClassName, ClassMeta>

  /** Every class a property names is known to the reflector. */
  predicate PropertyTargets(schema: Schema, p: Property) {
    match p.kind
    case SimpleContent(c) => c in schema
    case Complex(c) => c in schema
    case _ => true
  }

  /** Property names of a class are distinct (they are the names of its fields). */
  predicate DistinctNames(props: seq<Property>) {
    forall i, j :: 0 <= i < j < |props| ==> props[i].name != props[j].name
  }

  predicate ClassWellFormed(schema: Schema, m: ClassMeta) {
    && (m.kind.Collection? ==> m.kind.itemClass in schema)
    && (forall p :: p in m.properties ==> PropertyTargets(schema, p))
    && DistinctNames(m.properties)
  }

  /** Class declarations only name classes that exist. */
  predicate WellFormed(schema: Schema) {
    forall c :: c in schema ==> ClassWellFormed(schema, schema[c])
  }
}
