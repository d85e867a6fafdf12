/**
 What the derive macro is given: the parsed item (`syn::DeriveInput`) reduced
 to the parts the derivation reads, and the run-time values of an enum type
 that such an item declares.
 */
module Syntax {

  /** `syn::Fields`: the shape of the data a variant (or struct) carries. */
  datatype Fields = Unit | Unnamed(arity: nat) | Named(names: seq<string>)

  /** `syn::Variant`: a variant's identifier and its field shape. */
  datatype Variant = Variant(name: string, fields: Fields)

  /** `syn::Data`: the body of the item the derive is attached to. */
  datatype Data =
    | Enum(variants: seq<Variant>)
    | Struct(fields: Fields)
    | Union(names: seq<string>)

  /** `syn::DeriveInput`: the item's identifier and body. */
  datatype DeriveInput = DeriveInput(ident: string, data: Data)

  /**
   The Rust compiler rejects an enum that declares two variants with the same
   identifier; every enum that reaches run time satisfies this.
   */
  predicate DistinctNames(variants: seq<Variant>)
  {
    forall i, j :: 0 <= i < j < |variants| ==> variants[i].name != variants[j].name
  }

  /** A named field of a value: its identifier and its (never inspected) content. */
  datatype NamedField<D> = NamedField(name: string, content: D)

  /**
   The data a value carries. `D` stands for the field contents; it has no
   equality, so nothing defined over values can look inside a field.
   */
  datatype Payload<D> =
    | NoFields
    | Tuple(items: seq<D>)
    | Record(fields: seq<NamedField<D>>)

  /** A value of the enum type: the variant it was built from and its payload. */
  datatype Value<D> = Value(variant: string, payload: Payload<D>)

  /** The payload has the layout that the field shape declares. */
  predicate Fits<D>(fields: Fields, payload: Payload<D>)
  {
    match fields
    case Unit => payload.NoFields?
    case Unnamed(n) => payload.Tuple? && |payload.items| == n
    case Named(names) =>
      && payload.Record?
      && |payload.fields| == |names|
      && forall k :: 0 <= k < |names| ==> payload.fields[k].name == names[k]
  }

  /** `v` is a well-typed value of the enum whose variants are `variants`. */
  predicate ValueOf<D>(variants: seq<Variant>, v: Value<D>)
  {
    exists i :: 0 <= i < |variants| && variants[i].name == v.variant && Fits(variants[i].fields, v.payload)
  }
}
