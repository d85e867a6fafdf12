/**
 The `DiscriminantOrdEq` derive macro, with token parsing and code emission
 taken away: from an enum's ordered list of variants it builds the
 `variant_index` dispatch, and the generated `PartialEq`, `Eq`, `PartialOrd`
 and `Ord` implementations compare nothing but that index.
 */
module DiscriminantOrdEq {
  import opened RustStd
  import opened Syntax

  /** The panic raised for anything that is not an enum. */
  const NOT_AN_ENUM_MESSAGE := "#[derive(DiscriminantOrdEq)] is only defined for enums."

  datatype Error = Panic(message: string)

  /** One generated match arm, `#name::#variant { .. } => #index`. */
  datatype Arm = Arm(variant: string, index: nat)

  /**
   The generated implementation: the type it is bound to and the body of its
   `variant_index` match. The four comparison traits are the functions below,
   each a single expression over `variant_index`.
   */
  datatype Impl = Impl(typeName: string, arms: seq<Arm>)

  /**
   `variants.iter().enumerate().map(..)`, with the enumeration starting at
   `start`: one arm per variant, in declaration order, the arm for the
   variant at position `i` yielding `start + i`.
   */
  function EnumerateArms(variants: seq<Variant>, start: nat): (arms: seq<Arm>)
    ensures |arms| == |variants|
    ensures forall i :: 0 <= i < |variants| ==> arms[i] == Arm(variants[i].name, start + i)
    decreases |variants|
  {
    if variants == [] then []
    else [Arm(variants[0].name, start)] + EnumerateArms(variants[1..], start + 1)
  }

  /** `impl_discriminant_ord_eq`: the implementation generated for an enum. */
  function ImplDiscriminantOrdEq(name: string, variants: seq<Variant>): (impl: Impl)
    ensures impl.typeName == name
    ensures |impl.arms| == |variants|
    ensures forall i :: 0 <= i < |variants| ==> impl.arms[i].variant == variants[i].name && impl.arms[i].index == i
  {
    Impl(name, EnumerateArms(variants, 0))
  }

  /**
   `discriminant_ord_eq_derive`: an enum gets its implementation, anything
   else makes the macro panic and produce no output at all.
   */
  function DiscriminantOrdEqDerive(input: DeriveInput): (r: Result<Impl, Error>)
    ensures r.Ok? <==> input.data.Enum?
    ensures r.Err? ==> r.error == Panic(NOT_AN_ENUM_MESSAGE)
    ensures r.Ok? ==> r.value.typeName == input.ident && |r.value.arms| == |input.data.variants|
    ensures r.Ok? ==> forall i :: 0 <= i < |input.data.variants| ==>
                        r.value.arms[i].variant == input.data.variants[i].name && r.value.arms[i].index == i
  {
    match input.data
    case Enum(variants) => Ok(ImplDiscriminantOrdEq(input.ident, variants))
    case _ => Err(Panic(NOT_AN_ENUM_MESSAGE))
  }

  /** The pattern `#name::#variant { .. }` accepts every payload of that variant. */
  predicate Matches<D>(arm: Arm, v: Value<D>)
  {
    arm.variant == v.variant
  }

  /** Arm `k` is the first arm whose pattern accepts `v`. */
  predicate IsFirstMatch<D>(arms: seq<Arm>, v: Value<D>, k: int)
  {
    && 0 <= k < |arms|
    && Matches(arms[k], v)
    && forall j :: 0 <= j < k ==> !Matches(arms[j], v)
  }

  /**
   A Rust `match` over the arms: the value of the first arm whose pattern
   accepts `v`, `None` when no arm does.
   */
  function Dispatch<D>(arms: seq<Arm>, v: Value<D>): (r: Option<nat>)
    ensures r.None? <==> forall k :: 0 <= k < |arms| ==> !Matches(arms[k], v)
    ensures forall k :: IsFirstMatch(arms, v, k) ==> r == Some(arms[k].index)
    ensures r.Some? ==> exists k :: IsFirstMatch(arms, v, k) && r.value == arms[k].index
    decreases |arms|
  {
    if arms == [] then None
    else if Matches(arms[0], v) then
      assert IsFirstMatch(arms, v, 0);
      Some(arms[0].index)
    else
      var rest := Dispatch(arms[1..], v);
      assert forall k :: IsFirstMatch(arms, v, k) ==> k > 0 && IsFirstMatch(arms[1..], v, k - 1);
      assert forall k :: IsFirstMatch(arms[1..], v, k) ==> IsFirstMatch(arms, v, k + 1);
      rest
  }

  /**
   The match is exhaustive for `v`: some arm accepts it (by the contract of
   `Dispatch`, this is the same as `Dispatch` yielding a value).
   */
  predicate Covers<D>(impl: Impl, v: Value<D>)
  {
    Dispatch(impl.arms, v).Some?
  }

  /** The generated `variant_index`: the match over the arms. */
  function VariantIndex<D>(impl: Impl, v: Value<D>): (idx: nat)
    requires Covers(impl, v)
    ensures exists k :: IsFirstMatch(impl.arms, v, k) && idx == impl.arms[k].index
  {
    Dispatch(impl.arms, v).value
  }

  /**
   The generated `PartialEq::eq`: two values of the same variant are always
   equal, whatever their payloads.
   */
  function Eq<D>(impl: Impl, a: Value<D>, b: Value<D>): (r: bool)
    requires Covers(impl, a) && Covers(impl, b)
    ensures a.variant == b.variant ==> r
  {
    VariantIndex(impl, a) == VariantIndex(impl, b)
  }

  /**
   The generated `PartialOrd::partial_cmp`: never `None`, and `Some(Equal)`
   between values of the same variant.
   */
  function PartialCmp<D>(impl: Impl, a: Value<D>, b: Value<D>): (r: Option<Ordering>)
    requires Covers(impl, a) && Covers(impl, b)
    ensures r.Some?
    ensures a.variant == b.variant ==> r == Some(Equal)
  {
    Some(UsizeCmp(VariantIndex(impl, a), VariantIndex(impl, b)))
  }

  /**
   The generated `Ord::cmp`: `Equal` exactly when `eq` holds, and so
   between any two values of the same variant.
   */
  function Cmp<D>(impl: Impl, a: Value<D>, b: Value<D>): (r: Ordering)
    requires Covers(impl, a) && Covers(impl, b)
    ensures r == Equal <==> Eq(impl, a, b)
    ensures a.variant == b.variant ==> r == Equal
  {
    UsizeCmp(VariantIndex(impl, a), VariantIndex(impl, b))
  }

  /**
   `PartialOrd::lt`, the trait's provided method over `partial_cmp` (the
   macro does not emit it): `a < b` exactly when `cmp` is `Less`.
   */
  function Lt<D>(impl: Impl, a: Value<D>, b: Value<D>): (r: bool)
    requires Covers(impl, a) && Covers(impl, b)
    ensures r <==> Cmp(impl, a, b) == Less
  {
    PartialCmp(impl, a, b) == Some(Less)
  }
}
