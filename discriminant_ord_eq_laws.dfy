/**
 What the generated implementation promises: `variant_index` is the
 declaration position of the value's variant and ignores its fields, and the
 generated `PartialEq`, `Eq`, `PartialOrd` and `Ord` obey the laws of those
 traits and order values by declaration position.
 */
module DiscriminantOrdEqLaws {
  import opened RustStd
  import opened Syntax
  import opened DiscriminantOrdEq

  /** The generated match has an arm for every well-typed value of the enum. */
  lemma ExhaustiveMatch<D>(name: string, variants: seq<Variant>, v: Value<D>)
    requires ValueOf(variants, v)
    ensures Covers(ImplDiscriminantOrdEq(name, variants), v)
  {
    var impl := ImplDiscriminantOrdEq(name, variants);
    var i :| 0 <= i < |variants| && variants[i].name == v.variant && Fits(variants[i].fields, v.payload);
    assert Matches(impl.arms[i], v);
  }

  /** `variant_index` of a value of the enum lies in `[0, |variants|)`. */
  lemma IndexInRange<D>(name: string, variants: seq<Variant>, v: Value<D>)
    requires ValueOf(variants, v)
    ensures Covers(ImplDiscriminantOrdEq(name, variants), v)
    ensures VariantIndex(ImplDiscriminantOrdEq(name, variants), v) < |variants|
  {
    ExhaustiveMatch(name, variants, v);
    var impl := ImplDiscriminantOrdEq(name, variants);
    var idx := VariantIndex(impl, v);
    var k :| IsFirstMatch(impl.arms, v, k) && idx == impl.arms[k].index;
  }

  /** A value of the variant declared at position `i` has `variant_index` `i`. */
  lemma IndexIsDeclarationPosition<D>(name: string, variants: seq<Variant>, v: Value<D>, i: nat)
    requires DistinctNames(variants)
    requires i < |variants| && variants[i].name == v.variant
    ensures Covers(ImplDiscriminantOrdEq(name, variants), v)
    ensures VariantIndex(ImplDiscriminantOrdEq(name, variants), v) == i
  {
    var impl := ImplDiscriminantOrdEq(name, variants);
    assert Matches(impl.arms[i], v);
    forall j | 0 <= j < i
      ensures !Matches(impl.arms[j], v)
    {
      assert variants[j].name != variants[i].name;
    }
    assert IsFirstMatch(impl.arms, v, i);
  }

  /**
   `variant_index` reads only which variant a value is: two values of the
   same variant get the same index, whatever their payloads, in any
   implementation.
   */
  lemma IndexIgnoresPayload<D>(impl: Impl, a: Value<D>, b: Value<D>)
    requires Covers(impl, a) && a.variant == b.variant
    ensures Covers(impl, b)
    ensures VariantIndex(impl, a) == VariantIndex(impl, b)
  {
    var idx := VariantIndex(impl, a);
    var k :| IsFirstMatch(impl.arms, a, k) && idx == impl.arms[k].index;
    assert IsFirstMatch(impl.arms, b, k);
  }

  /**
   The generated `eq` holds exactly between values of the same variant: it
   never looks at fields, and values of two different variants are never
   equal, even when both carry no data.
   */
  lemma EqIffSameVariant<D>(name: string, variants: seq<Variant>, a: Value<D>, b: Value<D>)
    requires DistinctNames(variants)
    requires ValueOf(variants, a) && ValueOf(variants, b)
    ensures Covers(ImplDiscriminantOrdEq(name, variants), a)
    ensures Covers(ImplDiscriminantOrdEq(name, variants), b)
    ensures Eq(ImplDiscriminantOrdEq(name, variants), a, b) <==> a.variant == b.variant
  {
    var i :| 0 <= i < |variants| && variants[i].name == a.variant && Fits(variants[i].fields, a.payload);
    var j :| 0 <= j < |variants| && variants[j].name == b.variant && Fits(variants[j].fields, b.payload);
    IndexIsDeclarationPosition(name, variants, a, i);
    IndexIsDeclarationPosition(name, variants, b, j);
    if i != j {
      assert variants[i].name != variants[j].name by {
        if i < j {} else {}
      }
    }
  }

  /**
   The generated `cmp` is the comparison of declaration positions: a value of
   an earlier-declared variant is `Less` than one of a later-declared variant.
   */
  lemma CmpIsDeclarationOrder<D>(name: string, variants: seq<Variant>, a: Value<D>, b: Value<D>, i: nat, j: nat)
    requires DistinctNames(variants)
    requires i < |variants| && variants[i].name == a.variant
    requires j < |variants| && variants[j].name == b.variant
    ensures Covers(ImplDiscriminantOrdEq(name, variants), a)
    ensures Covers(ImplDiscriminantOrdEq(name, variants), b)
    ensures Cmp(ImplDiscriminantOrdEq(name, variants), a, b) == UsizeCmp(i, j)
    ensures i < j ==> Cmp(ImplDiscriminantOrdEq(name, variants), a, b) == Less
  {
    IndexIsDeclarationPosition(name, variants, a, i);
    IndexIsDeclarationPosition(name, variants, b, j);
  }

  /**
   What the macro's output means for an enum with distinct variant names:
   the output exists, its `eq` is "same variant" and its `cmp` and
   `partial_cmp` compare declaration positions.
   */
  lemma DeriveMeaning<D>(input: DeriveInput, a: Value<D>, b: Value<D>, i: nat, j: nat)
    requires input.data.Enum? && DistinctNames(input.data.variants)
    requires ValueOf(input.data.variants, a) && ValueOf(input.data.variants, b)
    requires i < |input.data.variants| && input.data.variants[i].name == a.variant
    requires j < |input.data.variants| && input.data.variants[j].name == b.variant
    ensures DiscriminantOrdEqDerive(input).Ok?
    ensures Covers(DiscriminantOrdEqDerive(input).value, a)
    ensures Covers(DiscriminantOrdEqDerive(input).value, b)
    ensures Eq(DiscriminantOrdEqDerive(input).value, a, b) <==> a.variant == b.variant
    ensures Cmp(DiscriminantOrdEqDerive(input).value, a, b) == UsizeCmp(i, j)
    ensures PartialCmp(DiscriminantOrdEqDerive(input).value, a, b) == Some(UsizeCmp(i, j))
  {
    assert DiscriminantOrdEqDerive(input).value == ImplDiscriminantOrdEq(input.ident, input.data.variants);
    EqIffSameVariant(input.ident, input.data.variants, a, b);
    CmpIsDeclarationOrder(input.ident, input.data.variants, a, b, i, j);
  }

  // The laws of the four traits, for any implementation and any values its
  // match covers.

  /** `Ord::cmp` and `PartialOrd::partial_cmp` agree: `partial_cmp` is never `None`. */
  lemma PartialCmpIsSomeCmp<D>(impl: Impl, a: Value<D>, b: Value<D>)
    requires Covers(impl, a) && Covers(impl, b)
    ensures PartialCmp(impl, a, b) == Some(Cmp(impl, a, b))
    ensures PartialCmp(impl, a, b) != None
  {
  }

  /** `Eq`: `eq` is reflexive. */
  lemma EqReflexive<D>(impl: Impl, a: Value<D>)
    requires Covers(impl, a)
    ensures Eq(impl, a, a)
  {
  }

  /** `PartialEq`: `eq` is symmetric. */
  lemma EqSymmetric<D>(impl: Impl, a: Value<D>, b: Value<D>)
    requires Covers(impl, a) && Covers(impl, b)
    ensures Eq(impl, a, b) == Eq(impl, b, a)
  {
  }

  /** `PartialEq`: `eq` is transitive. */
  lemma EqTransitive<D>(impl: Impl)
    ensures forall a: Value<D>, b: Value<D>, c: Value<D> ::
              Covers(impl, a) && Covers(impl, b) && Covers(impl, c) && Eq(impl, a, b) && Eq(impl, b, c) ==>
              Eq(impl, a, c)
  {
  }

  /** `Ord`: `eq` agrees with `cmp`, and so with `partial_cmp`. */
  lemma EqIffCmpEqual<D>(impl: Impl, a: Value<D>, b: Value<D>)
    requires Covers(impl, a) && Covers(impl, b)
    ensures Eq(impl, a, b) <==> Cmp(impl, a, b) == Equal
    ensures Eq(impl, a, b) <==> PartialCmp(impl, a, b) == Some(Equal)
  {
  }

  /** `Ord`: comparing the other way round gives the reversed ordering. */
  lemma CmpAntisymmetric<D>(impl: Impl, a: Value<D>, b: Value<D>)
    requires Covers(impl, a) && Covers(impl, b)
    ensures Cmp(impl, a, b) == Cmp(impl, b, a).Reverse()
  {
  }

  /** `Ord`: `cmp` is transitive, for each of the three orderings. */
  lemma CmpTransitive<D>(impl: Impl)
    ensures forall a: Value<D>, b: Value<D>, c: Value<D> ::
              Covers(impl, a) && Covers(impl, b) && Covers(impl, c) && Cmp(impl, a, b) == Cmp(impl, b, c) ==>
              Cmp(impl, a, c) == Cmp(impl, a, b)
  {
  }

  /** The order is total: exactly one of `a < b`, `a == b`, `b < a` holds. */
  lemma Trichotomy<D>(impl: Impl, a: Value<D>, b: Value<D>)
    requires Covers(impl, a) && Covers(impl, b)
    ensures Lt(impl, a, b) || Eq(impl, a, b) || Lt(impl, b, a)
    ensures !(Lt(impl, a, b) && Eq(impl, a, b))
    ensures !(Lt(impl, b, a) && Eq(impl, a, b))
    ensures !(Lt(impl, a, b) && Lt(impl, b, a))
  {
  }

  // Reordering the declaration.

  /** The variants with the ones at positions `i` and `j` exchanged. */
  function Swap(variants: seq<Variant>, i: nat, j: nat): (swapped: seq<Variant>)
    requires i < |variants| && j < |variants|
    ensures |swapped| == |variants|
    ensures swapped[i] == variants[j] && swapped[j] == variants[i]
    ensures forall k :: 0 <= k < |variants| && k != i && k != j ==> swapped[k] == variants[k]
  {
    variants[i := variants[j]][j := variants[i]]
  }

  lemma SwapKeepsDistinctNames(variants: seq<Variant>, i: nat, j: nat)
    requires DistinctNames(variants) && i < |variants| && j < |variants|
    ensures DistinctNames(Swap(variants, i, j))
  {
    var s := Swap(variants, i, j);
    forall p, q | 0 <= p < q < |s|
      ensures s[p].name != s[q].name
    {
      var p' := if p == i then j else if p == j then i else p;
      var q' := if q == i then j else if q == j then i else q;
      assert s[p] == variants[p'] && s[q] == variants[q'];
      if p' < q' {} else { assert q' < p'; }
    }
  }

  /**
   Order depends only on declaration position: exchanging two variants in
   the declaration flips the comparison between their values, and a value of
   any other variant keeps its index.
   */
  lemma SwapFlipsOrder<D>(name: string, variants: seq<Variant>, i: nat, j: nat, a: Value<D>, b: Value<D>)
    requires DistinctNames(variants) && i < j < |variants|
    requires a.variant == variants[i].name && b.variant == variants[j].name
    ensures Covers(ImplDiscriminantOrdEq(name, variants), a)
    ensures Covers(ImplDiscriminantOrdEq(name, variants), b)
    ensures Covers(ImplDiscriminantOrdEq(name, Swap(variants, i, j)), a)
    ensures Covers(ImplDiscriminantOrdEq(name, Swap(variants, i, j)), b)
    ensures Cmp(ImplDiscriminantOrdEq(name, variants), a, b) == Less
    ensures Cmp(ImplDiscriminantOrdEq(name, Swap(variants, i, j)), a, b) == Greater
  {
    var s := Swap(variants, i, j);
    SwapKeepsDistinctNames(variants, i, j);
    CmpIsDeclarationOrder(name, variants, a, b, i, j);
    CmpIsDeclarationOrder(name, s, a, b, j, i);
  }

  lemma SwapKeepsOtherIndices<D>(name: string, variants: seq<Variant>, i: nat, j: nat, c: Value<D>, k: nat)
    requires DistinctNames(variants) && i < |variants| && j < |variants|
    requires k < |variants| && k != i && k != j && c.variant == variants[k].name
    ensures Covers(ImplDiscriminantOrdEq(name, variants), c)
    ensures Covers(ImplDiscriminantOrdEq(name, Swap(variants, i, j)), c)
    ensures VariantIndex(ImplDiscriminantOrdEq(name, variants), c) == k
    ensures VariantIndex(ImplDiscriminantOrdEq(name, Swap(variants, i, j)), c) == k
  {
    SwapKeepsDistinctNames(variants, i, j);
    IndexIsDeclarationPosition(name, variants, c, k);
    IndexIsDeclarationPosition(name, Swap(variants, i, j), c, k);
  }

  // A mixed-shape enum: `enum Status { Idle, Running(u32), Failed { code: u32, msg: String } }`.

  datatype Field = U32(n: nat) | Text(s: string)

  /**
   Unit, tuple and named variants are dispatched alike: `Running(1)` equals
   `Running(999)`, and `Idle` < `Running(_)` < `Failed { .. }`.
   */
  lemma MixedShapes()
    ensures
      var variants := [Variant("Idle", Unit), Variant("Running", Unnamed(1)), Variant("Failed", Named(["code", "msg"]))];
      var impl := ImplDiscriminantOrdEq("Status", variants);
      var idle: Value<Field> := Value("Idle", NoFields);
      var running1: Value<Field> := Value("Running", Tuple([U32(1)]));
      var running999: Value<Field> := Value("Running", Tuple([U32(999)]));
      var failed: Value<Field> := Value("Failed", Record([NamedField("code", U32(2)), NamedField("msg", Text("boom"))]));
      && ValueOf(variants, idle) && ValueOf(variants, running1) && ValueOf(variants, running999) && ValueOf(variants, failed)
      && Covers(impl, idle) && Covers(impl, running1) && Covers(impl, running999) && Covers(impl, failed)
      && Eq(impl, running1, running999)
      && !Eq(impl, idle, running1)
      && Cmp(impl, idle, running1) == Less
      && Cmp(impl, running999, failed) == Less
      && Cmp(impl, failed, idle) == Greater
  {
    var variants := [Variant("Idle", Unit), Variant("Running", Unnamed(1)), Variant("Failed", Named(["code", "msg"]))];
    var idle: Value<Field> := Value("Idle", NoFields);
    var running1: Value<Field> := Value("Running", Tuple([U32(1)]));
    var running999: Value<Field> := Value("Running", Tuple([U32(999)]));
    var failed: Value<Field> := Value("Failed", Record([NamedField("code", U32(2)), NamedField("msg", Text("boom"))]));
    assert Fits(variants[0].fields, idle.payload);
    assert Fits(variants[1].fields, running1.payload) && Fits(variants[1].fields, running999.payload);
    assert Fits(variants[2].fields, failed.payload);
    assert "Idle"[0] != "Running"[0] && "Idle"[0] != "Failed"[0] && "Running"[0] != "Failed"[0];
    assert DistinctNames(variants);
    IndexIsDeclarationPosition("Status", variants, idle, 0);
    IndexIsDeclarationPosition("Status", variants, running1, 1);
    IndexIsDeclarationPosition("Status", variants, running999, 1);
    IndexIsDeclarationPosition("Status", variants, failed, 2);
  }
}
