# DiscriminantOrdEq, modelled in Dafny

`#[derive(DiscriminantOrdEq)]` is a Rust procedural macro. For an enum it
generates `PartialEq`, `Eq`, `PartialOrd` and `Ord` implementations that
compare values only by *which* variant they are, never by the data they carry,
together with a `variant_index` method that gives the 0-based declaration
position of a value's variant. Applied to anything that is not an enum, the
macro panics and produces no code.

This project models that derivation with the token plumbing (`syn`, `quote`)
taken away: a parsed item goes in, a generated implementation comes out, and
the generated methods are functions over it.

- `rust_std.dfy` (module `RustStd`): `Option`, `Result`, `std::cmp::Ordering`
  with `reverse`, and `usize`'s `cmp`.
- `syntax.dfy` (module `Syntax`): the parsed item (`DeriveInput`, `Data`,
  `Variant`, `Fields` with the shapes unit / unnamed(n) / named(names)), and the
  run-time values of an enum type: a variant name plus a payload whose field
  contents have an opaque type `D` without equality, so nothing can read them.
- `discriminant_ord_eq.dfy` (module `DiscriminantOrdEq`): the macro.
  `DiscriminantOrdEqDerive` is the entry point, `ImplDiscriminantOrdEq` and
  `EnumerateArms` build the match arms `#name::#variant { .. } => #index`,
  `Dispatch` is Rust's first-matching-arm `match`, and `VariantIndex`, `Eq`,
  `PartialCmp` and `Cmp` are the generated methods. `Lt` is `PartialOrd::lt`,
  the standard library's provided method over `partial_cmp`, which the macro
  does not emit.
- `discriminant_ord_eq_laws.dfy` (module `DiscriminantOrdEqLaws`): what the
  generated code promises, as lemmas.

Two facts the model takes from the Rust compiler, not from the macro: every
value of the enum is built from one of its variants (`ValueOf`), and an enum
never declares the same variant name twice (`DistinctNames`). The macro checks
neither; the lemmas that need them say so in their `requires`.

## Model

| member | source | states |
|---|---|---|
| DiscriminantOrdEq.EnumerateArms | src/lib.rs:33-42 | one arm per variant, in declaration order; the arm for the variant at position i matches that variant's name and yields start + i |
| DiscriminantOrdEq.ImplDiscriminantOrdEq | src/lib.rs:31-42 | the generated implementation is bound to the type's name and has exactly one arm per variant, arm i for variant i yielding i |
| DiscriminantOrdEq.DiscriminantOrdEqDerive | src/lib.rs:11-29 | output exists iff the item is an enum; otherwise the result is the panic with its message; for an enum the arms are one per variant yielding its position |
| DiscriminantOrdEq.Dispatch | src/lib.rs:82-84 | the match yields the index of the first arm whose pattern accepts the value, and nothing exactly when no arm accepts it |
| DiscriminantOrdEq.VariantIndex | src/lib.rs:80-86 | `variant_index` is the index carried by the first arm that accepts the value |
| DiscriminantOrdEq.Eq | src/lib.rs:46-52 | `eq` holds between any two values of the same variant; both directions, "eq iff same variant", are EqIffSameVariant, and the `PartialEq`/`Eq` laws are EqReflexive, EqSymmetric, EqTransitive |
| DiscriminantOrdEq.PartialCmp | src/lib.rs:57-64 | `partial_cmp` is never `None` and is `Some(Equal)` between values of the same variant; that it is `Some(cmp)` is PartialCmpIsSomeCmp |
| DiscriminantOrdEq.Cmp | src/lib.rs:66-73 | `cmp` is Equal exactly when `eq` holds, so between any two values of the same variant; that it compares declaration positions is CmpIsDeclarationOrder, its `Ord` laws CmpAntisymmetric, CmpTransitive, Trichotomy |
| DiscriminantOrdEq.Lt | src/lib.rs:57-64 | `lt`, taken from `partial_cmp`, holds exactly when `cmp` is Less |
| DiscriminantOrdEqLaws.ExhaustiveMatch | src/lib.rs:33-42 | the generated match has an arm for every well-typed value of the enum |
| DiscriminantOrdEqLaws.IndexInRange | src/lib.rs:33-42 | `variant_index` of any value of the enum is below the number of variants |
| DiscriminantOrdEqLaws.IndexIsDeclarationPosition | src/lib.rs:36-40 | a value of the variant declared at position i has `variant_index` i |
| DiscriminantOrdEqLaws.IndexIgnoresPayload | src/lib.rs:39-41 | two values of the same variant have the same index whatever their payloads, since `{ .. }` ignores the fields |
| DiscriminantOrdEqLaws.EqIffSameVariant | src/lib.rs:46-52 | `eq` holds iff both values are of the same variant; different variants are never equal, unit variants included |
| DiscriminantOrdEqLaws.CmpIsDeclarationOrder | src/lib.rs:66-72 | `cmp` is the `usize` comparison of the two declaration positions; an earlier variant is Less than a later one |
| DiscriminantOrdEqLaws.DeriveMeaning | src/lib.rs:19-25 | for an enum the macro's output exists and its `eq`, `cmp` and `partial_cmp` are "same variant" and the comparison of positions |
| DiscriminantOrdEqLaws.PartialCmpIsSomeCmp | src/lib.rs:57-64 | `partial_cmp` is always `Some(cmp)`, never `None` |
| DiscriminantOrdEqLaws.EqReflexive | src/lib.rs:55 | `eq` is reflexive, as `Eq` requires |
| DiscriminantOrdEqLaws.EqSymmetric | src/lib.rs:46-52 | `eq` is symmetric |
| DiscriminantOrdEqLaws.EqTransitive | src/lib.rs:46-52 | `eq` is transitive |
| DiscriminantOrdEqLaws.EqIffCmpEqual | src/lib.rs:46-73 | `eq` holds iff `cmp` is Equal iff `partial_cmp` is `Some(Equal)` |
| DiscriminantOrdEqLaws.CmpAntisymmetric | src/lib.rs:66-73 | `cmp(a, b)` is the reverse of `cmp(b, a)` |
| DiscriminantOrdEqLaws.CmpTransitive | src/lib.rs:66-73 | `cmp` is transitive for each of Less, Equal and Greater |
| DiscriminantOrdEqLaws.Trichotomy | src/lib.rs:57-73 | exactly one of a < b, a == b, b < a holds |
| DiscriminantOrdEqLaws.SwapFlipsOrder | src/lib.rs:36-40 | exchanging variants i < j in the declaration turns Less between their values into Greater |
| DiscriminantOrdEqLaws.SwapKeepsOtherIndices | src/lib.rs:36-40 | exchanging variants i and j leaves the index of every other variant's values unchanged |
| DiscriminantOrdEqLaws.MixedShapes | src/lib.rs:39-41 | in an enum with a unit, a tuple and a named variant, `Running(1)` equals `Running(999)` and Idle < Running < Failed |

## Left out

- Token parsing (`parse_macro_input!` into `DeriveInput`) and emission (`quote!`, the conversion to `TokenStream`): foreign library code over syntax trees; the model takes the parsed item and returns the implementation as a value.
- The declaration of the `VariantIndex` trait itself (src/lib.rs:75-78): it only names the method; where it is declared is a build concern, not logic.
- The panic is modelled as an error result; the macro's abort of compilation is not modelled.
- The type name is carried in the implementation but plays no part in any comparison.
- Generic parameters of the enum are not modelled: the macro writes `impl PartialEq for #name` without them (src/lib.rs:46), so for a generic enum the generated code does not compile.
- Explicit discriminants (`enum E { A = 10, B = 1 }`) are not modelled, because the macro never reads them: the order is by declaration position, not by discriminant value, so here A < B, although the macro's doc comment (src/lib.rs:7-8) speaks of discriminants.
- `usize` width: indices are unbounded naturals; every index produced is below the number of variants, so no wrap-around can occur.
- Rejection of duplicate variant names and the exhaustiveness of the generated match are left to the Rust compiler, as the macro does; the model states them as `DistinctNames` and `ValueOf`.
- No rejection of an enum with zero variants: the macro emits an empty match and `ImplDiscriminantOrdEq` yields an implementation without arms. Whether the Rust compiler accepts that empty `match self {}` on `&Self` is outside the model and unverified here; it is expected to reject it as non-exhaustive.
- The macro derives no `Hash`, so the model has none.
