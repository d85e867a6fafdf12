/**
 The few pieces of Rust's standard library that the generated code relies on:
 `Option`, `Result`, `std::cmp::Ordering` and the total order `Ord::cmp` of `usize`.
 */
module RustStd {

  datatype Option<+T> = None | Some(value: T)

  datatype Result<+T, +E> = Ok(value: T) | Err(error: E)

  /** `std::cmp::Ordering`. */
  datatype Ordering = Less | Equal | Greater {

    /** `Ordering::reverse`: swaps `Less` and `Greater`, keeps `Equal`. */
    function Reverse(): (r: Ordering)
      ensures r.Equal? <==> this.Equal?
      ensures r.Less? <==> this.Greater?
    {
      match this
      case Less => Greater
      case Equal => Equal
      case Greater => Less
    }
  }

  /**
   `<usize as Ord>::cmp`. Indices are modelled as unbounded naturals; every
   index the derivation produces is below the number of variants, so it fits.
   */
  function UsizeCmp(x: nat, y: nat): (o: Ordering)
    ensures o == Less <==> x < y
    ensures o == Equal <==> x == y
    ensures o == Greater <==> y < x
  {
    if x < y then Less else if x == y then Equal else Greater
  }
}
