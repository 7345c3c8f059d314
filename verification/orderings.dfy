/** Rust's `std::cmp::Ordering` and the comparison of two `u8` discriminants
    that both event modules use for `Ord::cmp`. */
module Orderings {

  datatype Ordering = Less | Equal | Greater

  /** The ordering seen from the other side: `Ordering::reverse`. */
  function Reverse(o: Ordering): Ordering
  {
    match o
    case Less => Greater
    case Equal => Equal
    case Greater => Less
  }

  /** `u8::cmp` on two discriminants. */
  function CmpNat(a: nat, b: nat): (o: Ordering)
    ensures o == Less <==> a < b
    ensures o == Equal <==> a == b
    ensures o == Greater <==> b < a
  {
    if a < b then Less else if a == b then Equal else Greater
  }

  /** Comparing in the other direction yields the reversed ordering. */
  lemma CmpNatAntisymmetric(a: nat, b: nat)
    ensures CmpNat(b, a) == Reverse(CmpNat(a, b))
  {
  }

}
