/** NullUtils: exclusive-or over the null-ness of two references. */
module NullUtils {
  import opened Wrappers

  /** `xor(a, b)`: true when exactly one of the two references is null. */
  function Xor<A, B>(a: Option<A>, b: Option<B>): (r: bool)
    ensures r <==> (a.None? && b.Some?) || (a.Some? && b.None?)
  {
    a.None? != b.None?
  }

  /** `exactlyOneNull(a, b)`: the same test under a more explicit name. */
  function ExactlyOneNull<A, B>(a: Option<A>, b: Option<B>): (r: bool)
    ensures r == Xor(a, b)
    ensures r <==> (a.None? <==> b.Some?)
  {
    Xor(a, b)
  }

  /** The test does not depend on the order of its arguments. */
  lemma XorSymmetric<A, B>(a: Option<A>, b: Option<B>)
    ensures Xor(a, b) == Xor(b, a)
  {
  }

  /** Two nulls and two non-null references both give false. */
  lemma XorFalseOnBothOrNeither<A, B>(a: Option<A>, b: Option<B>)
    ensures a.None? && b.None? ==> !Xor(a, b)
    ensures a.Some? && b.Some? ==> !Xor(a, b)
  {
  }
}
