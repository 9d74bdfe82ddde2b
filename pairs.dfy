/** Pair: the immutable two-component value `Pair.of` builds, used as a
    map key by the file generator. */
module Pairs {

  /** The value behind `Pair.of(first, second)`; its `equals` compares the
      components, so structural equality is the right model. */
  datatype Pair<A, B> = Pair(first: A, second: B)

  /** `Pair.of(first, second)`. */
  function Of<A, B>(first: A, second: B): (p: Pair<A, B>)
    ensures GetFirst(p) == first && GetSecond(p) == second
  {
    Pair(first, second)
  }

  /** `getFirst()`. */
  function GetFirst<A, B>(p: Pair<A, B>): A {
    p.first
  }

  /** `getSecond()`. */
  function GetSecond<A, B>(p: Pair<A, B>): B {
    p.second
  }

  /** `equals(o)` on two pairs: `Objects.equals` on each component. */
  function Equals<A(==), B(==)>(p: Pair<A, B>, q: Pair<A, B>): (r: bool)
    ensures r <==> p == q
  {
    GetFirst(p) == GetFirst(q) && GetSecond(p) == GetSecond(q)
  }

  /** Equality of pairs is reflexive, symmetric and transitive. */
  lemma EqualsIsEquivalence<A, B>(p: Pair<A, B>, q: Pair<A, B>, s: Pair<A, B>)
    ensures Equals(p, p)
    ensures Equals(p, q) == Equals(q, p)
    ensures Equals(p, q) && Equals(q, s) ==> Equals(p, s)
  {
  }

  /** Java `int` arithmetic: the result of a computation on ints, wrapped to 32 bits. */
  function WrapInt32(x: int): (r: int)
    ensures -0x8000_0000 <= r < 0x8000_0000
    ensures (r - x) % 0x1_0000_0000 == 0
  {
    (x + 0x8000_0000) % 0x1_0000_0000 - 0x8000_0000
  }

  /** `hashCode()`: `Objects.hash(first, second)`, that is
      `31 * (31 * 1 + h(first)) + h(second)` in int arithmetic, given the
      components' own hash codes. */
  function HashCode<A, B>(p: Pair<A, B>, hashA: A -> int, hashB: B -> int): (h: int)
    ensures -0x8000_0000 <= h < 0x8000_0000
    ensures (h - (31 * (31 + hashA(p.first)) + hashB(p.second))) % 0x1_0000_0000 == 0
  {
    WrapInt32(31 * (31 + hashA(p.first)) + hashB(p.second))
  }

  /** Equal pairs hash equally, which is what makes them usable as map keys. */
  lemma EqualPairsHashEqually<A, B>(p: Pair<A, B>, q: Pair<A, B>, hashA: A -> int, hashB: B -> int)
    requires Equals(p, q)
    ensures HashCode(p, hashA, hashB) == HashCode(q, hashA, hashB)
  {
  }

  /** Two pairs whose second components differ are different keys. */
  lemma DifferentSecondsDifferentPairs<A, B>(p: Pair<A, B>, q: Pair<A, B>)
    requires GetSecond(p) != GetSecond(q)
    ensures !Equals(p, q)
  {
  }

  /** `toString()`: `Pair{first=<first>, second=<second>}`, given how each
      component renders itself. */
  function ToString<A, B>(p: Pair<A, B>, showA: A -> string, showB: B -> string): (s: string)
    ensures |s| == 21 + |showA(p.first)| + |showB(p.second)|
    ensures s[..11] == "Pair{first=" && s[|s| - 1] == '}'
    ensures s[11..11 + |showA(p.first)|] == showA(p.first)
    ensures s[11 + |showA(p.first)|..20 + |showA(p.first)|] == ", second="
    ensures s[20 + |showA(p.first)|..|s| - 1] == showB(p.second)
  {
    "Pair{first=" + showA(p.first) + ", second=" + showB(p.second) + "}"
  }
}
