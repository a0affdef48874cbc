/** Commutative rings as values, so that one proof serves every exact arithmetic. */
module Rings {

  datatype Ring<!T> = Ring(zero: T, one: T, add: (T, T) -> T, neg: T -> T, mul: (T, T) -> T)

  /** Marks the elements at which a law is wanted; it keeps the quantifier below from firing elsewhere. */
  predicate At<T>(a: T, b: T, c: T) {
    true
  }

  ghost predicate Lawful<T(!new)>(r: Ring<T>) {
    forall a: T, b: T, c: T {:trigger At(a, b, c)} :: LawsAt(r, a, b, c)
  }

  ghost predicate LawsAt<T>(r: Ring<T>, a: T, b: T, c: T) {
    && r.add(a, r.add(b, c)) == r.add(r.add(a, b), c)
    && r.add(a, b) == r.add(b, a)
    && r.add(a, r.zero) == a
    && r.add(a, r.neg(a)) == r.zero
    && r.mul(a, r.mul(b, c)) == r.mul(r.mul(a, b), c)
    && r.mul(a, b) == r.mul(b, a)
    && r.mul(a, r.one) == a
    && r.mul(a, r.add(b, c)) == r.add(r.mul(a, b), r.mul(a, c))
  }

  lemma Laws<T(!new)>(r: Ring<T>, a: T, b: T, c: T)
    requires Lawful(r)
    ensures LawsAt(r, a, b, c)
  {
    assert At(a, b, c);
  }

  lemma AddCancels<T(!new)>(r: Ring<T>, a: T, b: T)
    requires Lawful(r) && r.add(a, b) == a
    ensures b == r.zero
  {
    Laws(r, r.neg(a), a, b);
    Laws(r, a, r.neg(a), b);
    Laws(r, b, r.zero, b);
    Laws(r, r.zero, b, b);
  }

  lemma MulZero<T(!new)>(r: Ring<T>, a: T)
    requires Lawful(r)
    ensures r.mul(a, r.zero) == r.zero
  {
    Laws(r, a, r.zero, r.zero);
    Laws(r, r.zero, r.zero, r.zero);
    AddCancels(r, r.mul(a, r.zero), r.mul(a, r.zero));
  }

  /** The negation is the only element that cancels. */
  lemma NegUnique<T(!new)>(r: Ring<T>, a: T, b: T)
    requires Lawful(r) && r.add(a, b) == r.zero
    ensures b == r.neg(a)
  {
    Laws(r, r.neg(a), a, b);
    Laws(r, a, r.neg(a), b);
    Laws(r, b, r.zero, b);
    Laws(r, r.zero, b, b);
    Laws(r, r.neg(a), r.zero, a);
  }

  lemma MulNeg<T(!new)>(r: Ring<T>, a: T, b: T)
    requires Lawful(r)
    ensures r.mul(a, r.neg(b)) == r.neg(r.mul(a, b))
    ensures r.mul(r.neg(b), a) == r.neg(r.mul(a, b))
  {
    Laws(r, a, b, r.neg(b));
    Laws(r, b, b, b);
    MulZero(r, a);
    NegUnique(r, r.mul(a, b), r.mul(a, r.neg(b)));
    Laws(r, a, r.neg(b), b);
  }

  lemma NegNeg<T(!new)>(r: Ring<T>, a: T)
    requires Lawful(r)
    ensures r.neg(r.neg(a)) == a
  {
    Laws(r, a, r.neg(a), a);
    NegUnique(r, r.neg(a), a);
  }

  function Pow<T>(r: Ring<T>, w: T, k: nat): T {
    if k == 0 then r.one else r.mul(w, Pow(r, w, k - 1))
  }

  lemma {:induction false} PowAdd<T(!new)>(r: Ring<T>, w: T, j: nat, k: nat)
    requires Lawful(r)
    ensures Pow(r, w, j + k) == r.mul(Pow(r, w, j), Pow(r, w, k))
  {
    if j == 0 {
      Laws(r, Pow(r, w, k), r.one, w);
    } else {
      PowAdd(r, w, j - 1, k);
      Laws(r, w, Pow(r, w, j - 1), Pow(r, w, k));
    }
  }
}
