/**
  The operator macros of include/bwsl/RelationalUtils.hpp: given `a < b`
  (and, for mixed types, `b < a`), OVERLOADRELATIONAL and
  TEMPLATEOVERLOADRELATIONAL define `==`, `!=`, `<=`, `>` and `>=`.

  The two comparisons are passed as functions: `lessAB(a, b)` is `a < b` and
  `lessBA(b, a)` is `b < a`; for one type they are the same function.
*/
module RelationalUtils {

  /** `a == b` is `!(a < b) && !(b < a)`. */
  predicate Eq<A, B>(lessAB: (A, B) -> bool, lessBA: (B, A) -> bool, a: A, b: B)
  {
    !lessAB(a, b) && !lessBA(b, a)
  }

  /** `a != b` is `!(a == b)`. */
  predicate Ne<A, B>(lessAB: (A, B) -> bool, lessBA: (B, A) -> bool, a: A, b: B)
  {
    !Eq(lessAB, lessBA, a, b)
  }

  /** `a <= b` is `!(b < a)`. */
  predicate Le<A, B>(lessAB: (A, B) -> bool, lessBA: (B, A) -> bool, a: A, b: B)
  {
    !lessBA(b, a)
  }

  /** `a > b` is `b < a`. */
  predicate Gt<A, B>(lessAB: (A, B) -> bool, lessBA: (B, A) -> bool, a: A, b: B)
  {
    lessBA(b, a)
  }

  /** `a >= b` is `!(a < b)`. */
  predicate Ge<A, B>(lessAB: (A, B) -> bool, lessBA: (B, A) -> bool, a: A, b: B)
  {
    !lessAB(a, b)
  }

  /** A strict weak order: irreflexive, transitive, and with transitive
      incomparability. */
  ghost predicate StrictWeakOrder<T(!new)>(less: (T, T) -> bool)
  {
    (forall a :: !less(a, a))
    && (forall a, b, c :: less(a, b) && less(b, c) ==> less(a, c))
    && (forall a, b, c :: !less(a, b) && !less(b, a) && !less(b, c) && !less(c, b) ==> !less(a, c) && !less(c, a))
  }

  /** When `a < b` and `b < a` never hold together, the derived operators
      split every pair three ways: `<=` is `<` or `==`, `>=` is `>` or `==`,
      `!=` is `<` or `>`, and `==` excludes both strict comparisons. */
  lemma DerivedOperators<A, B>(lessAB: (A, B) -> bool, lessBA: (B, A) -> bool, a: A, b: B)
    requires !(lessAB(a, b) && lessBA(b, a))
    ensures Le(lessAB, lessBA, a, b) <==> lessAB(a, b) || Eq(lessAB, lessBA, a, b)
    ensures Ge(lessAB, lessBA, a, b) <==> Gt(lessAB, lessBA, a, b) || Eq(lessAB, lessBA, a, b)
    ensures Ne(lessAB, lessBA, a, b) <==> lessAB(a, b) || Gt(lessAB, lessBA, a, b)
    ensures Eq(lessAB, lessBA, a, b) ==> !lessAB(a, b) && !Gt(lessAB, lessBA, a, b)
  {
  }

  /** For an asymmetric `<` exactly one of `<`, `==` and `>` holds. */
  lemma Trichotomy<T>(less: (T, T) -> bool, a: T, b: T)
    requires !(less(a, b) && less(b, a))
    ensures less(a, b) || Eq(less, less, a, b) || Gt(less, less, a, b)
    ensures !(less(a, b) && Eq(less, less, a, b))
    ensures !(less(a, b) && Gt(less, less, a, b))
    ensures !(Eq(less, less, a, b) && Gt(less, less, a, b))
  {
  }

  /** Over a strict weak order the derived `==` is an equivalence and `<=`
      is a total preorder. */
  lemma WeakOrderEquivalence<T(!new)>(less: (T, T) -> bool, a: T, b: T, c: T)
    requires StrictWeakOrder(less)
    ensures Eq(less, less, a, a)
    ensures Eq(less, less, a, b) ==> Eq(less, less, b, a)
    ensures Eq(less, less, a, b) && Eq(less, less, b, c) ==> Eq(less, less, a, c)
    ensures Le(less, less, a, b) || Le(less, less, b, a)
    ensures Le(less, less, a, b) && Le(less, less, b, c) ==> Le(less, less, a, c)
  {
    if Le(less, less, a, b) && Le(less, less, b, c) && less(c, a) {
      if less(a, b) {
        assert false;
      } else {
        assert false;
      }
    }
  }
}
