/**
 * Running extremum over a strict order, the computation shared by
 * AggrGlobalMax (which keeps the larger of its maximum and each input) and
 * the related-value trackers (which take a field value only when it is
 * strictly beyond the current extreme; the minimum is the maximum for the
 * reversed order).
 */
module Extremum {

  /** `lt` is a strict total order: irreflexive, transitive and connected. */
  ghost predicate StrictTotalOrder<T(!new)>(lt: (T, T) -> bool) {
    && (forall x :: !lt(x, x))
    && (forall x, y, z :: lt(x, y) && lt(y, z) ==> lt(x, z))
    && (forall x, y :: x != y ==> lt(x, y) || lt(y, x))
  }

  /** `std::max(a, b)` for the order `lt`: `b` if `a < b`, otherwise `a`. */
  function Max<T>(lt: (T, T) -> bool, a: T, b: T): (r: T)
    ensures r == a || r == b
  {
    if lt(a, b) then b else a
  }

  /**
   * The state of a tracker seeded with `seed` after it has taken every
   * element of `xs` in order: one `Max` step per element.
   */
  function Fold<T>(lt: (T, T) -> bool, seed: T, xs: seq<T>): (r: T)
    ensures r == seed || r in xs
    decreases |xs|
  {
    if xs == [] then seed else Max(lt, Fold(lt, seed, xs[..|xs| - 1]), xs[|xs| - 1])
  }

  /** `m` is one of the seed and the inputs, and no input nor the seed exceeds it. */
  ghost predicate IsGreatest<T>(lt: (T, T) -> bool, m: T, seed: T, xs: seq<T>) {
    && (m == seed || m in xs)
    && !lt(m, seed)
    && forall x | x in xs :: !lt(m, x)
  }

  /** One step is at least both arguments and equal to one of them. */
  lemma MaxIsUpperBound<T(!new)>(lt: (T, T) -> bool, a: T, b: T)
    requires StrictTotalOrder(lt)
    ensures !lt(Max(lt, a, b), a) && !lt(Max(lt, a, b), b)
    ensures Max(lt, a, b) == a || Max(lt, a, b) == b
  {
  }

  /** Taking the same value twice in a row is the same as taking it once. */
  lemma MaxIdempotent<T(!new)>(lt: (T, T) -> bool, a: T, b: T)
    requires StrictTotalOrder(lt)
    ensures Max(lt, Max(lt, a, b), b) == Max(lt, a, b)
  {
  }

  /** Appending one input is one more `Max` step. */
  lemma FoldSnoc<T>(lt: (T, T) -> bool, seed: T, xs: seq<T>, x: T)
    ensures Fold(lt, seed, xs + [x]) == Max(lt, Fold(lt, seed, xs), x)
  {
    assert (xs + [x])[..|xs|] == xs;
  }

  /** Folding `xs + ys` is folding `ys` starting from the state reached after `xs`. */
  lemma {:induction false} FoldAppend<T>(lt: (T, T) -> bool, seed: T, xs: seq<T>, ys: seq<T>)
    ensures Fold(lt, seed, xs + ys) == Fold(lt, Fold(lt, seed, xs), ys)
    decreases |ys|
  {
    if ys == [] {
      assert xs + ys == xs;
    } else {
      var init, last := ys[..|ys| - 1], ys[|ys| - 1];
      assert ys == init + [last];
      assert xs + ys == (xs + init) + [last];
      FoldSnoc(lt, seed, xs + init, last);
      FoldAppend(lt, seed, xs, init);
      FoldSnoc(lt, Fold(lt, seed, xs), init, last);
    }
  }

  /** The fold is the greatest of the seed and all inputs. */
  lemma {:induction false} FoldIsGreatest<T(!new)>(lt: (T, T) -> bool, seed: T, xs: seq<T>)
    requires StrictTotalOrder(lt)
    ensures IsGreatest(lt, Fold(lt, seed, xs), seed, xs)
    decreases |xs|
  {
    if xs != [] {
      var init, last := xs[..|xs| - 1], xs[|xs| - 1];
      assert xs == init + [last];
      FoldIsGreatest(lt, seed, init);
      var m := Fold(lt, seed, init);
      MaxIsUpperBound(lt, m, last);
      forall x | x in xs
        ensures !lt(Fold(lt, seed, xs), x)
      {
        if x != last {
          assert x in init;
        }
      }
    }
  }

  /** Over the same candidates, there is only one greatest element. */
  lemma GreatestIsUnique<T(!new)>(lt: (T, T) -> bool, m1: T, m2: T, seed: T, xs: seq<T>, ys: seq<T>)
    requires StrictTotalOrder(lt)
    requires forall x :: x in xs <==> x in ys
    requires IsGreatest(lt, m1, seed, xs) && IsGreatest(lt, m2, seed, ys)
    ensures m1 == m2
  {
  }

  /**
   * The fold depends only on the SET of inputs: neither their order nor
   * how often each is repeated changes the result.
   */
  lemma FoldSameElements<T(!new)>(lt: (T, T) -> bool, seed: T, xs: seq<T>, ys: seq<T>)
    requires StrictTotalOrder(lt)
    requires forall x :: x in xs <==> x in ys
    ensures Fold(lt, seed, xs) == Fold(lt, seed, ys)
  {
    FoldIsGreatest(lt, seed, xs);
    FoldIsGreatest(lt, seed, ys);
    GreatestIsUnique(lt, Fold(lt, seed, xs), Fold(lt, seed, ys), seed, xs, ys);
  }

  /** A permutation of the inputs gives the same result. */
  lemma FoldPermutation<T(!new)>(lt: (T, T) -> bool, seed: T, xs: seq<T>, ys: seq<T>)
    requires StrictTotalOrder(lt)
    requires multiset(xs) == multiset(ys)
    ensures Fold(lt, seed, xs) == Fold(lt, seed, ys)
  {
    forall x
      ensures x in xs <==> x in ys
    {
      assert x in xs <==> x in multiset(xs);
      assert x in ys <==> x in multiset(ys);
    }
    FoldSameElements(lt, seed, xs, ys);
  }

  /** Taking more inputs never lowers the value. */
  lemma FoldMonotone<T(!new)>(lt: (T, T) -> bool, seed: T, xs: seq<T>, ys: seq<T>)
    requires StrictTotalOrder(lt)
    ensures !lt(Fold(lt, seed, xs + ys), Fold(lt, seed, xs))
  {
    FoldAppend(lt, seed, xs, ys);
    FoldIsGreatest(lt, Fold(lt, seed, xs), ys);
  }

  /** When no input exceeds the seed, the seed is the result. */
  lemma {:induction false} SeedWins<T(!new)>(lt: (T, T) -> bool, seed: T, xs: seq<T>)
    requires StrictTotalOrder(lt)
    requires forall x | x in xs :: !lt(seed, x)
    ensures Fold(lt, seed, xs) == seed
    decreases |xs|
  {
    if xs != [] {
      var init, last := xs[..|xs| - 1], xs[|xs| - 1];
      assert xs == init + [last];
      SeedWins(lt, seed, init);
    }
  }

  /** When the seed is below every value, it is never the result of a nonempty run. */
  lemma {:induction false} LeastSeedNeverWins<T(!new)>(lt: (T, T) -> bool, seed: T, xs: seq<T>)
    requires StrictTotalOrder(lt)
    requires forall x :: !lt(x, seed)
    requires xs != []
    ensures Fold(lt, seed, xs) in xs
  {
    FoldIsGreatest(lt, seed, xs);
  }

  /** The built-in order on reals (the doubles of the source) is a strict total order. */
  lemma RealLessIsStrictTotalOrder()
    ensures StrictTotalOrder((a: real, b: real) => a < b)
  {
  }

  /** So is its reverse, under which `Max` is the minimum. */
  lemma RealGreaterIsStrictTotalOrder()
    ensures StrictTotalOrder((a: real, b: real) => a > b)
  {
  }
}
