/**
 * RelatedStateValueMax: the largest value of one event field seen in a
 * pattern state. Seeded with `numeric_limits<double>::min()` (the smallest
 * POSITIVE double), raised only by a strictly greater field value, never
 * reset and never retracted.
 */
module RelatedMax {
  import opened Limits
  import opened Extremum
  import opened RelatedValue

  const Less: (real, real) -> bool := (a: real, b: real) => a < b

  class RelatedStateValueMax<E> {
    /** `std::get<Index>`: the field of the event this tracker reads. */
    const field: E -> real
    /** The current maximum. */
    var maxValue: real
    /** Ghost: every event given to `updateValue` or `initValue`. */
    ghost var events: seq<E>

    ghost predicate Valid()
      reads this
    {
      maxValue == Fold(Less, DoubleMin, Project(field, events))
    }

    constructor (field: E -> real)
      ensures Valid() && this.field == field
      ensures events == [] && maxValue == DoubleMin
    {
      this.field := field;
      maxValue := DoubleMin;
      events := [];
    }

    /** Takes the event's field iff it is strictly above the current maximum. */
    method UpdateValue(e: E)
      requires Valid()
      modifies this
      ensures Valid() && events == old(events) + [e]
      ensures maxValue == (if field(e) > old(maxValue) then field(e) else old(maxValue))
      ensures maxValue >= old(maxValue) && maxValue >= field(e)
    {
      ProjectSnoc(field, events, e);
      FoldSnoc(Less, DoubleMin, Project(field, events), field(e));
      var temp := field(e);
      if temp > maxValue {
        maxValue := temp;
      }
      events := events + [e];
    }

    /** Delegates to `updateValue`: the maximum is not reset to the seed. */
    method InitValue(e: E)
      requires Valid()
      modifies this
      ensures Valid() && events == old(events) + [e]
      ensures maxValue == (if field(e) > old(maxValue) then field(e) else old(maxValue))
      ensures maxValue >= old(maxValue) && maxValue >= field(e)
    {
      UpdateValue(e);
    }

    /** Reads the maximum: the greatest of the seed and the field of every event. */
    method GetValue() returns (v: real)
      requires Valid()
      ensures v == maxValue
      ensures v >= DoubleMin && forall x | x in Project(field, events) :: v >= x
      ensures v == DoubleMin || v in Project(field, events)
    {
      RealLessIsStrictTotalOrder();
      FoldIsGreatest(Less, DoubleMin, Project(field, events));
      v := maxValue;
    }
  }

  /** The maximum never falls as more values arrive. */
  lemma MaxNonDecreasing(xs: seq<real>, ys: seq<real>)
    ensures Fold(Less, DoubleMin, xs + ys) >= Fold(Less, DoubleMin, xs)
  {
    RealLessIsStrictTotalOrder();
    FoldMonotone(Less, DoubleMin, xs, ys);
  }

  /** Only which values arrived matters: not their order, not repetitions. */
  lemma MaxIgnoresOrderAndRepeats(xs: seq<real>, ys: seq<real>)
    requires forall x :: x in xs <==> x in ys
    ensures Fold(Less, DoubleMin, xs) == Fold(Less, DoubleMin, ys)
  {
    RealLessIsStrictTotalOrder();
    // The requires, restated so that it is instantiated at T := real for the generic lemma.
    assert forall x :: x in xs <==> x in ys;
    FoldSameElements(Less, DoubleMin, xs, ys);
  }

  /**
   * The seed is positive, so when no value exceeds it (for example when
   * every value is zero or negative) the tracker keeps reporting the seed.
   */
  lemma SeedSurvivesSmallerValues(xs: seq<real>)
    requires forall x | x in xs :: x <= DoubleMin
    ensures Fold(Less, DoubleMin, xs) == DoubleMin > 0.0
  {
    RealLessIsStrictTotalOrder();
    SeedWins(Less, DoubleMin, xs);
  }
}
