/**
 * RelatedStateValueMin: the smallest value of one event field seen in a
 * pattern state. Seeded with `numeric_limits<double>::max()`, lowered only
 * by a strictly smaller field value, never reset and never retracted.
 */
module RelatedMin {
  import opened Limits
  import opened Extremum
  import opened RelatedValue

  /** The minimum is the `Max` step of the reversed order. */
  const Greater: (real, real) -> bool := (a: real, b: real) => a > b

  class RelatedStateValueMin<E> {
    /** `std::get<Index>`: the field of the event this tracker reads. */
    const field: E -> real
    /** The current minimum. */
    var minValue: real
    /** Ghost: every event given to `updateValue` or `initValue`. */
    ghost var events: seq<E>

    ghost predicate Valid()
      reads this
    {
      minValue == Fold(Greater, DoubleMax, Project(field, events))
    }

    constructor (field: E -> real)
      ensures Valid() && this.field == field
      ensures events == [] && minValue == DoubleMax
    {
      this.field := field;
      minValue := DoubleMax;
      events := [];
    }

    /** Takes the event's field iff it is strictly below the current minimum. */
    method UpdateValue(e: E)
      requires Valid()
      modifies this
      ensures Valid() && events == old(events) + [e]
      ensures minValue == (if field(e) < old(minValue) then field(e) else old(minValue))
      ensures minValue <= old(minValue) && minValue <= field(e)
    {
      ProjectSnoc(field, events, e);
      FoldSnoc(Greater, DoubleMax, Project(field, events), field(e));
      var temp := field(e);
      if temp < minValue {
        minValue := temp;
      }
      events := events + [e];
    }

    /** Delegates to `updateValue`: the minimum is not reset to the seed. */
    method InitValue(e: E)
      requires Valid()
      modifies this
      ensures Valid() && events == old(events) + [e]
      ensures minValue == (if field(e) < old(minValue) then field(e) else old(minValue))
      ensures minValue <= old(minValue) && minValue <= field(e)
    {
      UpdateValue(e);
    }

    /** Reads the minimum: the least of the seed and the field of every event. */
    method GetValue() returns (v: real)
      requires Valid()
      ensures v == minValue
      ensures v <= DoubleMax && forall x | x in Project(field, events) :: v <= x
      ensures v == DoubleMax || v in Project(field, events)
    {
      RealGreaterIsStrictTotalOrder();
      FoldIsGreatest(Greater, DoubleMax, Project(field, events));
      v := minValue;
    }
  }

  /** The minimum never rises as more values arrive. */
  lemma MinNonIncreasing(xs: seq<real>, ys: seq<real>)
    ensures Fold(Greater, DoubleMax, xs + ys) <= Fold(Greater, DoubleMax, xs)
  {
    RealGreaterIsStrictTotalOrder();
    FoldMonotone(Greater, DoubleMax, xs, ys);
  }

  /** Only which values arrived matters: not their order, not repetitions. */
  lemma MinIgnoresOrderAndRepeats(xs: seq<real>, ys: seq<real>)
    requires forall x :: x in xs <==> x in ys
    ensures Fold(Greater, DoubleMax, xs) == Fold(Greater, DoubleMax, ys)
  {
    RealGreaterIsStrictTotalOrder();
    // The requires, restated so that it is instantiated at T := real for the generic lemma.
    assert forall x :: x in xs <==> x in ys;
    FoldSameElements(Greater, DoubleMax, xs, ys);
  }
}
