/**
 * What the related-value trackers share: an event is a tuple of which a
 * tracker reads one field, `std::get<Index>(e)`, given here as a
 * projection from the event type to the stored (double) value.
 */
module RelatedValue {

  /** The field each event contributes, in event order. */
  function Project<E>(field: E -> real, events: seq<E>): (r: seq<real>)
    ensures |r| == |events|
    ensures forall i | 0 <= i < |events| :: r[i] == field(events[i])
    decreases |events|
  {
    if events == [] then [] else Project(field, events[..|events| - 1]) + [field(events[|events| - 1])]
  }

  /** Recording one more event records its field. */
  lemma ProjectSnoc<E>(field: E -> real, events: seq<E>, e: E)
    ensures Project(field, events + [e]) == Project(field, events) + [field(e)]
  {
    assert (events + [e])[..|events|] == events;
  }

  /** Events whose selected fields agree are indistinguishable: no other field is read. */
  lemma OnlyFieldIsRead<E>(field: E -> real, events1: seq<E>, events2: seq<E>)
    requires |events1| == |events2|
    requires forall i | 0 <= i < |events1| :: field(events1[i]) == field(events2[i])
    ensures Project(field, events1) == Project(field, events2)
  {
  }
}
