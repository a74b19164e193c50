/**
 * AggrCount: a retraction-aware counter kept in an `unsigned int`. A new
 * tuple adds one, an outdated (retracted) one subtracts one, and the
 * arithmetic wraps modulo 2^32 as unsigned arithmetic does.
 */
module Counting {
  import opened Limits

  /** The change one `iterate` call makes: -1 for a retraction, +1 otherwise. */
  function Step(outdated: bool): int {
    if outdated then -1 else 1
  }

  /** Net change of a run of `iterate` calls, given their `outdated` flags in order. */
  function Net(flags: seq<bool>): int
    decreases |flags|
  {
    if flags == [] then 0 else Net(flags[..|flags| - 1]) + Step(flags[|flags| - 1])
  }

  /** Number of additions (`outdated == false`) among the flags. */
  function Adds(flags: seq<bool>): nat {
    multiset(flags)[false]
  }

  /** Number of retractions (`outdated == true`) among the flags. */
  function Retractions(flags: seq<bool>): nat {
    multiset(flags)[true]
  }

  /** An integer reduced into `unsigned int`: the unique counter value congruent to it modulo 2^32. */
  function Wrap(n: int): (r: uint32)
    ensures (r as int - n) % UInt32Modulus == 0
  {
    (n % UInt32Modulus) as uint32
  }

  /** Wrapping twice is wrapping once: reducing an intermediate count changes nothing. */
  lemma WrapAdd(n: int, d: int)
    ensures Wrap(Wrap(n) as int + d) == Wrap(n + d)
  {
  }

  /** The net change is the number of additions minus the number of retractions, whatever the interleaving. */
  lemma {:induction false} NetIsAddsMinusRetractions(flags: seq<bool>)
    ensures Net(flags) == Adds(flags) - Retractions(flags)
    decreases |flags|
  {
    if flags != [] {
      var init, last := flags[..|flags| - 1], flags[|flags| - 1];
      assert flags == init + [last];
      NetIsAddsMinusRetractions(init);
    }
  }

  /** An addition and a retraction, in either order, leave the count where it was. */
  lemma AddAndRetractCancel(flags: seq<bool>)
    ensures Wrap(Net(flags + [false, true])) == Wrap(Net(flags))
    ensures Wrap(Net(flags + [true, false])) == Wrap(Net(flags))
  {
    assert (flags + [false, true])[..|flags| + 1] == flags + [false];
    assert (flags + [false])[..|flags|] == flags;
    assert (flags + [true, false])[..|flags| + 1] == flags + [true];
    assert (flags + [true])[..|flags|] == flags;
  }

  /** A retraction on a fresh counter wraps to the largest `unsigned int`. */
  lemma RetractFromZeroWraps()
    ensures Wrap(Net([true])) == 0xFFFF_FFFF
  {
    assert [true][..0] == [];
  }

  class AggrCount<Tin> {
    /** The counter. */
    var mCount: uint32
    /** Ghost: the `outdated` flags of every `iterate` call since the last `init`. */
    ghost var flags: seq<bool>

    ghost predicate Valid()
      reads this
    {
      mCount == Wrap(Net(flags))
    }

    /** The constructor calls `init`. */
    constructor ()
      ensures Valid() && flags == [] && mCount == 0
    {
      mCount := 0;
      flags := [];
    }

    method Init()
      modifies this
      ensures Valid() && flags == [] && mCount == 0
    {
      mCount := 0;
      flags := [];
    }

    /**
     * Adds one, or subtracts one for a retraction. The subtraction is done
     * in unsigned arithmetic, so the sum wraps modulo 2^32. `data` is not read.
     */
    method Iterate(data: Tin, outdated: bool)
      requires Valid()
      modifies this
      ensures Valid() && flags == old(flags) + [outdated]
      ensures mCount as int == (old(mCount) as int + (if outdated then -1 else 1)) % UInt32Modulus
    {
      WrapAdd(Net(flags), Step(outdated));
      assert (flags + [outdated])[..|flags|] == flags;
      mCount := Wrap(mCount as int + Step(outdated));
      flags := flags + [outdated];
    }

    /** Reads the counter: additions minus retractions since `init`, modulo 2^32. */
    method Value() returns (v: uint32)
      requires Valid()
      ensures v == mCount
      ensures v as int == (Adds(flags) - Retractions(flags)) % UInt32Modulus
    {
      NetIsAddsMinusRetractions(flags);
      v := mCount;
    }
  }

  /** An addition followed by a retraction of any data leaves the counter unchanged. */
  method AddThenRetract<Tin>(c: AggrCount<Tin>, d: Tin, e: Tin)
    requires c.Valid()
    modifies c
    ensures c.Valid() && c.mCount == old(c.mCount)
  {
    c.Iterate(d, false);
    c.Iterate(e, true);
  }

  /** A retraction followed by an addition of any data leaves the counter unchanged. */
  method RetractThenAdd<Tin>(c: AggrCount<Tin>, d: Tin, e: Tin)
    requires c.Valid()
    modifies c
    ensures c.Valid() && c.mCount == old(c.mCount)
  {
    c.Iterate(d, true);
    c.Iterate(e, false);
  }
}
