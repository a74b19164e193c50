/**
 * AggrGlobalMax: the maximum over a whole stream. It is seeded with the
 * input type's `numeric_limits<Tin>::min()`, takes `std::max` with every
 * input and has no retraction support: a retraction is a precondition
 * violation. The type parameter comes with its `operator<` and its seed;
 * the `std::string` specialisation seeds with the one-character string
 * holding byte 0x0F.
 */
module GlobalMax {
  import opened Limits
  import opened Extremum
  import opened ByteStrings

  class AggrGlobalMax<Tin(!new)> {
    /** `operator<` of the input type, which `std::max` uses. */
    const lt: (Tin, Tin) -> bool
    /** The value `init` assigns: `numeric_limits<Tin>::min()`, or "\x0F" for strings. */
    const lowest: Tin
    /** The running maximum. */
    var mMax: Tin
    /** Ghost: every input passed to `iterate` since the last `init`. */
    ghost var inputs: seq<Tin>

    ghost predicate Valid()
      reads this
    {
      StrictTotalOrder(lt) && mMax == Fold(lt, lowest, inputs)
    }

    /** The constructor calls `init`. */
    constructor (lt: (Tin, Tin) -> bool, lowest: Tin)
      requires StrictTotalOrder(lt)
      ensures Valid() && this.lt == lt && this.lowest == lowest
      ensures inputs == [] && mMax == lowest
    {
      this.lt := lt;
      this.lowest := lowest;
      mMax := lowest;
      inputs := [];
    }

    method Init()
      requires Valid()
      modifies this
      ensures Valid() && inputs == [] && mMax == lowest
    {
      mMax := lowest;
      inputs := [];
    }

    /** Refuses a retraction; otherwise keeps the larger of the current maximum and `data`. */
    method Iterate(data: Tin, outdated: bool)
      requires Valid()
      requires !outdated
      modifies this
      ensures Valid() && inputs == old(inputs) + [data]
      ensures mMax == old(mMax) || mMax == data
      ensures !lt(mMax, old(mMax)) && !lt(mMax, data)
      ensures lt(old(mMax), data) <==> mMax != old(mMax)
    {
      FoldSnoc(lt, lowest, inputs, data);
      MaxIsUpperBound(lt, mMax, data);
      mMax := Max(lt, mMax, data);
      inputs := inputs + [data];
    }

    /** Reads the maximum: the greatest of the seed and every input since `init`. */
    method Value() returns (v: Tin)
      requires Valid()
      ensures v == mMax
      ensures v == lowest || v in inputs
      ensures !lt(v, lowest) && forall x | x in inputs :: !lt(v, x)
    {
      FoldIsGreatest(lt, lowest, inputs);
      v := mMax;
    }
  }

  /** `operator<` on `int`. */
  const Int32Less: (int32, int32) -> bool := (a: int32, b: int32) => a < b

  /** An `AggrGlobalMax<int>`: ordered by `<` on `int`, seeded with `numeric_limits<int>::min()`. */
  method NewInt32Max() returns (m: AggrGlobalMax<int32>)
    ensures fresh(m) && m.Valid()
    ensures m.lt == Int32Less && m.lowest == Int32Min
    ensures m.mMax == Int32Min && m.inputs == []
  {
    m := new AggrGlobalMax(Int32Less, Int32Min);
  }

  /** The seed `numeric_limits<int>::min()` is never reported once an input has arrived. */
  lemma {:induction false} Int32SeedNeverWins(xs: seq<int32>)
    requires xs != []
    ensures Fold(Int32Less, Int32Min, xs) in xs
  {
    LeastSeedNeverWins(Int32Less, Int32Min, xs);
  }

  /** The seed of the `std::string` specialisation: one character with code 0x0F. */
  const StringSeed: ByteString := [0x0F]

  /** An `AggrGlobalMax<std::string>`: ordered by string `<`, seeded with "\x0F" by the specialised `init`. */
  method NewStringMax() returns (m: AggrGlobalMax<ByteString>)
    ensures fresh(m) && m.Valid()
    ensures m.lt == LexLess && m.lowest == StringSeed
    ensures m.mMax == StringSeed && m.inputs == []
  {
    LexLessIsStrictTotalOrder();
    m := new AggrGlobalMax(LexLess, StringSeed);
  }

  /** After `init` and `iterate("")`, a string aggregate reports "\x0F", not the empty string. */
  method StringMaxIgnoresEmptyString() returns (v: ByteString)
    ensures v == StringSeed
  {
    var m := NewStringMax();
    m.Iterate([], false);
    EmptyStringIsNeverTheMaximum();
    v := m.Value();
  }

  /**
   * The string seed is not the least string: inputs below it (the empty
   * string, or any string starting with a byte below 0x0F) never replace it.
   */
  lemma {:induction false} StringSeedBeatsSmallerInputs(xs: seq<ByteString>)
    requires forall x | x in xs :: LexLess(x, StringSeed)
    ensures Fold(LexLess, StringSeed, xs) == StringSeed
  {
    LexLessIsStrictTotalOrder();
    forall x | x in xs
      ensures !LexLess(StringSeed, x)
    {
      LexLessIrreflexive(x);
      if LexLess(StringSeed, x) {
        LexLessTransitive(x, StringSeed, x);
      }
    }
    SeedWins(LexLess, StringSeed, xs);
  }

  /** In particular, after `init` and `iterate("")` the value is "\x0F", not the empty string. */
  lemma EmptyStringIsNeverTheMaximum()
    ensures Fold(LexLess, StringSeed, [[]]) == StringSeed != []
  {
    StringSeedBeatsSmallerInputs([[]]);
  }
}
