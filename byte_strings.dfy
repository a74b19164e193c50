/**
 * `std::string` as a sequence of bytes, ordered the way `operator<` on
 * strings orders them: lexicographically, each character compared as an
 * unsigned char, a proper prefix before any extension of it.
 */
module ByteStrings {
  import opened Limits
  import opened Extremum

  type ByteString = seq<byte>

  /** `a < b` for `std::string`. */
  predicate LexLess(a: ByteString, b: ByteString)
    decreases |a|
  {
    && b != []
    && (a == [] || a[0] < b[0] || (a[0] == b[0] && LexLess(a[1..], b[1..])))
  }

  lemma {:induction false} LexLessIrreflexive(a: ByteString)
    ensures !LexLess(a, a)
    decreases |a|
  {
    if a != [] {
      LexLessIrreflexive(a[1..]);
    }
  }

  lemma {:induction false} LexLessTransitive(a: ByteString, b: ByteString, c: ByteString)
    requires LexLess(a, b) && LexLess(b, c)
    ensures LexLess(a, c)
    decreases |a|
  {
    if a != [] && a[0] == b[0] && b[0] == c[0] {
      LexLessTransitive(a[1..], b[1..], c[1..]);
    }
  }

  lemma {:induction false} LexLessConnected(a: ByteString, b: ByteString)
    requires a != b
    ensures LexLess(a, b) || LexLess(b, a)
    decreases |a|
  {
    if a != [] && b != [] && a[0] == b[0] {
      assert a == [a[0]] + a[1..] && b == [b[0]] + b[1..];
      LexLessConnected(a[1..], b[1..]);
    }
  }

  /** String comparison is a strict total order, so `std::max` on strings is a maximum. */
  lemma LexLessIsStrictTotalOrder()
    ensures StrictTotalOrder(LexLess)
  {
    forall a: ByteString
      ensures !LexLess(a, a)
    {
      LexLessIrreflexive(a);
    }
    forall a: ByteString, b: ByteString, c: ByteString | LexLess(a, b) && LexLess(b, c)
      ensures LexLess(a, c)
    {
      LexLessTransitive(a, b, c);
    }
    forall a: ByteString, b: ByteString | a != b
      ensures LexLess(a, b) || LexLess(b, a)
    {
      LexLessConnected(a, b);
    }
  }
}
