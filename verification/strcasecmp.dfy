/**
 POSIX `strcasecmp` in the C locale, as the comparator of the attribute table.

 The definition follows the usual C loop: at each index take
 `tolower(c1) - tolower(c2)` and stop at the first nonzero difference or when
 the first string's terminator is reached, as glibc and musl do. POSIX
 promises only the sign of the result. Three facts below go beyond the sign and
 hold for this loop but not for every conforming `strcasecmp`: the bound
 `-0xFF <= r <= 0xFF` on `CaseCmp`, exact negation in `CaseCmpAntisymmetric`,
 and exact invariance under case-only respelling in `CaseCmpFoldInvariant`.
 The remaining properties concern the sign alone.
 */
module StrCaseCmp {
  import opened CStrings

  /** `strcasecmp(a, b)`: the first nonzero difference of folded bytes, read
      with the terminator past the end, or 0 once both names end together. */
  function CaseCmp(a: CStr, b: CStr): (r: int)
    ensures -0xFF <= r <= 0xFF
    ensures r == 0 ==> |a| == |b|
    decreases |a|
  {
    var d := ToLower(At(a, 0)) - ToLower(At(b, 0));
    if d != 0 || |a| == 0 then d
    else CaseCmp(a[1..], b[1..])
  }

  /** Independent reference: the lexicographic order on the folded strings, in
      which a proper prefix comes first. */
  ghost predicate FoldedLess(a: CStr, b: CStr) {
    exists k: nat :: FirstDifferenceAt(a, b, k)
  }

  /** The folded strings agree before index `k`, and at `k` either `a` has ended
      while `b` goes on, or `a` holds the smaller folded byte. */
  predicate FirstDifferenceAt(a: CStr, b: CStr, k: nat) {
    && k <= |a| && k < |b|
    && (forall i | 0 <= i < k :: SameIgnoringCase(a[i], b[i]))
    && (k == |a| || ToLower(a[k]) < ToLower(b[k]))
  }

  /** The comparator reports equality exactly for names equal up to ASCII case. */
  lemma {:induction false} CaseCmpZeroIff(a: CStr, b: CStr)
    ensures CaseCmp(a, b) == 0 <==> FoldStr(a) == FoldStr(b)
    decreases |a|
  {
    if |a| == 0 || |b| == 0 {
    } else if ToLower(a[0]) != ToLower(b[0]) {
      assert FoldStr(a)[0] != FoldStr(b)[0];
    } else {
      CaseCmpZeroIff(a[1..], b[1..]);
      assert FoldStr(a) == [ToLower(a[0])] + FoldStr(a[1..]);
      assert FoldStr(b) == [ToLower(b[0])] + FoldStr(b[1..]);
      if FoldStr(a) == FoldStr(b) {
        assert FoldStr(a)[1..] == FoldStr(a[1..]);
        assert FoldStr(b)[1..] == FoldStr(b[1..]);
      }
    }
  }

  /** The only difference the comparator overlooks is ASCII case, byte by byte:
      no trimming, no other folding, and equal names have equal lengths. */
  lemma {:induction false} CaseCmpZeroIffBytewise(a: CStr, b: CStr)
    ensures CaseCmp(a, b) == 0 <==>
              |a| == |b| && forall i | 0 <= i < |a| :: SameIgnoringCase(a[i], b[i])
  {
    CaseCmpZeroIff(a, b);
    FoldStrEqIff(a, b);
  }

  /** Swapping the arguments negates the result, so the signs are opposite. */
  lemma {:induction false} CaseCmpAntisymmetric(a: CStr, b: CStr)
    ensures CaseCmp(a, b) == -CaseCmp(b, a)
    decreases |a|
  {
    if |a| == 0 || |b| == 0 || ToLower(a[0]) != ToLower(b[0]) {
    } else {
      CaseCmpAntisymmetric(a[1..], b[1..]);
    }
  }

  /** Every name compares equal to itself. */
  lemma {:induction false} CaseCmpReflexive(a: CStr)
    ensures CaseCmp(a, a) == 0
  {
    CaseCmpAntisymmetric(a, a);
  }

  /** "At most" and "less than" chain: the comparator is a total preorder. */
  lemma {:induction false} CaseCmpTransitive(a: CStr, b: CStr, c: CStr)
    ensures CaseCmp(a, b) <= 0 && CaseCmp(b, c) <= 0 ==> CaseCmp(a, c) <= 0
    ensures CaseCmp(a, b) < 0 && CaseCmp(b, c) <= 0 ==> CaseCmp(a, c) < 0
    ensures CaseCmp(a, b) <= 0 && CaseCmp(b, c) < 0 ==> CaseCmp(a, c) < 0
    decreases |a|
  {
    var x, y, z := ToLower(At(a, 0)), ToLower(At(b, 0)), ToLower(At(c, 0));
    if x == y && y == z && |a| > 0 {
      CaseCmpTransitive(a[1..], b[1..], c[1..]);
    }
  }

  /** Only the folded bytes matter: the comparator cannot tell apart two spellings
      that differ in ASCII case alone, on either side. */
  lemma {:induction false} CaseCmpFoldInvariant(a: CStr, a': CStr, b: CStr)
    requires FoldStr(a) == FoldStr(a')
    ensures CaseCmp(a, b) == CaseCmp(a', b)
    ensures CaseCmp(b, a) == CaseCmp(b, a')
    decreases |a|
  {
    assert |a| == |a'|;
    if |a| > 0 {
      assert FoldStr(a)[0] == FoldStr(a')[0];
      assert FoldStr(a[1..]) == FoldStr(a)[1..] == FoldStr(a')[1..] == FoldStr(a'[1..]);
      if |b| > 0 {
        CaseCmpFoldInvariant(a[1..], a'[1..], b[1..]);
      }
    }
  }

  /** A negative result means `a` comes first in the folded lexicographic order,
      and conversely. */
  lemma {:induction false} CaseCmpNegativeIff(a: CStr, b: CStr)
    ensures CaseCmp(a, b) < 0 <==> FoldedLess(a, b)
    decreases |a|
  {
    if CaseCmp(a, b) < 0 {
      CaseCmpNegativeImpliesLess(a, b);
    }
    if FoldedLess(a, b) {
      var k: nat :| FirstDifferenceAt(a, b, k);
      LessAtImpliesNegative(a, b, k);
    }
  }

  lemma {:induction false} CaseCmpNegativeImpliesLess(a: CStr, b: CStr)
    requires CaseCmp(a, b) < 0
    ensures FoldedLess(a, b)
    decreases |a|
  {
    var x, y := ToLower(At(a, 0)), ToLower(At(b, 0));
    if x != y || |a| == 0 {
      assert FirstDifferenceAt(a, b, 0);
    } else {
      CaseCmpNegativeImpliesLess(a[1..], b[1..]);
      var k: nat :| FirstDifferenceAt(a[1..], b[1..], k);
      forall i | 0 <= i < k + 1
        ensures SameIgnoringCase(a[i], b[i])
      {
        if i > 0 {
          assert a[i] == a[1..][i - 1] && b[i] == b[1..][i - 1];
        }
      }
      assert FirstDifferenceAt(a, b, k + 1);
    }
  }

  lemma {:induction false} LessAtImpliesNegative(a: CStr, b: CStr, k: nat)
    requires FirstDifferenceAt(a, b, k)
    ensures CaseCmp(a, b) < 0
    decreases k
  {
    if k > 0 {
      assert SameIgnoringCase(a[0], b[0]);
      forall i | 0 <= i < k - 1
        ensures SameIgnoringCase(a[1..][i], b[1..][i])
      {
        assert SameIgnoringCase(a[i + 1], b[i + 1]);
      }
      assert FirstDifferenceAt(a[1..], b[1..], k - 1);
      LessAtImpliesNegative(a[1..], b[1..], k - 1);
    }
  }

  /** A proper prefix (up to case) compares less than the longer name. */
  lemma {:induction false} PrefixComparesLess(a: CStr, b: CStr)
    requires |a| < |b|
    requires FoldStr(a) == FoldStr(b)[..|a|]
    ensures CaseCmp(a, b) < 0
  {
    assert forall i | 0 <= i < |a| :: FoldStr(a)[i] == FoldStr(b)[..|a|][i];
    LessAtImpliesNegative(a, b, |a|);
  }
}
