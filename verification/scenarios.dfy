/**
 Concrete attribute names from the PKCS#11 standard and what the resolver does
 with them. The generated table itself is not reproduced; each scenario holds
 for every strictly ascending table that carries the rows it mentions.

 The names under test are parameters pinned by a `requires` such as
 `upper == Ascii("CKA_LABEL")`, not literals in the `ensures`: a literal there
 makes the verifier unfold the string byte by byte at every use, which is far
 slower than reasoning about one named value.
 */
module Scenarios {
  import opened CStrings
  import opened StrCaseCmp
  import opened AttrDesc

  /** The bytes of an ASCII text with no NUL character. */
  function Ascii(s: string): (b: CStr)
    requires forall i | 0 <= i < |s| :: 0 < s[i] as int < 0x80
    ensures |b| == |s|
    ensures forall i | 0 <= i < |s| :: b[i] == s[i] as int
  {
    seq(|s|, i requires 0 <= i < |s| => s[i] as int)
  }

  const CKA_CLASS: AttributeType := 0x0000
  const CKA_LABEL: AttributeType := 0x0003
  /** CKA_ECDSA_PARAMS is the older name of the same attribute. */
  const CKA_EC_PARAMS: AttributeType := 0x0180

  const ClassRow := AttributeDesc(CKA_CLASS, Ascii("CKA_CLASS"))
  const LabelRow := AttributeDesc(CKA_LABEL, Ascii("CKA_LABEL"))
  const EcParamsRow := AttributeDesc(CKA_EC_PARAMS, Ascii("CKA_EC_PARAMS"))
  const EcdsaParamsRow := AttributeDesc(CKA_EC_PARAMS, Ascii("CKA_ECDSA_PARAMS"))

  /** Two names that share their first `k` bytes are ordered by their folded byte at `k`. */
  lemma OrderedAt(a: CStr, b: CStr, k: nat)
    requires k < |a| && k < |b|
    requires forall i | 0 <= i < k :: a[i] == b[i]
    requires ToLower(a[k]) < ToLower(b[k])
    ensures CaseCmp(a, b) < 0
  {
    assert FirstDifferenceAt(a, b, k);
    LessAtImpliesNegative(a, b, k);
  }

  /** A string folds to `f` when it does so byte by byte. */
  lemma FoldsTo(s: CStr, f: CStr)
    requires |s| == |f|
    requires forall i | 0 <= i < |s| :: ToLower(s[i]) == f[i]
    ensures FoldStr(s) == f
  {
    assert forall i | 0 <= i < |s| :: FoldStr(s)[i] == f[i];
  }

  /** Folding goes to lower case, so `_` (0x5F) sorts before every letter: the
      table must list "CKA_EC_PARAMS" before "CKA_ECDSA_PARAMS", although as
      written in capitals their bytes order the other way ('D' is 0x44). */
  lemma EcParamsSortsFirst()
    ensures CompareDesc(EcParamsRow, EcdsaParamsRow) < 0
    ensures EcdsaParamsRow.desc[6] < EcParamsRow.desc[6]
  {
    OrderedAt(EcParamsRow.desc, EcdsaParamsRow.desc, 6);
  }

  /** "CKA_CLASS" sorts before "CKA_LABEL", so the two rows are distinct. */
  lemma ClassSortsBeforeLabel()
    ensures CompareDesc(ClassRow, LabelRow) < 0
  {
    OrderedAt(ClassRow.desc, LabelRow.desc, 4);
  }

  /** Upper-, lower- and mixed-case spellings of "CKA_LABEL" all resolve to
      the label attribute. */
  lemma ResolvesLabelInAnyCase(t: seq<AttributeDesc>, i: nat, upper: CStr, lower: CStr, mixed: CStr)
    requires StrictlyAscending(t) && i < |t| && t[i] == LabelRow
    requires upper == Ascii("CKA_LABEL") && lower == Ascii("cka_label") && mixed == Ascii("Cka_Label")
    ensures AttributeTypeFromName(t, upper) == CKA_LABEL
    ensures AttributeTypeFromName(t, lower) == CKA_LABEL
    ensures AttributeTypeFromName(t, mixed) == CKA_LABEL
  {
    FoldsTo(LabelRow.desc, lower);
    FoldsTo(upper, lower);
    FoldsTo(lower, lower);
    FoldsTo(mixed, lower);
    LookupFindsRow(t, i, upper);
    LookupFindsRow(t, i, lower);
    LookupFindsRow(t, i, mixed);
  }

  /** "CKA_CLASS" resolves to the object-class attribute, whose code differs
      from the label attribute's. */
  lemma ResolvesClass(t: seq<AttributeDesc>, i: nat, name: CStr)
    requires StrictlyAscending(t) && i < |t| && t[i] == ClassRow
    requires name == Ascii("CKA_CLASS")
    ensures AttributeTypeFromName(t, name) == CKA_CLASS != CKA_LABEL
  {
    LookupFindsRow(t, i, name);
  }

  lemma EcNameFolds(ec: CStr)
    requires ec == Ascii("cka_ec_params")
    ensures Matches(EcParamsRow, ec)
  {
    FoldsTo(EcParamsRow.desc, ec);
    FoldsTo(ec, ec);
  }

  lemma EcdsaNameFolds(ecdsa: CStr)
    requires ecdsa == Ascii("cka_ecdsa_params")
    ensures Matches(EcdsaParamsRow, ecdsa)
  {
    FoldsTo(EcdsaParamsRow.desc, ecdsa);
    FoldsTo(ecdsa, ecdsa);
  }

  /** Both spellings of the EC parameters attribute resolve, in lower case too. */
  lemma ResolvesEcParams(t: seq<AttributeDesc>, i: nat, ec: CStr)
    requires StrictlyAscending(t) && i < |t| && t[i] == EcParamsRow
    requires ec == Ascii("cka_ec_params")
    ensures AttributeTypeFromName(t, ec) == CKA_EC_PARAMS
  {
    EcNameFolds(ec);
    LookupFindsRow(t, i, ec);
  }

  lemma ResolvesEcdsaParams(t: seq<AttributeDesc>, j: nat, ecdsa: CStr)
    requires StrictlyAscending(t) && j < |t| && t[j] == EcdsaParamsRow
    requires ecdsa == Ascii("cka_ecdsa_params")
    ensures AttributeTypeFromName(t, ecdsa) == CKA_EC_PARAMS
  {
    EcdsaNameFolds(ecdsa);
    LookupFindsRow(t, j, ecdsa);
  }

  /** The empty name is no attribute: it gets the sentinel from any table whose
      names are all nonempty. */
  lemma EmptyNameNotFound(t: seq<AttributeDesc>)
    requires forall i | 0 <= i < |t| :: |t[i].desc| > 0
    ensures AttributeTypeFromName(t, []) == NotFound
  {
  }

  /** "CKA_NOT_A_REAL_ATTRIBUTE" gets the sentinel from any table in which the
      comparator finds no row equal to it. */
  lemma {:induction false} UnknownNameNotFound(t: seq<AttributeDesc>, name: CStr)
    requires name == Ascii("CKA_NOT_A_REAL_ATTRIBUTE")
    requires forall i | 0 <= i < |t| :: CaseCmp(t[i].desc, name) != 0
    ensures AttributeTypeFromName(t, name) == NotFound
  {
    forall i | 0 <= i < |t|
      ensures !Matches(t[i], name)
    {
      CaseCmpZeroIff(t[i].desc, name);
    }
  }

  /** No trimming: a leading blank makes "CKA_LABEL" a different name. */
  lemma PaddedNameDiffers(padded: CStr)
    requires padded == Ascii(" CKA_LABEL")
    ensures !Matches(LabelRow, padded)
    ensures CompareDesc(AttributeDesc(NotFound, padded), LabelRow) < 0
  {
    OrderedAt(padded, LabelRow.desc, 0);
  }
}
