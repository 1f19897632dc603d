# PKCS#11 attribute-name resolver

A Dafny model of the attribute-name resolver of pkcs11-tools
(`lib/pkcs11_attrdesc.c`). The resolver turns a textual PKCS#11 attribute
name such as `CKA_LABEL` into its numeric `CK_ATTRIBUTE_TYPE`. It keeps a
static table of `{type, desc}` rows ordered by `strcasecmp` on `desc`, and
looks a name up with the C library's `bsearch`. A miss yields the sentinel
`0xFFFFFFFF`.

Files and modules:

- `cstrings.dfy`, module `CStrings`: C strings as byte sequences without NUL,
  the terminator read past the end, and ASCII `tolower` in the C locale.
- `strcasecmp.dfy`, module `StrCaseCmp`: `strcasecmp` as the C loop computes
  it. It comes with its properties: equality up to case, antisymmetry,
  transitivity, and agreement with the lexicographic order on folded names.
- `attrdesc.dfy`, modules `Wrappers` and `AttrDesc`: the `AttributeDesc` row,
  the comparator `compare_CKA_desc`, `bsearch` over a range, and
  `get_attribute_type_from_name`. The lookup exists as a pure function and as
  the loop the C code runs. Both carry soundness, completeness and
  case-insensitivity results.
- `scenarios.dfy`, module `Scenarios`: concrete names from the PKCS#11
  standard (`CKA_LABEL`, `CKA_CLASS`, `CKA_EC_PARAMS`, `CKA_ECDSA_PARAMS`) and
  what the resolver does with them.

Design decisions:

- The table is a parameter. Soundness holds for any table: a non-sentinel
  answer is the type of a row whose name equals the input up to ASCII case,
  and a name that no row carries gets the sentinel. The reason is that
  `bsearch` only ever returns an element that compared equal.
- Completeness needs the table sorted under the comparator. This is the
  `bsearch` precondition, and the lookup then finds every present name.
  Reading the sentinel as "absent" also needs a second hypothesis, that no row
  has type `0xFFFFFFFF` (`NoSentinel`). The code relies on it but never checks
  it.
- When two rows are equal up to case, the lookup returns the type of *some*
  matching row, as `bsearch` does. If the table is strictly ascending, each
  name resolves to exactly its own row's type (`AttrDesc.LookupFindsRow`).
- `strcasecmp` follows the glibc loop (musl's is the same): take
  `tolower(c1) - tolower(c2)` at each index, and stop at the first nonzero
  difference or at the end of the first string. POSIX specifies only the sign
  of the result. Three properties here state exact values and hold for this
  loop but not for every conforming `strcasecmp`: the bound
  `-0xFF <= r <= 0xFF` (`StrCaseCmp.CaseCmp`), exact negation on swapped
  arguments (`StrCaseCmp.CaseCmpAntisymmetric`), and an unchanged result under
  case-only respelling (`StrCaseCmp.CaseCmpFoldInvariant`, which
  `AttrDesc.BsearchKeyInvariant` builds on). The other properties concern the
  sign alone. Folding is to lower case, so `_` (0x5F) sorts before every
  letter.
- `bsearch` follows glibc: `lo = 0`, `hi = n`, probe `(lo + hi) / 2`, and call
  the comparator as `compar(key, element)`.
- Sortedness and uniqueness of the table are not checked by the code. They
  are hypotheses of the completeness lemmas, not runtime checks.

## Model

| member | source | states |
|---|---|---|
| CStrings.ToLower | lib/pkcs11_attrdesc.c:43 | Case folding never yields a capital. A byte changes only if it is one of `A`-`Z`, and then it moves up by 0x20. NUL stays NUL and bytes from 0x80 up are unchanged. |
| CStrings.SameIgnoringCaseIff | lib/pkcs11_attrdesc.c:43 | Two bytes fold alike exactly when they are equal or are the two cases of one ASCII letter. No other bytes are joined. |
| CStrings.FoldStr | lib/pkcs11_attrdesc.c:43 | The folded name has the same length, and each byte is the folded byte at the same index. |
| CStrings.FoldStrIdempotent | lib/pkcs11_attrdesc.c:43 | Folding a folded name changes nothing. |
| CStrings.FoldStrEqIff | lib/pkcs11_attrdesc.c:43 | Two names fold alike exactly when they have equal length and agree up to case at every index. |
| StrCaseCmp.CaseCmp | lib/pkcs11_attrdesc.c:43 | `strcasecmp` as the C loop runs it: at each index, take the difference of the folded bytes, reading NUL past the end of a name. It stops at the first nonzero difference, or with 0 when the first name ends. The result is a difference of two bytes, and 0 only for names of equal length. |
| StrCaseCmp.CaseCmpZeroIff | lib/pkcs11_attrdesc.c:43 | `strcasecmp` returns 0 exactly when the two names are equal after ASCII case folding. |
| StrCaseCmp.CaseCmpZeroIffBytewise | lib/pkcs11_attrdesc.c:43 | A zero result means equal length and equality up to ASCII case at every byte, and the converse holds. So there is no trimming and no other normalisation. |
| StrCaseCmp.CaseCmpAntisymmetric | lib/pkcs11_attrdesc.c:43 | Swapping the arguments negates the result, so the signs are opposite. |
| StrCaseCmp.CaseCmpReflexive | lib/pkcs11_attrdesc.c:43 | Every name compares equal to itself. |
| StrCaseCmp.CaseCmpTransitive | lib/pkcs11_attrdesc.c:43 | "At most" is transitive, and chaining it with "less than" gives "less than". Together with antisymmetry, the comparator is a total preorder usable for sorting. |
| StrCaseCmp.CaseCmpFoldInvariant | lib/pkcs11_attrdesc.c:43 | Replacing either argument by a spelling that differs only in ASCII case leaves the result unchanged. |
| StrCaseCmp.CaseCmpNegativeIff | lib/pkcs11_attrdesc.c:43 | A negative result holds exactly when the first name precedes the second in the lexicographic order on folded bytes, with a proper prefix first. |
| StrCaseCmp.PrefixComparesLess | lib/pkcs11_attrdesc.c:43 | A name that is a proper prefix of another, up to case, compares less than it. |
| AttrDesc.CompareDesc | lib/pkcs11_attrdesc.c:41-44 | The row comparator returns 0 exactly when the two `desc` names are equal up to case. Swapped rows give the negated result. The `type` fields take no part. |
| AttrDesc.Probe | lib/pkcs11_attrdesc.c:54 | The probe row is `{0xFFFFFFFF, name}`: the placeholder type and the caller's name, so it matches that name. |
| AttrDesc.Bsearch | lib/pkcs11_attrdesc.c:55 | The search ends because the range shrinks on every probe. A returned index lies in the searched range and its element compares equal to the key, whatever the table's order. |
| AttrDesc.BsearchComplete | lib/pkcs11_attrdesc.c:53-55 | In a sorted table, if an element in the searched range compares equal to the key, then `bsearch` does not return `NULL`. |
| AttrDesc.BsearchKeyInvariant | lib/pkcs11_attrdesc.c:54-55 | Two keys whose names are equal up to case take the same path and give the same answer. Their `type` fields may differ. |
| AttrDesc.ProbeTypeIrrelevant | lib/pkcs11_attrdesc.c:54-55 | The probe's placeholder type `0xFFFFFFFF` never influences the search. Any other type gives the same answer. |
| AttrDesc.AttributeTypeFromName | lib/pkcs11_attrdesc.c:48-60 | For any table, a name that no row carries up to case yields exactly `0xFFFFFFFF`. A result other than `0xFFFFFFFF` is the type of a row whose name equals the input up to case. |
| AttrDesc.LookupComplete | lib/pkcs11_attrdesc.c:51-59 | Searching a sorted table over its whole length finds every present name and returns the type of a matching row. If no row uses the sentinel, the sentinel is returned exactly when the name is absent. |
| AttrDesc.LookupCaseInsensitive | lib/pkcs11_attrdesc.c:41-55 | Inputs equal after ASCII lowercasing, such as `CKA_LABEL`, `cka_label` and `Cka_Label`, give the same result in any table. |
| AttrDesc.StrictlyAscendingOrdersAll | lib/pkcs11_attrdesc.c:33-37 | If every row is strictly above its predecessor, then every earlier row is strictly below every later one. |
| AttrDesc.StrictlyAscendingIsSorted | lib/pkcs11_attrdesc.c:33-37 | A table that ascends strictly from row to row is sorted in the sense `bsearch` requires. |
| AttrDesc.LookupFindsRow | lib/pkcs11_attrdesc.c:48-60 | In a strictly ascending table, every case spelling of a row's name resolves to exactly that row's type. |
| AttrDesc.GetAttributeTypeFromName | lib/pkcs11_attrdesc.c:48-60 | The loop over the whole table gives the sentinel for absent names. A non-sentinel answer is the type of a matching row. On a sorted table every present name is found. It returns the same value as the pure lookup, so repeated calls with the same input agree. |
| Scenarios.EcParamsSortsFirst | lib/pkcs11_attrdesc.c:43 | `CKA_EC_PARAMS` sorts before `CKA_ECDSA_PARAMS` under the comparator, although their raw capital bytes at index 6 order the other way. |
| Scenarios.ClassSortsBeforeLabel | lib/pkcs11_attrdesc.c:43 | `CKA_CLASS` sorts strictly before `CKA_LABEL`. |
| Scenarios.ResolvesLabelInAnyCase | lib/pkcs11_attrdesc.c:48-60 | `CKA_LABEL`, `cka_label` and `Cka_Label` resolve to the label code 0x3 in any strictly ascending table that has the `CKA_LABEL` row. |
| Scenarios.ResolvesClass | lib/pkcs11_attrdesc.c:48-60 | `CKA_CLASS` resolves to the object-class code 0x0, which differs from the label code. |
| Scenarios.ResolvesEcParams | lib/pkcs11_attrdesc.c:48-60 | `cka_ec_params` resolves to 0x180. |
| Scenarios.ResolvesEcdsaParams | lib/pkcs11_attrdesc.c:48-60 | `cka_ecdsa_params` resolves to the same code, 0x180. |
| Scenarios.EmptyNameNotFound | lib/pkcs11_attrdesc.c:51-59 | The empty name gets the sentinel from any table whose names are nonempty. |
| Scenarios.UnknownNameNotFound | lib/pkcs11_attrdesc.c:51-59 | `CKA_NOT_A_REAL_ATTRIBUTE` gets `0xFFFFFFFF` from any table in which the comparator finds no row equal to it. |
| Scenarios.PaddedNameDiffers | lib/pkcs11_attrdesc.c:43 | ` CKA_LABEL`, with a leading blank, does not match `CKA_LABEL` and compares below it. There is no trimming. |

## Left out

- Table contents: `_attrinfo.h` is not part of this model. The table is a parameter, and only a few real rows appear as scenarios.
- The build-time generator that produces and orders the table: it is external to the library. Its job appears only as the `Sorted`/`StrictlyAscending` hypotheses.
- Locale: `strcasecmp` is modelled in the C locale with ASCII folding only. Non-ASCII bytes compare as themselves.
- C mechanics: `void *` casts, `sizeof(_a)/sizeof(AttributeDesc)` and the comparator callback are not modelled. The search runs directly over a typed sequence whose length is the row count.
- Integer width: `CK_ATTRIBUTE_TYPE` is `CK_ULONG`, which is 64 bits wide on LP64 platforms. The model uses 32-bit codes. The sentinel is the literal `0xFFFFFFFF` in both cases, and only equality of codes matters.
- `bsearch` implementations differ between C libraries in the order of their probes. The model follows glibc. Any other correct `bsearch` satisfies the same soundness and completeness lemmas, but may choose a different row among duplicates.
- The rest of the library: sessions, token operations, shell and environment bootstrapping, and concurrency. None of it is in this file. The table is immutable and the lookup is pure, so concurrent callers cannot interfere.

## Design notes

- The code does not enforce the uniqueness of names up to case, or the absence of the sentinel as a row type. The model therefore keeps both as explicit hypotheses, and states the duplicate case as "the type of some matching row".
- The per-entry resolution property ("each row's name resolves to its code") holds only when names are unique up to case. It is therefore stated for strictly ascending tables (`AttrDesc.LookupFindsRow`). For merely sorted tables the model follows the code: the result is the type of some matching row.
