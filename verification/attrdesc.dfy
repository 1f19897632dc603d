/** A minimal Option, the `NULL`-or-pointer result of `bsearch`. */
module Wrappers {
  datatype Option<+T> = None | Some(value: T)
}

/**
 The attribute-name resolver of lib/pkcs11_attrdesc.c: a table of
 `{type, desc}` pairs kept in `strcasecmp` order, searched with `bsearch`.

 The table is a parameter rather than the generated list of PKCS#11 constants.
 */
module AttrDesc {
  import opened Wrappers
  import opened CStrings
  import opened StrCaseCmp

  /** A `CK_ATTRIBUTE_TYPE`, taken as a 32-bit unsigned code. */
  type AttributeType = x: int | 0 <= x < 0x1_0000_0000

  /** The "no such attribute" answer, and the placeholder type of the probe. */
  const NotFound: AttributeType := 0xFFFF_FFFF

  /** One table row: a numeric attribute type and its textual name. */
  datatype AttributeDesc = AttributeDesc(attrType: AttributeType, desc: CStr)

  /** The table comparator: `strcasecmp` on the names, the types play no part. */
  function CompareDesc(a: AttributeDesc, b: AttributeDesc): (c: int)
    ensures c == 0 <==> FoldStr(a.desc) == FoldStr(b.desc)
    ensures c == -CaseCmp(b.desc, a.desc)
  {
    CaseCmpZeroIff(a.desc, b.desc);
    CaseCmpAntisymmetric(a.desc, b.desc);
    CaseCmp(a.desc, b.desc)
  }

  /** Row `e` is the attribute the caller named, ignoring ASCII case. */
  predicate Matches(e: AttributeDesc, name: CStr) {
    FoldStr(e.desc) == FoldStr(name)
  }

  /** The functional specification of the lookup: some row carries the name. */
  ghost predicate Present(table: seq<AttributeDesc>, name: CStr) {
    exists i | 0 <= i < |table| :: Matches(table[i], name)
  }

  /** Ascending under the comparator, duplicates allowed: what `bsearch` needs. */
  predicate Sorted(table: seq<AttributeDesc>) {
    forall i, j | 0 <= i < j < |table| :: CompareDesc(table[i], table[j]) <= 0
  }

  /** Every neighbour strictly after its predecessor: sorted with no two names
      equal up to case, the shape the generated table is meant to have. */
  predicate StrictlyAscending(table: seq<AttributeDesc>) {
    forall i | 0 <= i < |table| - 1 :: CompareDesc(table[i], table[i + 1]) < 0
  }

  /** No row uses the value that the lookup reserves for "not found". */
  predicate NoSentinel(table: seq<AttributeDesc>) {
    forall i | 0 <= i < |table| :: table[i].attrType != NotFound
  }

  /**
   The C library's `bsearch` over `base[lo..hi]`, calling the comparator as
   `compar(key, element)`: halve at `(lo + hi) / 2`, go left on a negative
   answer, right on a positive one, stop on zero. The answer is an index, or
   `None` for `NULL`.
   */
  function Bsearch(key: AttributeDesc, base: seq<AttributeDesc>, lo: nat, hi: nat): (r: Option<nat>)
    requires lo <= hi <= |base|
    ensures r.Some? ==> lo <= r.value < hi && CompareDesc(key, base[r.value]) == 0
    decreases hi - lo
  {
    if lo >= hi then None
    else
      var mid := (lo + hi) / 2;
      var c := CompareDesc(key, base[mid]);
      if c < 0 then Bsearch(key, base, lo, mid)
      else if c > 0 then Bsearch(key, base, mid + 1, hi)
      else Some(mid)
  }

  /** The probe the lookup hands to `bsearch`: the placeholder type and the name. */
  function Probe(name: CStr): (p: AttributeDesc)
    ensures p.desc == name && p.attrType == NotFound
    ensures Matches(p, name)
  {
    AttributeDesc(NotFound, name)
  }

  /**
   `get_attribute_type_from_name` as a pure function: search the whole table
   with the probe, return the found row's type or the sentinel. A miss always
   yields the sentinel and a hit is always a row with that name, whatever the
   table; finding every present name needs the table sorted
   (`LookupComplete`).
   */
  function AttributeTypeFromName(table: seq<AttributeDesc>, name: CStr): (r: AttributeType)
    ensures !Present(table, name) ==> r == NotFound
    ensures r != NotFound ==> exists i | 0 <= i < |table| :: Matches(table[i], name) && table[i].attrType == r
  {
    match Bsearch(Probe(name), table, 0, |table|)
    case Some(i) => table[i].attrType
    case None => NotFound
  }

  /** If a row with the name lies in the searched range of a sorted table,
      `bsearch` does not come back empty. */
  lemma {:induction false} BsearchComplete(key: AttributeDesc, base: seq<AttributeDesc>, lo: nat, hi: nat, i: nat)
    requires Sorted(base)
    requires lo <= i < hi <= |base|
    requires CompareDesc(key, base[i]) == 0
    ensures Bsearch(key, base, lo, hi).Some?
    decreases hi - lo
  {
    var mid := (lo + hi) / 2;
    var c := CompareDesc(key, base[mid]);
    if c < 0 {
      if mid <= i {
        // key < base[mid] <= base[i], contradicting key == base[i]
        CaseCmpTransitive(key.desc, base[mid].desc, base[i].desc);
        assert false;
      }
      BsearchComplete(key, base, lo, mid, i);
    } else if c > 0 {
      if i <= mid {
        // base[i] <= base[mid] < key
        CaseCmpTransitive(base[i].desc, base[mid].desc, key.desc);
        assert false;
      }
      BsearchComplete(key, base, mid + 1, hi, i);
    }
  }

  /** The search outcome depends on the probe only through its name up to case:
      neither the placeholder type nor the spelling's case changes a step. */
  lemma {:induction false} BsearchKeyInvariant(k1: AttributeDesc, k2: AttributeDesc, base: seq<AttributeDesc>, lo: nat, hi: nat)
    requires FoldStr(k1.desc) == FoldStr(k2.desc)
    requires lo <= hi <= |base|
    ensures Bsearch(k1, base, lo, hi) == Bsearch(k2, base, lo, hi)
    decreases hi - lo
  {
    if lo < hi {
      var mid := (lo + hi) / 2;
      CaseCmpFoldInvariant(k1.desc, k2.desc, base[mid].desc);
      BsearchKeyInvariant(k1, k2, base, lo, mid);
      BsearchKeyInvariant(k1, k2, base, mid + 1, hi);
    }
  }

  /** In a sorted table every present name is found, and the answer is the
      type of some row with that name; with no row using the sentinel, the
      sentinel then means exactly "absent". */
  lemma {:induction false} LookupComplete(table: seq<AttributeDesc>, name: CStr)
    requires Sorted(table)
    ensures Present(table, name) ==>
              exists i | 0 <= i < |table| :: Matches(table[i], name) && table[i].attrType == AttributeTypeFromName(table, name)
    ensures NoSentinel(table) ==> (AttributeTypeFromName(table, name) == NotFound <==> !Present(table, name))
  {
    if Present(table, name) {
      var i :| 0 <= i < |table| && Matches(table[i], name);
      BsearchComplete(Probe(name), table, 0, |table|, i);
    }
  }

  /** Names equal up to ASCII case resolve identically, in any table. */
  lemma {:induction false} LookupCaseInsensitive(table: seq<AttributeDesc>, a: CStr, b: CStr)
    requires FoldStr(a) == FoldStr(b)
    ensures AttributeTypeFromName(table, a) == AttributeTypeFromName(table, b)
  {
    BsearchKeyInvariant(Probe(a), Probe(b), table, 0, |table|);
  }

  /** The placeholder type in the probe never influences the search. */
  lemma {:induction false} ProbeTypeIrrelevant(table: seq<AttributeDesc>, name: CStr, t: AttributeType)
    ensures Bsearch(AttributeDesc(t, name), table, 0, |table|) == Bsearch(Probe(name), table, 0, |table|)
  {
    BsearchKeyInvariant(AttributeDesc(t, name), Probe(name), table, 0, |table|);
  }

  /** Neighbour order is enough: a strictly ascending table is strictly ordered
      between any two rows, hence sorted. */
  lemma {:induction false} StrictlyAscendingOrdersAll(table: seq<AttributeDesc>, i: nat, j: nat)
    requires StrictlyAscending(table)
    requires i < j < |table|
    ensures CompareDesc(table[i], table[j]) < 0
    decreases j - i
  {
    if i + 1 < j {
      StrictlyAscendingOrdersAll(table, i + 1, j);
      CaseCmpTransitive(table[i].desc, table[i + 1].desc, table[j].desc);
    }
  }

  lemma {:induction false} StrictlyAscendingIsSorted(table: seq<AttributeDesc>)
    requires StrictlyAscending(table)
    ensures Sorted(table)
  {
    forall i, j | 0 <= i < j < |table|
      ensures CompareDesc(table[i], table[j]) <= 0
    {
      StrictlyAscendingOrdersAll(table, i, j);
    }
  }

  /** In a strictly ascending table each row's name, in any case spelling,
      resolves to exactly that row's type. */
  lemma {:induction false} LookupFindsRow(table: seq<AttributeDesc>, i: nat, name: CStr)
    requires StrictlyAscending(table)
    requires i < |table|
    requires Matches(table[i], name)
    ensures AttributeTypeFromName(table, name) == table[i].attrType
  {
    StrictlyAscendingIsSorted(table);
    BsearchComplete(Probe(name), table, 0, |table|, i);
    var j := Bsearch(Probe(name), table, 0, |table|).value;
    if j != i {
      if i < j {
        StrictlyAscendingOrdersAll(table, i, j);
      } else {
        StrictlyAscendingOrdersAll(table, j, i);
      }
      assert false;
    }
  }

  /**
   `get_attribute_type_from_name` as the C code runs it, with `bsearch`
   inlined as a loop over the whole table (`array_size` rows).
   */
  method GetAttributeTypeFromName(table: seq<AttributeDesc>, name: CStr) returns (retval: AttributeType)
    ensures !Present(table, name) ==> retval == NotFound
    ensures retval != NotFound ==>
              exists i | 0 <= i < |table| :: Matches(table[i], name) && table[i].attrType == retval
    ensures Sorted(table) && Present(table, name) ==>
              exists i | 0 <= i < |table| :: Matches(table[i], name) && table[i].attrType == retval
    ensures Sorted(table) && NoSentinel(table) ==> (retval == NotFound <==> !Present(table, name))
    ensures retval == AttributeTypeFromName(table, name)
  {
    retval := NotFound;
    var candidate := Probe(name);
    var lo, hi := 0, |table|;
    var found: Option<nat> := None;
    while lo < hi
      invariant 0 <= lo <= hi <= |table|
      invariant Bsearch(candidate, table, lo, hi) == Bsearch(candidate, table, 0, |table|)
      decreases hi - lo
    {
      var mid := (lo + hi) / 2;
      var c := CompareDesc(candidate, table[mid]);
      if c < 0 {
        hi := mid;
      } else if c > 0 {
        lo := mid + 1;
      } else {
        found := Some(mid);
        break;
      }
    }
    if found.Some? {
      retval := table[found.value].attrType;
    }
    ghost var sorted := Sorted(table);
    if sorted {
      LookupComplete(table, name);
    }
  }
}
