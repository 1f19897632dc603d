/**
 C strings and ASCII case folding, as seen by POSIX `strcasecmp` in the C locale.

 A C string is the sequence of bytes before its NUL terminator, so none of its
 bytes is 0. Reading one position past the end yields the terminator.
 */
module CStrings {

  /** An `unsigned char`. */
  type Byte = x: int | 0 <= x < 256

  /** The bytes of a NUL-terminated string, without the terminator. */
  type CStr = s: seq<Byte> | forall i | 0 <= i < |s| :: s[i] != 0

  const Nul: Byte := 0

  predicate IsUpper(c: Byte) {
    0x41 <= c <= 0x5A
  }

  /** `tolower` in the C locale: only the 26 ASCII capitals change. */
  function ToLower(c: Byte): (r: Byte)
    ensures !IsUpper(r)
    ensures r != c ==> IsUpper(c) && r == c + 0x20
    ensures r == 0 <==> c == 0
    ensures c >= 0x80 ==> r == c
  {
    if IsUpper(c) then c + 0x20 else c
  }

  /** The byte a C loop reads at index `i`: the terminator once `i` reaches the end. */
  function At(s: CStr, i: nat): (c: Byte)
    ensures c == 0 <==> i >= |s|
  {
    if i < |s| then s[i] else Nul
  }

  /** The string with every byte folded to lower case. */
  function FoldStr(s: CStr): (f: CStr)
    ensures |f| == |s|
    ensures forall i | 0 <= i < |s| :: f[i] == ToLower(s[i])
  {
    if |s| == 0 then [] else [ToLower(s[0])] + FoldStr(s[1..])
  }

  /** Two bytes that `strcasecmp` does not tell apart. */
  predicate SameIgnoringCase(c: Byte, d: Byte) {
    ToLower(c) == ToLower(d)
  }

  /** Folding identifies a byte only with itself or with its other-case ASCII letter. */
  lemma SameIgnoringCaseIff(c: Byte, d: Byte)
    ensures SameIgnoringCase(c, d) <==>
              c == d || (IsUpper(c) && d == c + 0x20) || (IsUpper(d) && c == d + 0x20)
  {
  }

  /** Folding twice is folding once. */
  lemma {:induction false} FoldStrIdempotent(s: CStr)
    ensures FoldStr(FoldStr(s)) == FoldStr(s)
  {
    var f := FoldStr(s);
    assert |FoldStr(f)| == |f|;
    forall i | 0 <= i < |f|
      ensures FoldStr(f)[i] == f[i]
    {
    }
  }

  /** Two strings fold to the same string exactly when they agree byte for byte up to case. */
  lemma {:induction false} FoldStrEqIff(a: CStr, b: CStr)
    ensures FoldStr(a) == FoldStr(b) <==>
              |a| == |b| && forall i | 0 <= i < |a| :: SameIgnoringCase(a[i], b[i])
  {
    if |a| == |b| && forall i | 0 <= i < |a| :: SameIgnoringCase(a[i], b[i]) {
      assert forall i | 0 <= i < |a| :: FoldStr(a)[i] == FoldStr(b)[i];
    }
  }
}
