/** Rune boundaries in a UTF-8 byte string (section 3 of RFC 3629).
    The password buffer is edited byte by byte, but cursor movement and
    deletion step over whole runes by skipping continuation bytes. */
module Utf8 {

  /** A continuation byte has the bit pattern 10xxxxxx. */
  predicate IsCont(b: bv8) {
    b & 0xC0 == 0x80
  }

  /** Offset `c` of `s` is a rune boundary: the start, the end, or a byte
      that begins a rune. */
  predicate OnBoundary(s: seq<bv8>, c: int) {
    0 <= c <= |s| && (c == 0 || c == |s| || !IsCont(s[c]))
  }

  /** Where nextrune(c, -1) lands: the largest offset below `c` that is
      0 or holds a byte that is not a continuation byte. */
  function PrevRuneStart(s: seq<bv8>, c: int): (p: int)
    requires 0 < c <= |s|
    ensures 0 <= p < c
    ensures p == 0 || !IsCont(s[p])
    ensures forall q :: p < q < c ==> IsCont(s[q])
    decreases c
  {
    if c - 1 == 0 || !IsCont(s[c - 1]) then c - 1 else PrevRuneStart(s, c - 1)
  }

  /** Where nextrune(c, +1) lands: the smallest offset above `c` that is
      the end of `s` or holds a byte that is not a continuation byte. */
  function NextRuneStart(s: seq<bv8>, c: int): (p: int)
    requires 0 <= c < |s|
    ensures c < p <= |s|
    ensures p == |s| || !IsCont(s[p])
    ensures forall q :: c < q < p ==> IsCont(s[q])
    decreases |s| - c
  {
    if c + 1 == |s| || !IsCont(s[c + 1]) then c + 1 else NextRuneStart(s, c + 1)
  }

  /** Moving left lands on a boundary, and moving right from there comes
      back: from a boundary, Left then Right is the identity. */
  lemma LeftThenRight(s: seq<bv8>, c: int)
    requires OnBoundary(s, c) && 0 < c
    ensures OnBoundary(s, PrevRuneStart(s, c))
    ensures NextRuneStart(s, PrevRuneStart(s, c)) == c
  {
  }

  /** From a boundary that is not the end, Right then Left is the identity. */
  lemma RightThenLeft(s: seq<bv8>, c: int)
    requires OnBoundary(s, c) && c < |s|
    ensures OnBoundary(s, NextRuneStart(s, c))
    ensures PrevRuneStart(s, NextRuneStart(s, c)) == c
  {
  }

  /** The bytes of one rune: a leading byte followed only by continuation
      bytes. */
  predicate IsRune(r: seq<bv8>) {
    |r| > 0 && !IsCont(r[0]) && forall k :: 0 < k < |r| ==> IsCont(r[k])
  }

  /** A cursor placed right after a rune moves back over exactly that rune. */
  lemma PrevRuneStartAfterRune(s: seq<bv8>, c: int, r: seq<bv8>)
    requires 0 <= c && c + |r| <= |s| && IsRune(r) && s[c..c + |r|] == r
    ensures PrevRuneStart(s, c + |r|) == c
  {
    assert s[c] == r[0];
    assert forall q :: c < q < c + |r| ==> s[q] == r[q - c];
  }
}
