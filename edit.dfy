/** The password text and its cursor, as values. `insert(str, n)` of
    pinentry-dmenu.c either splices `n` bytes in at the cursor (n > 0) or
    removes `-n` bytes before it (n < 0), and does nothing at all when the
    result would not fit in the fixed buffer with its terminating NUL. */
module Edit {
  import opened Utf8

  /** sizeof text == BUFSIZ (8192 with glibc); one byte is the NUL. */
  const Capacity: nat := 8192

  /** The bytes before the buffer's NUL, and the byte offset of the cursor. */
  datatype Entry = Entry(text: seq<bv8>, cursor: nat)

  predicate NulFree(s: seq<bv8>) {
    forall i :: 0 <= i < |s| ==> s[i] != 0
  }

  /** What the buffer can hold: at most Capacity - 1 bytes, none of them
      NUL, and the cursor inside the text. */
  predicate WellFormed(e: Entry) {
    |e.text| <= Capacity - 1 && e.cursor <= |e.text| && NulFree(e.text)
  }

  /** The cursor is on a rune boundary and the text does not begin in the
      middle of a rune. */
  predicate Aligned(e: Entry) {
    OnBoundary(e.text, e.cursor) && (e.text == [] || !IsCont(e.text[0]))
  }

  /** A string typed or pasted in keeps the buffer aligned when it does not
      begin with a continuation byte (true of every valid UTF-8 string). */
  predicate StartsRune(b: seq<bv8>) {
    b == [] || !IsCont(b[0])
  }

  /** The text and cursor after insert(str, n). */
  function Insert(e: Entry, str: seq<bv8>, n: int): (r: Entry)
    requires e.cursor <= |e.text|
    requires n > 0 ==> n <= |str|
    requires n < 0 ==> -n <= e.cursor
    ensures |e.text| + n > Capacity - 1 ==> r == e
    ensures |e.text| + n <= Capacity - 1 ==> |r.text| == |e.text| + n && r.cursor == e.cursor + n
    ensures r.text[..if n < 0 then e.cursor + n else e.cursor] == e.text[..if n < 0 then e.cursor + n else e.cursor]
    ensures WellFormed(e) && (n > 0 ==> NulFree(str[..n])) ==> WellFormed(r)
  {
    var c := e.cursor;
    if |e.text| + n > Capacity - 1 then e
    else if n >= 0 then Entry(e.text[..c] + str[..n] + e.text[c..], c + n)
    else Entry(e.text[..c + n] + e.text[c..], c + n)
  }

  /** What insert(str, n) with n > 0 splices in is exactly `str[..n]`, placed
      at the old cursor and followed by the old suffix. */
  lemma InsertSplices(e: Entry, str: seq<bv8>, n: int)
    requires e.cursor <= |e.text| && 0 < n <= |str| && |e.text| + n <= Capacity - 1
    ensures Insert(e, str, n).text[e.cursor..e.cursor + n] == str[..n]
    ensures Insert(e, str, n).text[e.cursor + n..] == e.text[e.cursor..]
  {
  }

  /** Removing what was just inserted gives back the original text and
      cursor: insert(str, n) followed by insert(NULL, -n). */
  lemma {:induction false} InsertThenRemove(e: Entry, str: seq<bv8>, n: int)
    requires e.cursor <= |e.text| && 0 < n <= |str| && |e.text| + n <= Capacity - 1
    ensures Insert(Insert(e, str, n), [], -n) == e
  {
    var c := e.cursor;
    var m := Insert(e, str, n);
    assert m.text == e.text[..c] + str[..n] + e.text[c..];
    assert m.text[..c] == e.text[..c];
    assert m.text[c + n..] == e.text[c..];
    assert m.text[..c] + m.text[c + n..] == e.text;
  }

  /** Reinserting the bytes that a removal took out gives back the original
      text and cursor. */
  lemma {:induction false} RemoveThenReinsert(e: Entry, k: int)
    requires e.cursor <= |e.text| <= Capacity - 1 && 0 < k <= e.cursor
    ensures Insert(Insert(e, [], -k), e.text[e.cursor - k..e.cursor], k) == e
  {
    var c := e.cursor;
    var m := Insert(e, [], -k);
    assert m.text == e.text[..c - k] + e.text[c..];
    assert m.text[..c - k] == e.text[..c - k];
    assert m.text[c - k..] == e.text[c..];
    var gone := e.text[c - k..c];
    assert e.text == e.text[..c - k] + gone + e.text[c..];
  }

  /** Inserting one rune at an aligned cursor and removing the rune before
      the cursor takes out exactly the bytes inserted. */
  lemma RuneInsertThenRemove(e: Entry, r: seq<bv8>)
    requires e.cursor <= |e.text| && IsRune(r) && |e.text| + |r| <= Capacity - 1
    ensures PrevRuneStart(Insert(e, r, |r|).text, e.cursor + |r|) == e.cursor
    ensures Insert(Insert(e, r, |r|), [], e.cursor - (e.cursor + |r|)) == e
  {
    var m := Insert(e, r, |r|);
    InsertSplices(e, r, |r|);
    assert r[..|r|] == r;
    PrevRuneStartAfterRune(m.text, e.cursor, r);
    InsertThenRemove(e, r, |r|);
  }

  /** An insertion that fits keeps the buffer aligned when the inserted
      string starts a rune. */
  lemma InsertKeepsAligned(e: Entry, str: seq<bv8>, n: nat)
    requires WellFormed(e) && Aligned(e) && n <= |str| && StartsRune(str[..n])
    ensures Aligned(Insert(e, str, n))
  {
    var c := e.cursor;
    var r := Insert(e, str, n);
    if |e.text| + n <= Capacity - 1 && n > 0 {
      assert r.text == e.text[..c] + str[..n] + e.text[c..];
      if c < |e.text| {
        assert r.text[c + n] == e.text[c];
      }
      if c == 0 {
        assert r.text[0] == str[0];
      } else {
        assert r.text[0] == e.text[0];
      }
    }
  }

  /** Removing the bytes between a boundary `p` and the aligned cursor keeps
      the buffer aligned. */
  lemma RemoveKeepsAligned(e: Entry, p: int)
    requires WellFormed(e) && Aligned(e) && 0 <= p < e.cursor && OnBoundary(e.text, p)
    ensures Aligned(Insert(e, [], p - e.cursor))
  {
    var c := e.cursor;
    var r := Insert(e, [], p - c);
    assert r.text == e.text[..p] + e.text[c..];
    if c < |e.text| {
      assert r.text[p] == e.text[c];
    }
    if p > 0 {
      assert r.text[0] == e.text[0];
    }
  }
}
