/** The masked string drawwin() of pinentry-dmenu.c shows instead of the
    password: a zeroed buffer of strlen(asterisk) * sizeof text bytes
    (ecalloc), one copy of `asterisk` per byte of the text, and a '\n'
    written at index i + 1 after the loop. The cursor is drawn at the width
    of the first cursor * strlen(asterisk) bytes of it. */
module Mask {
  import opened Edit
  import Keys
  import KeyLemmas
  import PinEntry

  /** `n` copies of `s`, one after another. */
  function Repeat(s: seq<bv8>, n: nat): (r: seq<bv8>)
    ensures |r| == n * |s|
  {
    if n == 0 then [] else Repeat(s, n - 1) + s
  }

  /** The masked string for the first `m` bytes of the text is a prefix of
      the masked string for the whole text: the cursor offset
      cursor * strlen(asterisk) lands after exactly `cursor` asterisks. */
  lemma {:induction false} RepeatPrefix(s: seq<bv8>, m: nat, n: nat)
    requires m <= n
    ensures m * |s| <= n * |s|
    ensures Repeat(s, n)[..m * |s|] == Repeat(s, m)
    decreases n
  {
    if m < n {
      RepeatPrefix(s, m, n - 1);
      assert m * |s| <= (n - 1) * |s|;
      assert Repeat(s, n) == Repeat(s, n - 1) + s;
      assert Repeat(s, n)[..m * |s|] == Repeat(s, n - 1)[..m * |s|];
    }
  }

  /** A NUL-free asterisk gives a NUL-free mask, so the C string drw_text
      receives is the whole mask. */
  lemma {:induction false} RepeatNulFree(s: seq<bv8>, n: nat)
    requires NulFree(s)
    ensures NulFree(Repeat(s, n))
    decreases n
  {
    if n > 0 {
      RepeatNulFree(s, n - 1);
      var r := Repeat(s, n);
      assert r == Repeat(s, n - 1) + s;
      forall i | 0 <= i < |r|
        ensures r[i] != 0
      {
        if i < |Repeat(s, n - 1)| {
          assert r[i] == Repeat(s, n - 1)[i];
        } else {
          assert r[i] == s[i - |Repeat(s, n - 1)|];
        }
      }
    }
  }

  /** a * k + a <= a * n when k < n. */
  lemma {:induction false} StepWithin(a: nat, k: nat, n: nat)
    ensures k < n ==> a * k + a <= a * n
    ensures a > 0 && a * k < a * n ==> k < n
    decreases n - k
  {
    assert a * (k + 1) == a * k + a;
    if k + 1 < n {
      StepWithin(a, k + 1, n);
    }
  }

  /** drawwin()'s masking loop on a zeroed buffer: one copy of the
      asterisk string per byte of the text, from offset 0, each copy
      asterlen bytes after the previous one; `i` ends after the last copy. */
  method FillMask(censort: array<bv8>, len: nat, asterisk: seq<bv8>) returns (i: nat)
    requires |asterisk| * len < censort.Length
    requires forall j :: 0 <= j < censort.Length ==> censort[j] == 0
    modifies censort
    ensures i == |asterisk| * len
    ensures censort[..i] == Repeat(asterisk, len)
    ensures forall j :: i <= j < censort.Length ==> censort[j] == 0
  {
    var a := |asterisk|;
    if a == 0 {
      return 0;
    }
    i := 0;
    ghost var k := 0;
    while i < a * len
      invariant 0 <= k <= len && i == a * k
      invariant censort[..i] == Repeat(asterisk, k)
      invariant forall j :: i <= j < censort.Length ==> censort[j] == 0
    {
      StepWithin(a, k, len);
      ghost var before := censort[..i];
      forall j | 0 <= j < a {
        censort[i + j] := asterisk[j];
      }
      assert censort[..i + a] == before + asterisk by {
        assert censort[..i + a][..i] == before;
        assert censort[..i + a][i..] == asterisk;
      }
      i, k := i + a, k + 1;
    }
    assert k == len by {
      if k < len {
        StepWithin(a, k, len);
      }
    }
  }

  /** drawwin()'s mask as written: the '\n' at index i + 1 is only inside
      the asterlen * sizeof text bytes the buffer has when the requires
      holds. */
  method CensorAsWritten(len: nat, asterisk: seq<bv8>) returns (censort: array<bv8>)
    requires len <= Capacity - 1
    requires |asterisk| * len + 1 < |asterisk| * Capacity
    ensures fresh(censort) && censort.Length == |asterisk| * Capacity
    ensures censort[..|asterisk| * len] == Repeat(asterisk, len)
    ensures censort[|asterisk| * len] == 0 && censort[|asterisk| * len + 1] == 0x0A
  {
    censort := new bv8[|asterisk| * Capacity](_ => 0);
    var i := FillMask(censort, len, asterisk);
    censort[i + 1] := 0x0A;
  }

  /** The '\n' at index strlen(asterisk) * strlen(text) + 1 falls outside
      the strlen(asterisk) * sizeof text bytes of censort exactly when the
      asterisk is empty (the buffer is empty, every text) or is one byte and
      the text is full (strlen(text) == sizeof text - 1). A longer asterisk
      always leaves room: with three bytes and a full text, 24574 < 24576. */
  lemma NewlineOutOfBounds(asterlen: nat, len: nat)
    requires len <= Capacity - 1
    ensures !(asterlen * len + 1 < asterlen * Capacity)
      <==> asterlen == 0 || (asterlen == 1 && len == Capacity - 1)
  {
    assert asterlen * Capacity - asterlen * len == asterlen * (Capacity - len);
    if asterlen >= 2 {
      assert asterlen * (Capacity - len) >= 2;
    }
  }

  /** A full text is reachable, and then CensorAsWritten's bound fails for
      a one-byte asterisk: typing sizeof text - 1 ordinary bytes 'a' into
      the empty text (as each request starts) fills it, and so does an
      unsolicited UTF8_STRING selection of that many bytes. */
  lemma FullTextReachable(cntrl: bv8 -> bool)
    requires !cntrl(0x61)
    ensures var full := seq(Capacity - 1, _ => 0x61 as bv8);
      var typed := seq(Capacity - 1, _ => Keys.KeyPressed(Keys.KeyEvent(Keys.Other, [0x61], false)));
      var st := Keys.State(Entry([], 0), false, false);
      && Keys.TypedBytesNulFree(Keys.WinPin, typed, cntrl)
      && Keys.Run(Keys.WinPin, st, typed, cntrl) == (st.(entry := Entry(full, Capacity - 1)), Capacity - 1, false)
      && Keys.PasteStep(Entry([], 0), full) == Entry(full, Capacity - 1)
      && !(1 * |full| + 1 < 1 * Capacity)
  {
    var full := seq(Capacity - 1, _ => 0x61 as bv8);
    assert seq(0, _ => 0x61 as bv8) == [];
    KeyLemmas.TypingFills(0, Capacity - 1, Keys.State(Entry([], 0), false, false), cntrl);
    assert 0x0A !in full && 0 !in full by {
      assert forall i :: 0 <= i < |full| ==> full[i] == 0x61;
    }
    KeyLemmas.PasteInsertsFirstLine(Entry([], 0), full);
    assert [] + full + [] == full;
  }

  /** The mask with room for its terminator: asterlen * sizeof text + 1
      zeroed bytes, no write after the terminator. For every text the
      buffer holds, the C string drawn is exactly one asterisk per byte. */
  method Censor(len: nat, asterisk: seq<bv8>) returns (censort: array<bv8>)
    requires len <= Capacity - 1 && NulFree(asterisk)
    ensures fresh(censort) && censort.Length == |asterisk| * Capacity + 1
    ensures censort[..|asterisk| * len] == Repeat(asterisk, len) && censort[|asterisk| * len] == 0
    ensures NulFree(censort[..|asterisk| * len])
  {
    StepWithin(|asterisk|, len, Capacity);
    censort := new bv8[|asterisk| * Capacity + 1](_ => 0);
    var i := FillMask(censort, len, asterisk);
    RepeatNulFree(asterisk, len);
  }

  /** The mask counts bytes, not runes: for the one rune "é" (C3 A9) the
      corrected mask with asterisk "*" is a C string of two asterisks. */
  method MaskCountsBytes() returns (shown: seq<bv8>)
    ensures shown == [0x2A, 0x2A]
  {
    var text: seq<bv8> := [0xC3, 0xA9];
    var censort := Censor(|text|, [0x2A]);
    assert Repeat([0x2A], 1) == [0x2A];
    PinEntry.StrLenAt(censort[..], |text|);
    shown := censort[..PinEntry.StrLen(censort[..])];
  }
}
