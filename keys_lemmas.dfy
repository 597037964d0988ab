/** What the key handling of pinentry-dmenu.c promises about the password
    text: edits move and delete whole runes, do nothing at the ends of the
    text, keep the cursor on a rune boundary, and the event loop stops at
    the first key that ends it. */
module KeyLemmas {
  import opened Utf8
  import opened Edit
  import opened Keys

  function Key(sym: KeySym): KeyEvent {
    KeyEvent(sym, [], false)
  }

  /** BackSpace at the start and Delete at the end change nothing and do
      not redraw; Left at the start and Right at the end change nothing. */
  lemma EditsAtEndsAreNoOps(e: Entry, cntrl: bv8 -> bool)
    requires WellFormed(e)
    ensures e.cursor == 0 ==> EditKey(e, Key(BackSpace), cntrl) == (e, false)
    ensures e.cursor == 0 ==> EditKey(e, Key(Left), cntrl) == (e, true)
    ensures e.cursor == |e.text| ==> EditKey(e, Key(Delete), cntrl) == (e, false)
    ensures e.cursor == |e.text| ==> EditKey(e, Key(Right), cntrl) == (e, true)
  {
  }

  /** BackSpace away from the start removes every byte of the rune before
      the cursor, and the cursor moves to where that rune began. */
  lemma BackSpaceRemovesRuneBefore(e: Entry, cntrl: bv8 -> bool)
    requires WellFormed(e) && 0 < e.cursor
    ensures var p := PrevRuneStart(e.text, e.cursor);
      EditKey(e, Key(BackSpace), cntrl) == (Entry(e.text[..p] + e.text[e.cursor..], p), true)
  {
  }

  /** Delete before the end removes the rune at the cursor and leaves the
      cursor where it was, provided the cursor is on a rune boundary. */
  lemma {:induction false} DeleteRemovesRuneAt(e: Entry, cntrl: bv8 -> bool)
    requires WellFormed(e) && Aligned(e) && e.cursor < |e.text|
    ensures var q := NextRuneStart(e.text, e.cursor);
      EditKey(e, Key(Delete), cntrl) == (Entry(e.text[..e.cursor] + e.text[q..], e.cursor), true)
  {
    RightThenLeft(e.text, e.cursor);
  }

  /** Off a rune boundary, Delete also eats the bytes before the cursor:
      with text [0x61, 0x80] and the cursor on the continuation byte, both
      bytes go and the cursor moves to 0. */
  lemma DeleteOffBoundary(cntrl: bv8 -> bool)
    ensures EditKey(Entry([0x61, 0x80], 1), Key(Delete), cntrl) == (Entry([], 0), true)
  {
    var s: seq<bv8> := [0x61, 0x80];
    assert NextRuneStart(s, 1) == 2;
    assert PrevRuneStart(s, 2) == 0;
    assert s[..0] + s[2..] == [];
  }

  /** Left and Right move by exactly one rune and undo each other. */
  lemma {:induction false} LeftRightUndo(e: Entry, cntrl: bv8 -> bool)
    requires WellFormed(e) && Aligned(e)
    ensures 0 < e.cursor ==>
      var l := EditKey(e, Key(Left), cntrl).0;
      l.cursor < e.cursor && EditKey(l, Key(Right), cntrl).0 == e
    ensures e.cursor < |e.text| ==>
      var r := EditKey(e, Key(Right), cntrl).0;
      r.cursor > e.cursor && EditKey(r, Key(Left), cntrl).0 == e
  {
    if 0 < e.cursor {
      LeftThenRight(e.text, e.cursor);
    }
    if e.cursor < |e.text| {
      RightThenLeft(e.text, e.cursor);
    }
  }

  /** Typing the bytes of one rune and pressing BackSpace gives back the
      text and cursor from before, whenever the rune fits. */
  lemma {:induction false} TypeThenBackSpace(e: Entry, r: seq<bv8>, cntrl: bv8 -> bool)
    requires WellFormed(e) && IsRune(r) && NulFree(r) && !cntrl(r[0]) && |e.text| + |r| <= Capacity - 1
    ensures var typed := EditKey(e, KeyEvent(Other, r, false), cntrl).0;
      typed.cursor == e.cursor + |r| && EditKey(typed, Key(BackSpace), cntrl).0 == e
  {
    RuneInsertThenRemove(e, r);
  }

  /** Delete keeps the cursor on a rune boundary. */
  lemma DeleteKeepsAligned(e: Entry, cntrl: bv8 -> bool)
    requires WellFormed(e) && Aligned(e)
    ensures Aligned(EditKey(e, Key(Delete), cntrl).0)
  {
    if e.cursor < |e.text| {
      RightThenLeft(e.text, e.cursor);
      RemoveKeepsAligned(e.(cursor := NextRuneStart(e.text, e.cursor)), e.cursor);
    }
  }

  /** BackSpace keeps the cursor on a rune boundary. */
  lemma BackSpaceKeepsAligned(e: Entry, cntrl: bv8 -> bool)
    requires WellFormed(e) && Aligned(e)
    ensures Aligned(EditKey(e, Key(BackSpace), cntrl).0)
  {
    if e.cursor > 0 {
      RemoveKeepsAligned(e, PrevRuneStart(e.text, e.cursor));
    }
  }

  /** Every password-mode edit keeps the cursor on a rune boundary, provided
      the bytes it inserts start a rune. */
  lemma {:induction false} EditKeyKeepsAligned(e: Entry, ev: KeyEvent, cntrl: bv8 -> bool)
    requires WellFormed(e) && Aligned(e) && (InsertsKeyBytes(ev, cntrl) ==> StartsRune(ev.bytes))
    ensures Aligned(EditKey(e, ev, cntrl).0)
  {
    match ev.sym
    case Delete =>
      DeleteKeepsAligned(e, cntrl);
      assert EditKey(e, ev, cntrl) == EditKey(e, Key(Delete), cntrl);
    case BackSpace =>
      BackSpaceKeepsAligned(e, cntrl);
      assert EditKey(e, ev, cntrl) == EditKey(e, Key(BackSpace), cntrl);
    case Left =>
    case Right =>
    case _ =>
      var b := ev.bytes;
      if |b| > 0 && !cntrl(b[0]) {
        assert b[..|b|] == b;
        InsertKeepsAligned(e, b, |b|);
      }
  }

  /** Every key press keeps the cursor on a rune boundary, provided the
      bytes it inserts start a rune. */
  lemma KeyStepKeepsAligned(mode: Mode, st: State, ev: KeyEvent, cntrl: bv8 -> bool)
    requires WellFormed(st.entry) && Aligned(st.entry) && (Typed(mode, ev, cntrl) ==> StartsRune(ev.bytes))
    ensures Aligned(KeyStep(mode, st, ev, cntrl).state.entry)
  {
    if mode == WinPin && !ev.overflow && ev.sym !in {Return, KPEnter, Escape} {
      EditKeyKeepsAligned(st.entry, ev, cntrl);
    }
  }

  /** The bytes an event inserts start a rune: a key press keypress types
      in, or a selection paste() receives in the UTF8_STRING property. */
  predicate InsertStartsRune(mode: Mode, ev: Event, cntrl: bv8 -> bool) {
    match ev
    case KeyPressed(k) => Typed(mode, k, cntrl) ==> StartsRune(k.bytes)
    case SelectionNotify(isUtf8, sel) => isUtf8 ==> StartsRune(PasteText(sel))
    case _ => true
  }

  /** Every event of the stream satisfies InsertStartsRune. */
  predicate InsertsStartRunes(mode: Mode, events: seq<Event>, cntrl: bv8 -> bool) {
    forall i :: 0 <= i < |events| ==> InsertStartsRune(mode, events[i], cntrl)
  }

  /** For any stream of events, the text stays within Capacity - 1 bytes
      and the cursor on a rune boundary. */
  lemma {:induction false} RunKeepsAligned(mode: Mode, st: State, events: seq<Event>, cntrl: bv8 -> bool)
    requires WellFormed(st.entry) && Aligned(st.entry)
    requires TypedBytesNulFree(mode, events, cntrl) && InsertsStartRunes(mode, events, cntrl)
    ensures var fin := Run(mode, st, events, cntrl).0;
      |fin.entry.text| <= Capacity - 1 && Aligned(fin.entry)
    decreases |events|
  {
    if events != [] {
      var ev := events[0];
      match ev {
        case KeyPressed(k) =>
          assert InsertStartsRune(mode, events[0], cntrl);
          KeyStepKeepsAligned(mode, st, k, cntrl);
        case SelectionNotify(isUtf8, sel) =>
          if isUtf8 {
            var t := PasteText(sel);
            assert InsertStartsRune(mode, events[0], cntrl);
            assert t[..|t|] == t;
            InsertKeepsAligned(st.entry, t, |t|);
          }
        case _ =>
      }
      var (st', done) := EventStep(mode, st, ev, cntrl);
      if !done {
        TypedBytesNulFreeTail(mode, events, 1, cntrl);
        assert InsertsStartRunes(mode, events[1..], cntrl) by {
          forall i | 0 <= i < |events[1..]|
            ensures events[1..][i] == events[i + 1]
          {
          }
        }
        RunKeepsAligned(mode, st', events[1..], cntrl);
      }
    }
  }

  /** Once a key press ends the loop, later events are never looked at. */
  lemma {:induction false} RunStopsAtEnd(mode: Mode, st: State, a: seq<Event>, b: seq<Event>, cntrl: bv8 -> bool)
    requires WellFormed(st.entry) && TypedBytesNulFree(mode, a, cntrl) && TypedBytesNulFree(mode, a + b, cntrl)
    requires Run(mode, st, a, cntrl).2
    ensures Run(mode, st, a + b, cntrl) == Run(mode, st, a, cntrl)
    decreases |a|
  {
    assert (a + b)[0] == a[0];
    var (st', done) := EventStep(mode, st, a[0], cntrl);
    if !done {
      assert (a + b)[1..] == a[1..] + b;
      TypedBytesNulFreeTail(mode, a, 1, cntrl);
      TypedBytesNulFreeTail(mode, a + b, 1, cntrl);
      RunStopsAtEnd(mode, st', a[1..], b, cntrl);
    }
  }

  /** "héllo" (é is the two bytes C3 A9) with the cursor right after é:
      BackSpace leaves "hllo" with the cursor at offset 1. */
  lemma HelloBackSpace(cntrl: bv8 -> bool)
    ensures EditKey(Entry([0x68, 0xC3, 0xA9, 0x6C, 0x6C, 0x6F], 3), Key(BackSpace), cntrl)
         == (Entry([0x68, 0x6C, 0x6C, 0x6F], 1), true)
  {
    var s: seq<bv8> := [0x68, 0xC3, 0xA9, 0x6C, 0x6C, 0x6F];
    assert PrevRuneStart(s, 3) == 1;
    assert s[..1] + s[3..] == [0x68, 0x6C, 0x6C, 0x6F];
  }

  /** LineLength is the index of the first '\n' or NUL. */
  lemma {:induction false} LineLengthAt(p: seq<bv8>, j: nat)
    requires j < |p| && (p[j] == 0x0A || p[j] == 0)
    requires forall i :: 0 <= i < j ==> p[i] != 0x0A && p[i] != 0
    ensures LineLength(p) == j
    decreases j
  {
    if j > 0 {
      assert p[0] != 0x0A && p[0] != 0;
      LineLengthAt(p[1..], j - 1);
    }
  }

  /** Pasting "pin\nrest" into an empty buffer inserts "pin". */
  lemma PasteFirstLine()
    ensures PasteStep(Entry([], 0), [0x70, 0x69, 0x6E, 0x0A, 0x72, 0x65, 0x73, 0x74])
         == Entry([0x70, 0x69, 0x6E], 3)
  {
    var sel: seq<bv8> := [0x70, 0x69, 0x6E, 0x0A, 0x72, 0x65, 0x73, 0x74];
    LineLengthAt(sel, 3);
    assert PasteText(sel) == sel[..3];
  }

  /** paste() inserts exactly the selection's first line when it fits, and
      nothing when it does not. */
  lemma PasteInsertsFirstLine(e: Entry, selection: seq<bv8>)
    requires WellFormed(e)
    ensures var t := PasteText(selection);
      && (|e.text| + |t| <= Capacity - 1 ==>
            PasteStep(e, selection) == Entry(e.text[..e.cursor] + t + e.text[e.cursor..], e.cursor + |t|))
      && (|e.text| + |t| > Capacity - 1 ==> PasteStep(e, selection) == e)
      && (|selection| <= PasteRequestBytes && 0x0A !in selection && 0 !in selection ==> t == selection)
  {
    var t := PasteText(selection);
    assert t[..|t|] == t;
  }

  /** Typing `m` more 'a's at the end of a text of `k` 'a's, one key press
      each, appends them while the text fits: the loop does not end, every
      press is consumed, and the flags are unchanged. */
  lemma {:induction false} TypingFills(k: nat, m: nat, st: State, cntrl: bv8 -> bool)
    requires k + m <= Capacity - 1 && !cntrl(0x61)
    requires st.entry == Entry(seq(k, _ => 0x61), k)
    ensures var evs := seq(m, _ => KeyPressed(KeyEvent(Other, [0x61], false)));
      TypedBytesNulFree(WinPin, evs, cntrl)
    ensures var evs := seq(m, _ => KeyPressed(KeyEvent(Other, [0x61], false)));
      Run(WinPin, st, evs, cntrl) == (st.(entry := Entry(seq(k + m, _ => 0x61), k + m)), m, false)
    decreases m
  {
    var ev := KeyPressed(KeyEvent(Other, [0x61], false));
    var evs := seq(m, _ => ev);
    assert forall i :: 0 <= i < |evs| ==> evs[i] == ev;
    if m > 0 {
      var a: seq<bv8> := seq(k, _ => 0x61);
      var a': seq<bv8> := seq(k + 1, _ => 0x61);
      assert a[..k] + [0x61][..1] + a[k..] == a';
      var st' := st.(entry := Entry(a', k + 1));
      assert Insert(st.entry, [0x61], 1) == st'.entry;
      assert EditKey(st.entry, ev.key, cntrl) == (st'.entry, true);
      assert PinKey(st, ev.key, cntrl) == KeyResult(st', false, true);
      assert EventStep(WinPin, st, ev, cntrl) == (st', false);
      assert evs[1..] == seq(m - 1, _ => ev);
      TypingFills(k + 1, m - 1, st', cntrl);
    }
  }

  /** Ctrl+Space looks up the single byte 0. Since iscntrl(0) holds, it
      is never inserted: a stream may hold it, and in password mode it only
      redraws the window. */
  lemma CtrlSpaceIgnored(st: State, cntrl: bv8 -> bool)
    requires WellFormed(st.entry) && cntrl(0)
    ensures var ev := KeyEvent(Other, [0], false);
      && TypedNulFree(WinPin, KeyPressed(ev), cntrl)
      && KeyStep(WinPin, st, ev, cntrl) == KeyResult(st, false, true)
  {
  }

  /** In confirm mode keypress inserts nothing, so every stream of events
      qualifies. */
  lemma ConfirmTypesNothing(events: seq<Event>, cntrl: bv8 -> bool)
    ensures TypedBytesNulFree(WinConfirm, events, cntrl)
  {
  }

  /** The key presses that make keypress return 1 in `mode`. */
  predicate EndsLoop(mode: Mode, ev: Event) {
    ev.KeyPressed? && !ev.key.overflow &&
    (ev.key.sym in {Return, KPEnter, Escape} ||
     (mode == WinConfirm && ev.key.sym in {LowerY, UpperY, LowerN, UpperN}))
  }

  /** One event of run(): it ends the loop exactly when EndsLoop says so;
      only Escape cancels; only a confirm-mode key that ends the loop
      touches `confirmed`. */
  lemma EventTable(mode: Mode, st: State, ev: Event, cntrl: bv8 -> bool)
    requires WellFormed(st.entry)
    requires TypedNulFree(mode, ev, cntrl)
    ensures var (st', done) := EventStep(mode, st, ev, cntrl);
      && (done <==> EndsLoop(mode, ev))
      && (!done ==> st'.canceled == st.canceled && st'.confirmed == st.confirmed)
      && (done ==> (st'.canceled <==> st.canceled || ev.key.sym == Escape))
      && (done && mode == WinPin ==> st'.confirmed == st.confirmed)
      && (done && mode == WinConfirm ==>
            (st'.confirmed <==> ev.key.sym in {Return, KPEnter, LowerY, UpperY}))
  {
    if ev.KeyPressed? {
      KeyTable(mode, st, ev.key, cntrl);
    }
  }

  /** run() returns exactly at the first key press that ends the loop. */
  lemma {:induction false} RunEndsAtFirst(mode: Mode, st: State, events: seq<Event>, cntrl: bv8 -> bool)
    requires WellFormed(st.entry) && TypedBytesNulFree(mode, events, cntrl)
    ensures var (fin, k, ended) := Run(mode, st, events, cntrl);
      && (forall i :: 0 <= i < k - 1 ==> !EndsLoop(mode, events[i]))
      && (ended <==> k > 0 && EndsLoop(mode, events[k - 1]))
    decreases |events|
  {
    if events != [] {
      var (st', done) := EventStep(mode, st, events[0], cntrl);
      EventTable(mode, st, events[0], cntrl);
      if !done {
        TypedBytesNulFreeTail(mode, events, 1, cntrl);
        RunEndsAtFirst(mode, st', events[1..], cntrl);
        var (fin, k, ended) := Run(mode, st', events[1..], cntrl);
        assert Run(mode, st, events, cntrl) == (fin, k + 1, ended);
        forall i | 0 <= i < k
          ensures !EndsLoop(mode, events[i])
        {
          if i > 0 {
            assert events[i] == events[1..][i - 1];
          }
        }
        if ended {
          assert events[k] == events[1..][k - 1];
        }
      } else {
        assert Run(mode, st, events, cntrl) == (st', 1, true);
      }
    }
  }

  /** What run() leaves in `canceled` and `confirmed`: the key that ends
      the loop is a key press; only it can cancel (Escape) and, in confirm
      mode, set `confirmed`; otherwise both flags are as they started. */
  lemma {:induction false} RunFlags(mode: Mode, st: State, events: seq<Event>, cntrl: bv8 -> bool)
    requires WellFormed(st.entry) && TypedBytesNulFree(mode, events, cntrl)
    ensures var (fin, k, ended) := Run(mode, st, events, cntrl);
      && (ended ==>
            && events[k - 1].KeyPressed?
            && (fin.canceled <==> st.canceled || events[k - 1].key.sym == Escape)
            && (mode == WinConfirm ==> (fin.confirmed <==> events[k - 1].key.sym in {Return, KPEnter, LowerY, UpperY})))
      && (!ended ==> fin.canceled == st.canceled)
      && (mode == WinPin || !ended ==> fin.confirmed == st.confirmed)
    decreases |events|
  {
    if events != [] {
      var (st', done) := EventStep(mode, st, events[0], cntrl);
      EventTable(mode, st, events[0], cntrl);
      if !done {
        TypedBytesNulFreeTail(mode, events, 1, cntrl);
        RunFlags(mode, st', events[1..], cntrl);
        var (fin, k, ended) := Run(mode, st', events[1..], cntrl);
        assert Run(mode, st, events, cntrl) == (fin, k + 1, ended);
        if ended {
          assert events[k] == events[1..][k - 1];
        }
      } else {
        assert Run(mode, st, events, cntrl) == (st', 1, true);
      }
    }
  }

  /** run() returns exactly at the first key press that ends the loop; the
      session is canceled when it started canceled or that key is Escape;
      in confirm mode `confirmed` says whether that key is Return, KP_Enter,
      y or Y; in password mode `confirmed` is left alone. */
  lemma RunOutcome(mode: Mode, st: State, events: seq<Event>, cntrl: bv8 -> bool)
    requires WellFormed(st.entry) && TypedBytesNulFree(mode, events, cntrl)
    ensures var (fin, k, ended) := Run(mode, st, events, cntrl);
      && (forall i :: 0 <= i < k - 1 ==> !EndsLoop(mode, events[i]))
      && (ended <==> k > 0 && EndsLoop(mode, events[k - 1]))
      && (fin.canceled <==> st.canceled || (ended && events[k - 1].key.sym == Escape))
      && (mode == WinPin ==> fin.confirmed == st.confirmed)
      && (mode == WinConfirm && ended ==>
            (fin.confirmed <==> events[k - 1].key.sym in {Return, KPEnter, LowerY, UpperY}))
      && (mode == WinConfirm && !ended ==> fin.confirmed == st.confirmed)
  {
    RunEndsAtFirst(mode, st, events, cntrl);
    RunFlags(mode, st, events, cntrl);
  }
}
