/** The state pinentry-dmenu.c keeps in globals for one request: the
    NUL-terminated buffer `text[BUFSIZ]`, the byte offset `cursor`, the
    window mode, `confirmed` and the library's `pinentry->canceled`; and the
    functions that change it step by step: nextrune, insert, keypress,
    paste, run, password, confirm and the start of cmdhandler. */
module PinEntry {
  import opened Utf8
  import opened Edit
  import opened Keys
  import opened Grab
  import opened KeyLemmas

  /** strlen: the offset of the first NUL. */
  function StrLen(s: seq<bv8>): (n: nat)
    requires 0 in s
    ensures n < |s| && s[n] == 0 && NulFree(s[..n])
  {
    if s[0] == 0 then 0 else 1 + StrLen(s[1..])
  }

  /** A NUL at `k` with none before it is where strlen stops. */
  lemma StrLenAt(s: seq<bv8>, k: nat)
    requires k < |s| && s[k] == 0 && NulFree(s[..k])
    ensures 0 in s && StrLen(s) == k
  {
    assert s[k] in s;
    var n := StrLen(s);
    assert forall i :: 0 <= i < k ==> s[..k][i] == s[i];
    assert forall i :: 0 <= i < n ==> s[..n][i] == s[i];
  }

  /** The buffer after memmove moves `count` bytes from offset `src` to
      offset `dst`: the copy reads the old bytes, so overlapping ranges are
      safe. */
  function Moved(a: seq<bv8>, dst: nat, src: nat, count: nat): (r: seq<bv8>)
    requires dst + count <= |a| && src + count <= |a|
    ensures |r| == |a|
  {
    seq(|a|, i requires 0 <= i < |a| => if dst <= i < dst + count then a[src + i - dst] else a[i])
  }

  /** The buffer after memcpy puts the first `count` bytes of `str` at
      offset `dst`. */
  function Copied(a: seq<bv8>, dst: nat, str: seq<bv8>, count: nat): (r: seq<bv8>)
    requires dst + count <= |a| && count <= |str|
    ensures |r| == |a|
  {
    seq(|a|, i requires 0 <= i < |a| => if dst <= i < dst + count then str[i - dst] else a[i])
  }

  /** The whole buffer after insert(): everything from the cursor `c` to
      the end of the buffer, less max(n, 0) bytes, moves to offset c + n;
      then, for n > 0, the first n bytes of `str` go to offset c. */
  function Shifted(a: seq<bv8>, c: nat, str: seq<bv8>, n: int): (r: seq<bv8>)
    requires c <= |a|
    requires n >= 0 ==> n <= |str| && c + n <= |a|
    requires n < 0 ==> -n <= c
    ensures |r| == |a|
  {
    var moved := Moved(a, c + n, c, |a| - c - (if n > 0 then n else 0));
    if n > 0 then Copied(moved, c, str, n) else moved
  }

  /** An insertion of n >= 0 bytes: the first L + n bytes of the shifted
      buffer are the spliced text, and byte L + n is the old NUL. */
  lemma ShiftedGrows(a: seq<bv8>, L: nat, c: nat, str: seq<bv8>, n: nat)
    requires c <= L < |a| && L + n < |a| && n <= |str|
    ensures var m := Shifted(a, c, str, n);
      m[..L + n] == a[..c] + str[..n] + a[c..L] && m[L + n] == a[L]
  {
    var m := Shifted(a, c, str, n);
    var t := a[..c] + str[..n] + a[c..L];
    forall i | 0 <= i < L + n
      ensures m[i] == t[i]
    {
      if i < c {
        assert t[i] == a[i];
      } else if i < c + n {
        assert t[i] == str[..n][i - c];
      } else {
        assert t[i] == a[c..L][i - c - n];
      }
    }
  }

  /** A removal of k bytes before the cursor: the first L - k bytes of the
      shifted buffer are the text without them, and byte L - k is the old
      NUL. */
  lemma ShiftedShrinks(a: seq<bv8>, L: nat, c: nat, str: seq<bv8>, k: int)
    requires 0 <= k <= c <= L < |a|
    ensures var m := Shifted(a, c, str, -k);
      m[..L - k] == a[..c - k] + a[c..L] && m[L - k] == a[L]
  {
    var m := Shifted(a, c, str, -k);
    var t := a[..c - k] + a[c..L];
    forall i | 0 <= i < L - k
      ensures m[i] == t[i]
    {
      if i < c - k {
        assert t[i] == a[i];
      } else {
        assert t[i] == a[c..L][i - (c - k)];
      }
    }
  }

  /** The bytes before position L + n of the shifted buffer are the text
      Edit.Insert describes, and the byte at L + n is the one at L before. */
  lemma ShiftedText(a: seq<bv8>, L: nat, c: nat, str: seq<bv8>, n: int)
    requires c <= L < |a| && L + n < |a| && L + n <= Capacity - 1
    requires n > 0 ==> n <= |str|
    requires n < 0 ==> -n <= c
    ensures var m := Shifted(a, c, str, n);
      m[..L + n] == Edit.Insert(Entry(a[..L], c), str, n).text && m[L + n] == a[L]
  {
    if n >= 0 {
      ShiftedGrows(a, L, c, str, n);
      InsertedText(a, L, c, str, n);
    } else {
      ShiftedShrinks(a, L, c, str, -n);
      RemovedText(a, L, c, str, -n);
    }
  }

  /** Edit.Insert of n >= 0 bytes into the first L bytes of `a`, in terms of
      `a` itself. */
  lemma InsertedText(a: seq<bv8>, L: nat, c: nat, str: seq<bv8>, n: nat)
    requires c <= L <= |a| && L + n <= Capacity - 1 && n <= |str|
    ensures Edit.Insert(Entry(a[..L], c), str, n).text == a[..c] + str[..n] + a[c..L]
  {
    var e := Entry(a[..L], c);
    assert e.text[..c] == a[..c] && e.text[c..] == a[c..L];
  }

  /** Edit.Insert of -k bytes into the first L bytes of `a`, in terms of `a`
      itself. */
  lemma RemovedText(a: seq<bv8>, L: nat, c: nat, str: seq<bv8>, k: int)
    requires 0 <= k <= c <= L <= |a| && L - k <= Capacity - 1
    ensures Edit.Insert(Entry(a[..L], c), str, -k).text == a[..c - k] + a[c..L]
  {
    var e := Entry(a[..L], c);
    assert e.text[..c - k] == a[..c - k] && e.text[c..] == a[c..L];
  }

  /** When the edit fits, the shifted buffer still holds a NUL, and the text
      before it is exactly what Edit.Insert describes. */
  lemma ShiftedContent(a: seq<bv8>, c: nat, str: seq<bv8>, n: int)
    requires |a| == Capacity && 0 in a
    requires c <= StrLen(a) && StrLen(a) + n <= Capacity - 1
    requires n > 0 ==> n <= |str| && NulFree(str[..n])
    requires n < 0 ==> -n <= c
    ensures var m := Shifted(a, c, str, n);
      0 in m && StrLen(m) == StrLen(a) + n &&
      m[..StrLen(m)] == Edit.Insert(Entry(a[..StrLen(a)], c), str, n).text
  {
    var L := StrLen(a);
    var m := Shifted(a, c, str, n);
    var e := Entry(a[..L], c);
    var t := Edit.Insert(e, str, n).text;
    ShiftedText(a, L, c, str, n);
    assert m[..L + n] == t && m[L + n] == 0;
    NulFreeInsert(e, str, n);
    StrLenAt(m, L + n);
  }

  /** What Edit.Insert produces from NUL-free parts is NUL-free. */
  lemma NulFreeInsert(e: Entry, str: seq<bv8>, n: int)
    requires WellFormed(e) && |e.text| + n <= Capacity - 1
    requires n > 0 ==> n <= |str| && NulFree(str[..n])
    requires n < 0 ==> -n <= e.cursor
    ensures NulFree(Edit.Insert(e, str, n).text)
  {
  }

  /** memmove of `count` bytes from offset `src` to offset `dst`. */
  method MemMove(a: array<bv8>, dst: nat, src: nat, count: nat)
    requires dst + count <= a.Length && src + count <= a.Length
    modifies a
    ensures a[..] == Moved(old(a[..]), dst, src, count)
  {
    var before := a[..];
    forall i | dst <= i < dst + count {
      a[i] := before[src + i - dst];
    }
    assert forall i :: 0 <= i < a.Length ==> a[..][i] == Moved(before, dst, src, count)[i];
  }

  /** memcpy of the first `count` bytes of `str` to offset `dst`. */
  method MemCpy(a: array<bv8>, dst: nat, str: seq<bv8>, count: nat)
    requires dst + count <= a.Length && count <= |str|
    modifies a
    ensures a[..] == Copied(old(a[..]), dst, str, count)
  {
    ghost var before := a[..];
    forall i | dst <= i < dst + count {
      a[i] := str[i - dst];
    }
    assert forall i :: 0 <= i < a.Length ==> a[..][i] == Copied(before, dst, str, count)[i];
  }

  /** What a request ends with. */
  datatype Reply =
    | Died                                         // die(): the process exits
    | Waiting                                      // the events ran out first
    | Returned(code: int, pinSet: bool, pin: seq<bv8>)  // the handler's return value, and the PIN handed to the library

  class Session {
    /** static char text[BUFSIZ] */
    const text: array<bv8>
    var cursor: nat
    var mode: Mode
    var confirmed: bool
    /** pinentry->canceled */
    var canceled: bool

    /** The buffer has its fixed size and a terminating NUL. */
    ghost predicate Terminated()
      reads text
    {
      text.Length == Capacity && 0 in text[..]
    }

    ghost predicate Valid()
      reads this`cursor, text
    {
      Terminated() && cursor <= StrLen(text[..])
    }

    /** The password text: the bytes before the first NUL. */
    ghost function Content(): (s: seq<bv8>)
      reads text
      requires Terminated()
      ensures |s| <= Capacity - 1 && NulFree(s)
    {
      text[..StrLen(text[..])]
    }

    ghost function CurrentEntry(): (e: Entry)
      reads this`cursor, text
      requires Valid()
      ensures WellFormed(e)
    {
      Entry(Content(), cursor)
    }

    ghost function Snapshot(): (st: State)
      reads this`cursor, this`confirmed, this`canceled, text
      requires Valid()
      ensures WellFormed(st.entry)
    {
      State(CurrentEntry(), confirmed, canceled)
    }

    /** Static storage starts zeroed: an empty text in password mode. */
    constructor (canceled0: bool)
      ensures Valid() && fresh(text)
      ensures CurrentEntry() == Entry([], 0)
      ensures mode == WinPin && !confirmed && canceled == canceled0
    {
      text := new bv8[Capacity](_ => 0);
      cursor := 0;
      mode := WinPin;
      confirmed := false;
      canceled := canceled0;
      new;
      StrLenAt(text[..], 0);
    }

    /** cmdhandler's reset before each request: a NUL goes into the first
        byte and the cursor back to 0, so the text is empty, but the bytes
        after the first stay as the last request left them. */
    method Reset()
      requires text.Length == Capacity
      modifies this`cursor, text
      ensures Valid() && CurrentEntry() == Entry([], 0)
      ensures text[1..] == old(text[1..])
    {
      text[0] := 0;
      cursor := 0;
      StrLenAt(text[..], 0);
    }

    /** nextrune(c, inc): from `c`, step by `inc` over continuation bytes. */
    method NextRune(c: int, inc: int) returns (r: int)
      requires Valid() && (inc == 1 || inc == -1)
      requires inc == 1 ==> 0 <= c < StrLen(text[..])
      requires inc == -1 ==> 0 <= c <= StrLen(text[..])
      ensures inc == 1 ==> r == NextRuneStart(Content(), c)
      ensures inc == -1 && c == 0 ==> r == -1
      ensures inc == -1 && c > 0 ==> r == PrevRuneStart(Content(), c)
    {
      ghost var s := Content();
      assert text[|s|] == 0;
      var n := c + inc;
      while n + inc >= 0 && IsCont(text[n])
        invariant inc == 1 ==> c < n <= |s| && forall q :: c < q < n ==> IsCont(s[q])
        invariant inc == -1 ==> -1 <= n < c && (c > 0 ==> 0 <= n) && forall q :: n < q < c ==> IsCont(s[q])
        decreases if inc == 1 then |s| - n else n
      {
        n := n + inc;
      }
      r := n;
    }

    /** insert(str, n): when the result fits, splice `str[..n]` in at the
        cursor (n > 0) or remove the -n bytes before it (n < 0). */
    method Insert(str: seq<bv8>, n: int)
      requires Valid()
      requires n > 0 ==> n <= |str| && NulFree(str[..n])
      requires n < 0 ==> -n <= cursor
      modifies this`cursor, text
      ensures Valid()
      ensures text[..] == if StrLen(old(text[..])) + n > Capacity - 1 then old(text[..])
                          else Shifted(old(text[..]), old(cursor), str, n)
      ensures CurrentEntry() == Edit.Insert(old(CurrentEntry()), str, n)
    {
      var len := StrLen(text[..]);
      if len + n > Capacity - 1 {
        return;
      }
      ghost var a := text[..];
      ghost var c := cursor;
      ghost var e := CurrentEntry();
      assert e == Entry(a[..len], c);
      MemMove(text, cursor + n, cursor, Capacity - cursor - (if n > 0 then n else 0));
      if n > 0 {
        MemCpy(text, cursor, str, n);
      }
      cursor := cursor + n;
      assert text[..] == Shifted(a, c, str, n);
      ShiftedContent(a, c, str, n);
      ghost var r := Edit.Insert(e, str, n);
      assert Content() == r.text && cursor == r.cursor;
    }

    /** The BackSpace case of keypress (also reached from Delete): at the
        start nothing happens and keypress returns without redrawing. */
    method Backspace() returns (redraw: bool)
      requires Valid()
      modifies this`cursor, text
      ensures Valid()
      ensures (CurrentEntry(), redraw) == RubOut(old(CurrentEntry()))
    {
      if cursor == 0 {
        return false;
      }
      ghost var e := CurrentEntry();
      var p := NextRune(cursor, -1);
      assert p == PrevRuneStart(e.text, e.cursor);
      Insert([], p - cursor);
      redraw := true;
    }

    /** The password-mode cases of keypress that edit the text or move the
        cursor; the result says whether it ends by calling drawwin(). */
    method EditKeyPress(ev: KeyEvent, cntrl: bv8 -> bool) returns (redraw: bool)
      requires Valid() && (InsertsKeyBytes(ev, cntrl) ==> NulFree(ev.bytes))
      modifies this`cursor, text
      ensures Valid()
      ensures (CurrentEntry(), redraw) == EditKey(old(CurrentEntry()), ev, cntrl)
    {
      match ev.sym {
        case Delete =>
          redraw := DeleteKey();
        case BackSpace =>
          redraw := Backspace();
        case Left =>
          LeftKey();
          redraw := true;
        case Right =>
          RightKey();
          redraw := true;
        case _ =>
          TypeKey(ev.bytes, cntrl);
          redraw := true;
      }
    }

    /** XK_Delete: step over the rune at the cursor, then BackSpace. */
    method DeleteKey() returns (redraw: bool)
      requires Valid()
      modifies this`cursor, text
      ensures Valid()
      ensures (CurrentEntry(), redraw) == RubOutForward(old(CurrentEntry()))
    {
      ghost var e := CurrentEntry();
      assert text[cursor] == 0 <==> cursor == |e.text|;
      if text[cursor] == 0 {
        return false;
      }
      cursor := NextRune(cursor, 1);
      assert CurrentEntry() == e.(cursor := NextRuneStart(e.text, e.cursor));
      redraw := Backspace();
    }

    /** XK_Left. */
    method LeftKey()
      requires Valid()
      modifies this`cursor
      ensures Valid()
      ensures CurrentEntry() == CursorLeft(old(CurrentEntry()))
    {
      if cursor > 0 {
        cursor := NextRune(cursor, -1);
      }
    }

    /** XK_Right. */
    method RightKey()
      requires Valid()
      modifies this`cursor
      ensures Valid()
      ensures CurrentEntry() == CursorRight(old(CurrentEntry()))
    {
      ghost var e := CurrentEntry();
      assert text[cursor] == 0 <==> cursor == |e.text|;
      if text[cursor] != 0 {
        cursor := NextRune(cursor, 1);
      }
    }

    /** Any other key: insert the bytes XLookupString gave. */
    method TypeKey(b: seq<bv8>, cntrl: bv8 -> bool)
      requires Valid() && (|b| > 0 && !cntrl(b[0]) ==> NulFree(b))
      modifies this`cursor, text
      ensures Valid()
      ensures CurrentEntry() == TypeBytes(old(CurrentEntry()), b, cntrl)
    {
      if |b| > 0 && !cntrl(b[0]) {
        assert b[..|b|] == b;
        Insert(b, |b|);
      }
    }

    /** keypress(ev): `done` is its return value, `redraw` whether it called
        drawwin(). */
    method KeyPress(ev: KeyEvent, cntrl: bv8 -> bool) returns (done: bool, redraw: bool)
      requires Valid() && (Typed(mode, ev, cntrl) ==> NulFree(ev.bytes))
      modifies this`cursor, this`confirmed, this`canceled, text
      ensures Valid() && mode == old(mode)
      ensures KeyStep(mode, old(Snapshot()), ev, cntrl) == KeyResult(Snapshot(), done, redraw)
    {
      if ev.overflow {
        return false, false;
      }
      if mode == WinConfirm {
        done, redraw := ConfirmKeyPress(ev.sym);
      } else {
        done, redraw := PinKeyPress(ev, cntrl);
      }
      // drawwin() when redraw
    }

    /** The confirm-mode switch of keypress. */
    method ConfirmKeyPress(sym: KeySym) returns (done: bool, redraw: bool)
      requires Valid()
      modifies this`confirmed, this`canceled
      ensures Valid()
      ensures ConfirmKey(old(Snapshot()), sym) == KeyResult(Snapshot(), done, redraw)
    {
      match sym
      case Return | KPEnter | LowerY | UpperY =>
        confirmed := true;
        return true, false;
      case LowerN | UpperN =>
        confirmed := false;
        return true, false;
      case Escape =>
        canceled := true;
        confirmed := false;
        return true, false;
      case _ =>
        return false, true;
    }

    /** The password-mode switch of keypress. */
    method PinKeyPress(ev: KeyEvent, cntrl: bv8 -> bool) returns (done: bool, redraw: bool)
      requires Valid() && (ev.sym !in {Return, KPEnter, Escape} && InsertsKeyBytes(ev, cntrl) ==> NulFree(ev.bytes))
      modifies this`cursor, this`canceled, text
      ensures Valid()
      ensures PinKey(old(Snapshot()), ev, cntrl) == KeyResult(Snapshot(), done, redraw)
    {
      match ev.sym
      case Escape =>
        canceled := true;
        return true, false;
      case Return | KPEnter =>
        return true, false;
      case _ =>
        done := false;
        redraw := EditKeyPress(ev, cntrl);
    }

    /** paste(): insert the selection up to its first newline. */
    method Paste(selection: seq<bv8>)
      requires Valid()
      modifies this`cursor, text
      ensures Valid()
      ensures CurrentEntry() == PasteStep(old(CurrentEntry()), selection)
    {
      var p := Transferred(selection);
      var k := LineLength(p);
      assert p[..k][..k] == p[..k];
      Insert(p, k);
      // drawwin()
    }

    /** One pass of run()'s loop body: `done` is whether run() returns. */
    method HandleEvent(ev: Event, cntrl: bv8 -> bool) returns (done: bool)
      requires Valid() && TypedNulFree(mode, ev, cntrl)
      modifies this`cursor, this`confirmed, this`canceled, text
      ensures Valid() && mode == old(mode)
      ensures (Snapshot(), done) == EventStep(mode, old(Snapshot()), ev, cntrl)
    {
      done := false;
      match ev {
        case KeyPressed(k) =>
          var redrawn;
          done, redrawn := KeyPress(k, cntrl);
        case SelectionNotify(isUtf8, sel) =>
          if isUtf8 {
            Paste(sel);
          }
        case _ =>
          // Expose copies the drawing to the window, VisibilityNotify raises it
      }
    }

    /** run(): handle events until a key press returns 1. */
    method Run(events: seq<Event>, cntrl: bv8 -> bool) returns (consumed: nat, ended: bool)
      requires Valid() && TypedBytesNulFree(mode, events, cntrl)
      modifies this`cursor, this`confirmed, this`canceled, text
      ensures Valid() && mode == old(mode)
      ensures Keys.Run(mode, old(Snapshot()), events, cntrl) == (Snapshot(), consumed, ended)
    {
      ghost var outcome := Keys.Run(mode, Snapshot(), events, cntrl);
      consumed, ended := 0, false;
      while consumed < |events| && !ended
        invariant Valid() && mode == old(mode) && consumed <= |events|
        invariant TypedBytesNulFree(mode, events[consumed..], cntrl)
        invariant ended ==> outcome == (Snapshot(), consumed, true)
        invariant !ended ==> outcome == Later(Keys.Run(mode, Snapshot(), events[consumed..], cntrl), consumed)
      {
        ghost var before := Snapshot();
        ended := HandleEvent(events[consumed], cntrl);
        RunStep(mode, events, consumed, before, Snapshot(), ended, outcome, cntrl);
        consumed := consumed + 1;
      }
      if !ended {
        assert events[consumed..] == [];
      }
    }

    /** Copy the text and its NUL into a fresh buffer of `size` bytes, as
        strcpy does; the buffer must hold strlen(text) + 1 bytes. */
    method CopyPin(size: nat) returns (buf: array<bv8>)
      requires Valid() && StrLen(text[..]) + 1 <= size
      ensures fresh(buf) && buf.Length == size
      ensures buf[..StrLen(text[..])] == Content() && buf[StrLen(text[..])] == 0
    {
      var len := StrLen(text[..]);
      buf := new bv8[size];
      var i := 0;
      while i <= len
        invariant 0 <= i <= len + 1
        invariant forall j :: 0 <= j < i ==> buf[j] == text[j]
      {
        buf[i] := text[i];
        i := i + 1;
      }
    }

    /** promptwin(): grab the keyboard, then run the event loop. Window setup
        and drawing are modelled in Placement and Mask. */
    method PromptWin(embedded: bool, grabbed: nat -> bool, events: seq<Event>, cntrl: bv8 -> bool)
      returns (grab: GrabResult, ended: bool)
      requires Valid() && TypedBytesNulFree(mode, events, cntrl)
      modifies this`cursor, this`confirmed, this`canceled, text
      ensures Valid() && mode == old(mode)
      ensures (grab == GaveUp) <==> !embedded && forall k :: 0 <= k < GrabAttempts ==> !grabbed(k)
      ensures grab == GaveUp ==> ended == false && Snapshot() == old(Snapshot())
      ensures grab != GaveUp ==> Keys.Run(mode, old(Snapshot()), events, cntrl) == (Snapshot(), Keys.Run(mode, old(Snapshot()), events, cntrl).1, ended)
    {
      grab := GrabKeyboard(embedded, grabbed);
      if grab == GaveUp {
        return grab, false;
      }
      var _, e := Run(events, cntrl);
      ended := e;
    }

    /** password(): ask for a PIN; -1 when canceled, otherwise hand a copy of
        the text to the library and return 1. The copy gets strlen(text) + 1
        bytes (see README: the code asks for strlen(text)). */
    method Password(embedded: bool, grabbed: nat -> bool, events: seq<Event>, cntrl: bv8 -> bool)
      returns (reply: Reply)
      requires Valid() && TypedBytesNulFree(WinPin, events, cntrl)
      modifies this`mode, this`cursor, this`confirmed, this`canceled, text
      ensures Valid() && mode == WinPin
      ensures reply == PasswordReply(embedded, grabbed, old(Snapshot()), events, cntrl)
      ensures GrabDies(embedded, grabbed) ==> Snapshot() == old(Snapshot())
      ensures !GrabDies(embedded, grabbed) ==> Snapshot() == Keys.Run(WinPin, old(Snapshot()), events, cntrl).0
    {
      mode := WinPin;
      var grab, ended := PromptWin(embedded, grabbed, events, cntrl);
      if grab == GaveUp {
        return Died;
      }
      if !ended {
        return Waiting;
      }
      if canceled {
        return Returned(-1, false, []);
      }
      var len := StrLen(text[..]);
      var buf := CopyPin(len + 1);
      reply := Returned(1, true, buf[..len]);
    }

    /** confirm(): ask yes or no and return `confirmed`. */
    method Confirm(embedded: bool, grabbed: nat -> bool, events: seq<Event>, cntrl: bv8 -> bool)
      returns (reply: Reply)
      requires Valid()
      modifies this`mode, this`cursor, this`confirmed, this`canceled, text
      ensures Valid() && mode == WinConfirm
      ensures reply == ConfirmReply(embedded, grabbed, old(Snapshot()), events, cntrl)
      ensures GrabDies(embedded, grabbed) ==> Snapshot() == old(Snapshot()).(confirmed := false)
      ensures !GrabDies(embedded, grabbed) ==>
                Snapshot() == Keys.Run(WinConfirm, old(Snapshot()).(confirmed := false), events, cntrl).0
    {
      mode := WinConfirm;
      confirmed := false;
      var grab, ended := PromptWin(embedded, grabbed, events, cntrl);
      if grab == GaveUp {
        return Died;
      }
      if !ended {
        return Waiting;
      }
      reply := Returned(if confirmed then 1 else 0, false, []);
    }

    /** cmdhandler(): empty the text, then ask for a PIN or a confirmation. */
    method CmdHandler(pin: bool, embedded: bool, grabbed: nat -> bool, events: seq<Event>, cntrl: bv8 -> bool)
      returns (reply: Reply)
      requires text.Length == Capacity && (pin ==> TypedBytesNulFree(WinPin, events, cntrl))
      modifies this`mode, this`cursor, this`confirmed, this`canceled, text
      ensures Valid()
      ensures reply == HandlerReply(pin, embedded, grabbed, old(confirmed), old(canceled), events, cntrl)
      ensures Snapshot() == HandlerState(pin, embedded, grabbed, old(confirmed), old(canceled), events, cntrl)
    {
      Reset();
      if pin {
        reply := Password(embedded, grabbed, events, cntrl);
      } else {
        reply := Confirm(embedded, grabbed, events, cntrl);
      }
    }
  }

  /** The size password() asks secmem_malloc for: strlen(text). */
  function PinRequestAsWritten(s: seq<bv8>): nat
    requires 0 in s
  {
    StrLen(s)
  }

  /** strcpy writes strlen(text) + 1 bytes, so the request as written never
      meets CopyPin's precondition, whatever the text: the last byte strcpy
      writes, the NUL, goes to index strlen(text), which is the length of the
      buffer asked for and so one past its end. */
  lemma PinRequestTooSmall(s: seq<bv8>)
    requires 0 in s
    ensures !(StrLen(s) + 1 <= PinRequestAsWritten(s))
    ensures var size, last := PinRequestAsWritten(s), StrLen(s);
      s[last] == 0 && last == size && !(last < size)
  {
  }

  /** Whether grabkeyboard() dies. */
  predicate GrabDies(embedded: bool, grabbed: nat -> bool) {
    !embedded && forall k :: 0 <= k < GrabAttempts ==> !grabbed(k)
  }

  /** What password() returns, from the state before it. */
  function PasswordReply(embedded: bool, grabbed: nat -> bool, st: State, events: seq<Event>, cntrl: bv8 -> bool): Reply
    requires WellFormed(st.entry) && TypedBytesNulFree(WinPin, events, cntrl)
  {
    if GrabDies(embedded, grabbed) then Died
    else
      var (fin, _, ended) := Keys.Run(WinPin, st, events, cntrl);
      if !ended then Waiting
      else if fin.canceled then Returned(-1, false, [])
      else Returned(1, true, fin.entry.text)
  }

  /** What confirm() returns, from the state before it. */
  function ConfirmReply(embedded: bool, grabbed: nat -> bool, st: State, events: seq<Event>, cntrl: bv8 -> bool): Reply
    requires WellFormed(st.entry)
  {
    if GrabDies(embedded, grabbed) then Died
    else
      var (fin, _, ended) := Keys.Run(WinConfirm, st.(confirmed := false), events, cntrl);
      if !ended then Waiting
      else Returned(if fin.confirmed then 1 else 0, false, [])
  }

  /** What cmdhandler() returns: a session that starts from an empty text. */
  function HandlerReply(pin: bool, embedded: bool, grabbed: nat -> bool, confirmed0: bool, canceled0: bool,
                        events: seq<Event>, cntrl: bv8 -> bool): Reply
    requires pin ==> TypedBytesNulFree(WinPin, events, cntrl)
  {
    var st := State(Entry([], 0), confirmed0, canceled0);
    if pin then PasswordReply(embedded, grabbed, st, events, cntrl)
    else ConfirmReply(embedded, grabbed, st, events, cntrl)
  }

  /** The session cmdhandler() leaves for the next request: the text starts
      empty, confirm() clears `confirmed`, and unless the grab dies the
      event loop runs from there. The password stays in the buffer. */
  function HandlerState(pin: bool, embedded: bool, grabbed: nat -> bool, confirmed0: bool, canceled0: bool,
                        events: seq<Event>, cntrl: bv8 -> bool): State
    requires pin ==> TypedBytesNulFree(WinPin, events, cntrl)
  {
    var mode := if pin then WinPin else WinConfirm;
    var st := State(Entry([], 0), if pin then confirmed0 else false, canceled0);
    if GrabDies(embedded, grabbed) then st else Keys.Run(mode, st, events, cntrl).0
  }

  /** What the reply says about the key that ended the session: password()
      returns -1 exactly when the session was already canceled or Escape
      ended it, and otherwise 1 with the text typed so far; confirm()
      returns 1 exactly for Return, KP_Enter, y or Y and 0 for n, N or
      Escape. */
  lemma ReplyMeaning(pin: bool, embedded: bool, grabbed: nat -> bool, confirmed0: bool, canceled0: bool,
                     events: seq<Event>, cntrl: bv8 -> bool)
    requires pin ==> TypedBytesNulFree(WinPin, events, cntrl)
    ensures var reply := HandlerReply(pin, embedded, grabbed, confirmed0, canceled0, events, cntrl);
      var st := State(Entry([], 0), if pin then confirmed0 else false, canceled0);
      var (fin, k, ended) := Keys.Run(if pin then WinPin else WinConfirm, st, events, cntrl);
      && (reply == Died <==> GrabDies(embedded, grabbed))
      && (reply.Returned? <==> !GrabDies(embedded, grabbed) && ended)
      && (reply.Returned? ==> EndsLoop(if pin then WinPin else WinConfirm, events[k - 1]))
      && (pin && reply.Returned? ==>
            (reply.code == -1 <==> canceled0 || events[k - 1].key.sym == Escape) &&
            (reply.code != -1 ==> reply.code == 1 && reply.pinSet && reply.pin == fin.entry.text))
      && (!pin && reply.Returned? ==>
            !reply.pinSet &&
            (reply.code == 1 <==> events[k - 1].key.sym in {Return, KPEnter, LowerY, UpperY}) &&
            (reply.code == 0 <==> events[k - 1].key.sym in {LowerN, UpperN, Escape}))
  {
    var st := State(Entry([], 0), if pin then confirmed0 else false, canceled0);
    RunOutcome(if pin then WinPin else WinConfirm, st, events, cntrl);
  }
}
