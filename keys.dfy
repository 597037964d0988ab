/** The session logic of pinentry-dmenu.c as functions on values: what one
    key press (keypress), one selection delivery (paste) and a run of
    window events (run) do to the password text, the cursor, the
    `confirmed` flag and the library's `canceled` flag. The key symbol and
    the bytes the input method looked up are inputs; so is the locale's
    `iscntrl`, as a predicate on the first looked-up byte. */
module Keys {
  import opened Utf8
  import opened Edit

  /** winmode: asking for a PIN or for a yes/no confirmation. */
  datatype Mode = WinPin | WinConfirm

  /** The key symbols keypress tells apart; every other symbol is Other. */
  datatype KeySym =
    | Return | KPEnter | Escape
    | Left | Right | BackSpace | Delete
    | LowerY | UpperY | LowerN | UpperN
    | Other

  /** A key press as the input method reports it: the symbol, the bytes of
      the text it produces, and whether the 32-byte lookup buffer overflowed. */
  datatype KeyEvent = KeyEvent(sym: KeySym, bytes: seq<bv8>, overflow: bool)

  /** The window events the loop in run() reacts to. `propertyIsUtf8` says
      whether the selection arrived in the UTF8_STRING property;
      `selection` is the property's data. A missing property, whose NULL
      data paste() would dereference, is not represented. */
  datatype Event =
    | Expose(count: int)
    | KeyPressed(key: KeyEvent)
    | SelectionNotify(propertyIsUtf8: bool, selection: seq<bv8>)
    | VisibilityNotify(unobscured: bool)
    | OtherEvent

  /** Everything the session changes: the text with its cursor, `confirmed`
      and `pinentry->canceled`. */
  datatype State = State(entry: Entry, confirmed: bool, canceled: bool)

  /** keypress's effect: the new state, its return value (true ends the
      event loop) and whether it redrew the window. */
  datatype KeyResult = KeyResult(state: State, done: bool, redraw: bool)

  /** BackSpace: nothing at the start; otherwise remove the bytes back to
      the previous rune start (also the tail of the Delete case, which falls
      through to it). Gives the new text and whether the window is redrawn. */
  function RubOut(e: Entry): (r: (Entry, bool))
    requires e.cursor <= |e.text|
  {
    if e.cursor == 0 then (e, false)
    else (Insert(e, [], PrevRuneStart(e.text, e.cursor) - e.cursor), true)
  }

  /** Delete: nothing at the end of the text; otherwise step over the rune
      at the cursor and rub it out as BackSpace does. */
  function RubOutForward(e: Entry): (r: (Entry, bool))
    requires e.cursor <= |e.text|
  {
    if e.cursor == |e.text| then (e, false)
    else RubOut(e.(cursor := NextRuneStart(e.text, e.cursor)))
  }

  /** Left: back to the previous rune start, unless at the start. */
  function CursorLeft(e: Entry): (r: Entry)
    requires e.cursor <= |e.text|
  {
    e.(cursor := if e.cursor > 0 then PrevRuneStart(e.text, e.cursor) else e.cursor)
  }

  /** Right: on to the next rune start, unless at the end. */
  function CursorRight(e: Entry): (r: Entry)
    requires e.cursor <= |e.text|
  {
    e.(cursor := if e.cursor < |e.text| then NextRuneStart(e.text, e.cursor) else e.cursor)
  }

  /** Any other key: insert its bytes unless there are none or the first is
      a control character. */
  function TypeBytes(e: Entry, b: seq<bv8>, cntrl: bv8 -> bool): (r: Entry)
    requires e.cursor <= |e.text|
  {
    if |b| > 0 && !cntrl(b[0]) then Insert(e, b, |b|) else e
  }

  /** Whether EditKey hands the looked-up bytes to insert(): a symbol
      other than Delete, BackSpace, Left and Right, with at least one byte,
      the first not a control character. */
  predicate InsertsKeyBytes(ev: KeyEvent, cntrl: bv8 -> bool) {
    ev.sym !in {Delete, BackSpace, Left, Right} && |ev.bytes| > 0 && !cntrl(ev.bytes[0])
  }

  /** Whether keypress hands the looked-up bytes to insert(): password mode,
      no lookup overflow, a key that does not end the loop, and bytes the
      editing keys insert. */
  predicate Typed(mode: Mode, ev: KeyEvent, cntrl: bv8 -> bool) {
    mode == WinPin && !ev.overflow && ev.sym !in {Return, KPEnter, Escape} && InsertsKeyBytes(ev, cntrl)
  }

  /** The password-mode keys that do not end the loop: the new text and
      whether the window is redrawn. */
  function EditKey(e: Entry, ev: KeyEvent, cntrl: bv8 -> bool): (r: (Entry, bool))
    requires WellFormed(e)
    ensures (InsertsKeyBytes(ev, cntrl) ==> NulFree(ev.bytes)) ==> WellFormed(r.0)
  {
    match ev.sym
    case Delete => RubOutForward(e)
    case BackSpace => RubOut(e)
    case Left => (CursorLeft(e), true)
    case Right => (CursorRight(e), true)
    case _ => (TypeBytes(e, ev.bytes, cntrl), true)
  }

  /** keypress in confirm mode: y, Y, Return and KP_Enter confirm, n and N
      deny, Escape cancels; every other key only redraws. */
  function ConfirmKey(st: State, sym: KeySym): (r: KeyResult)
    ensures r.state.entry == st.entry
    ensures r.done <==> sym in {Return, KPEnter, LowerY, UpperY, LowerN, UpperN, Escape}
    ensures r.done ==> !r.redraw && (r.state.confirmed <==> sym in {Return, KPEnter, LowerY, UpperY})
    ensures !r.done ==> r == KeyResult(st, false, true)
    ensures r.state.canceled <==> st.canceled || sym == Escape
  {
    match sym
    case Return | KPEnter | LowerY | UpperY => KeyResult(st.(confirmed := true), true, false)
    case LowerN | UpperN => KeyResult(st.(confirmed := false), true, false)
    case Escape => KeyResult(st.(canceled := true, confirmed := false), true, false)
    case _ => KeyResult(st, false, true)
  }

  /** keypress in password mode: Escape cancels, Return and KP_Enter end
      the loop, every other key edits. */
  function PinKey(st: State, ev: KeyEvent, cntrl: bv8 -> bool): (r: KeyResult)
    requires WellFormed(st.entry)
    ensures r.state.confirmed == st.confirmed
    ensures r.done <==> ev.sym in {Return, KPEnter, Escape}
    ensures r.done ==> !r.redraw && r.state.entry == st.entry
    ensures r.state.canceled <==> st.canceled || ev.sym == Escape
    ensures (ev.sym !in {Return, KPEnter, Escape} && InsertsKeyBytes(ev, cntrl) ==> NulFree(ev.bytes)) ==>
              WellFormed(r.state.entry)
  {
    match ev.sym
    case Escape => KeyResult(st.(canceled := true), true, false)
    case Return | KPEnter => KeyResult(st, true, false)
    case _ =>
      var (e', redraw) := EditKey(st.entry, ev, cntrl);
      KeyResult(st.(entry := e'), false, redraw)
  }

  /** keypress(ev): a lookup overflow returns 0 at once; otherwise the mode
      decides. */
  function KeyStep(mode: Mode, st: State, ev: KeyEvent, cntrl: bv8 -> bool): (r: KeyResult)
    requires WellFormed(st.entry)
    ensures (Typed(mode, ev, cntrl) ==> NulFree(ev.bytes)) ==> WellFormed(r.state.entry)
  {
    if ev.overflow then KeyResult(st, false, false)
    else if mode == WinConfirm then ConfirmKey(st, ev.sym)
    else PinKey(st, ev, cntrl)
  }

  /** The key table: which keys end the loop, what they do to `confirmed`
      and `canceled`, and that a lookup overflow changes nothing. */
  lemma KeyTable(mode: Mode, st: State, ev: KeyEvent, cntrl: bv8 -> bool)
    requires WellFormed(st.entry)
    ensures var r := KeyStep(mode, st, ev, cntrl);
      && (ev.overflow ==> r == KeyResult(st, false, false))
      && (r.state.canceled <==> st.canceled || (!ev.overflow && ev.sym == Escape))
      && (r.done <==> (!ev.overflow &&
           (ev.sym in {Return, KPEnter, Escape} || (mode == WinConfirm && ev.sym in {LowerY, UpperY, LowerN, UpperN}))))
      && (r.done ==> !r.redraw && r.state.entry == st.entry)
      && (mode == WinConfirm ==> r.state.entry == st.entry)
      && (mode == WinPin ==> r.state.confirmed == st.confirmed)
      && (mode == WinConfirm && r.done ==> (r.state.confirmed <==> ev.sym in {Return, KPEnter, LowerY, UpperY}))
  {
  }

  /** Number of bytes XGetWindowProperty is asked for: (sizeof text / 4) + 1
      32-bit units. */
  const PasteRequestBytes: nat := (Capacity / 4 + 1) * 4

  /** The selection as transferred: at most PasteRequestBytes of it. */
  function Transferred(selection: seq<bv8>): (p: seq<bv8>)
    ensures |p| <= PasteRequestBytes && |p| <= |selection| && p == selection[..|p|]
    ensures |selection| <= PasteRequestBytes ==> p == selection
  {
    if |selection| <= PasteRequestBytes then selection else selection[..PasteRequestBytes]
  }

  /** The length paste() inserts: up to the first '\n' (strchr) or, if there
      is none, the string's length (strlen), which ends at the first NUL. */
  function LineLength(p: seq<bv8>): (k: nat)
    ensures k <= |p|
    ensures forall i :: 0 <= i < k ==> p[i] != 0x0A && p[i] != 0
    ensures k < |p| ==> p[k] == 0x0A || p[k] == 0
  {
    if p == [] || p[0] == 0x0A || p[0] == 0 then 0 else 1 + LineLength(p[1..])
  }

  /** The bytes paste() inserts. */
  function PasteText(selection: seq<bv8>): (t: seq<bv8>)
    ensures NulFree(t) && forall i :: 0 <= i < |t| ==> t[i] != 0x0A
    ensures t <= selection
  {
    var p := Transferred(selection);
    p[..LineLength(p)]
  }

  /** paste(): insert the first line of the selection at the cursor. */
  function PasteStep(e: Entry, selection: seq<bv8>): (r: Entry)
    requires e.cursor <= |e.text|
    ensures WellFormed(e) ==> WellFormed(r)
  {
    var t := PasteText(selection);
    Insert(e, t, |t|)
  }

  /** A key press whose bytes keypress inserts holds no NUL in them.
      XmbLookupString returns a count, not a C string, and Ctrl+Space gives
      the single byte 0; such a key is not inserted when iscntrl(0) holds,
      so only the bytes that do reach insert() are constrained. */
  predicate TypedNulFree(mode: Mode, ev: Event, cntrl: bv8 -> bool) {
    ev.KeyPressed? && Typed(mode, ev.key, cntrl) ==> NulFree(ev.key.bytes)
  }

  /** Every key press of the stream is TypedNulFree. */
  predicate TypedBytesNulFree(mode: Mode, events: seq<Event>, cntrl: bv8 -> bool) {
    forall i {:trigger TypedNulFree(mode, events[i], cntrl)} :: 0 <= i < |events| ==> TypedNulFree(mode, events[i], cntrl)
  }

  /** A stream's tail keeps TypedBytesNulFree. */
  lemma TypedBytesNulFreeTail(mode: Mode, events: seq<Event>, k: nat, cntrl: bv8 -> bool)
    requires k <= |events| && TypedBytesNulFree(mode, events, cntrl)
    ensures TypedBytesNulFree(mode, events[k..], cntrl)
  {
    assert forall i :: 0 <= i < |events[k..]| ==> events[k..][i] == events[k + i];
  }

  /** One pass of run()'s loop body: the new state and whether run() returns. */
  function EventStep(mode: Mode, st: State, ev: Event, cntrl: bv8 -> bool): (r: (State, bool))
    requires WellFormed(st.entry)
    requires TypedNulFree(mode, ev, cntrl)
    ensures WellFormed(r.0.entry)
  {
    match ev
    case KeyPressed(k) =>
      var kr := KeyStep(mode, st, k, cntrl);
      (kr.state, kr.done)
    case SelectionNotify(isUtf8, sel) =>
      if isUtf8 then (st.(entry := PasteStep(st.entry, sel)), false) else (st, false)
    case _ => (st, false)
  }

  /** run() over a finite stream of events: the final state, how many events
      it consumed, and whether a key press ended the loop. If the stream
      ends first, the real loop would still be waiting for input. */
  function Run(mode: Mode, st: State, events: seq<Event>, cntrl: bv8 -> bool): (r: (State, nat, bool))
    requires WellFormed(st.entry) && TypedBytesNulFree(mode, events, cntrl)
    ensures WellFormed(r.0.entry)
    ensures r.1 <= |events| && (r.2 ==> r.1 > 0) && (!r.2 ==> r.1 == |events|)
    decreases |events|
  {
    if events == [] then (st, 0, false)
    else
      var (st', done) := EventStep(mode, st, events[0], cntrl);
      if done then (st', 1, true)
      else
        var (fin, k, ended) := Run(mode, st', events[1..], cntrl);
        (fin, k + 1, ended)
  }

  /** Run's result with `k` more events counted as consumed. */
  function Later(r: (State, nat, bool), k: nat): (State, nat, bool) {
    (r.0, r.1 + k, r.2)
  }

  /** One step of Run at position `k` of the stream: if the event there
      ends the loop the outcome is fixed, otherwise Run goes on from the
      next position. */
  lemma {:induction false} RunStep(mode: Mode, events: seq<Event>, k: nat, before: State, after: State, done: bool,
                outcome: (State, nat, bool), cntrl: bv8 -> bool)
    requires k < |events| && WellFormed(before.entry) && TypedBytesNulFree(mode, events[k..], cntrl)
    requires (after, done) == EventStep(mode, before, events[k], cntrl)
    requires outcome == Later(Run(mode, before, events[k..], cntrl), k)
    ensures TypedBytesNulFree(mode, events[k + 1..], cntrl)
    ensures done ==> outcome == (after, k + 1, true)
    ensures !done ==> outcome == Later(Run(mode, after, events[k + 1..], cntrl), k + 1)
  {
    var rest := events[k..];
    assert rest[0] == events[k] && TypedNulFree(mode, rest[0], cntrl);
    assert rest[1..] == events[k + 1..];
    TypedBytesNulFreeTail(mode, rest, 1, cntrl);
  }
}
