# pinentry-dmenu: the password buffer, the key handling and the bar placement

pinentry-dmenu is a pinentry program (the dialog GnuPG uses to ask for a
passphrase or a yes/no confirmation) drawn as a dmenu-style bar. This
project models its core in Dafny:

- the fixed buffer `text[BUFSIZ]`, NUL-terminated, and the byte offset
  `cursor` into it;
- `nextrune`, which steps over UTF-8 continuation bytes (section 3 of
  RFC 3629), and `insert`, which splices bytes in or removes the bytes
  before the cursor with `memmove`/`memcpy`, or does nothing when the
  result would not fit;
- `keypress` in its two window modes (PIN entry and confirmation),
  the event loop `run`, and what `password`, `confirm` and `cmdhandler`
  return;
- `paste`, which `run` calls on a `SelectionNotify` event for the
  UTF8_STRING property (the program itself never requests a selection, so
  such an event comes from another client);
- the bounded retry of `grabkeyboard`;
- `INTERSECT`, the choice of Xinerama screen and the bar's geometry in
  `setup`;
- the masked string `drawwin` draws in place of the password.

The model has two layers. The first is on values: `Utf8`, `Edit` and `Keys`
describe one key press, one paste and a run of events as functions on an
`Entry(text, cursor)` and a `State`. The second follows the code:
`PinEntry.Session` is a class over a `BUFSIZ`-byte array, and its methods
(`NextRune`, `Insert` with its `memmove`/`memcpy`, `KeyPress`, `Paste`,
`Run`, ...) are proved to have exactly the effect the value layer
describes. The placement loops (`Placement.SelectMonitor`), the
keyboard-grab loop (`Grab.GrabKeyboard`) and the mask loop
(`Mask.FillMask`) are methods with loops, proved against functions or
stated properties.

`BUFSIZ` is taken as 8192 (glibc). The X server, the input method and the
locale are inputs:

- a key press is its symbol, the bytes the input method looked up, and
  whether the lookup overflowed;
- `iscntrl` is a predicate on the first looked-up byte;
- the outcome of each keyboard-grab attempt is an oracle `nat -> bool`;
- the screens, the focused window, the pointer and the embedding window
  are optional inputs to the placement.

Where a reader might expect otherwise, the model follows the code:

- The mask has one copy of the asterisk string per *byte* of the text, not
  per rune. The cursor is measured at `cursor * strlen(asterisk)` bytes
  into the mask (`Mask.MaskCountsBytes`, `Mask.RepeatPrefix`).
- "The screen the focused window intersects most" is in fact the *first*
  screen it overlaps at all, because `INTERSECT` joins its two extents
  with `&&` (see Findings).
- The cursor stays on a rune boundary only while inserted text does not
  begin with a UTF-8 continuation byte: `insert` copies whatever bytes it
  is given. `KeyLemmas.RunKeepsAligned` states the invariant under that
  assumption, and `KeyLemmas.DeleteOffBoundary` shows what Delete does off
  a boundary.
- The previous password is not wiped when a new request starts.
  `cmdhandler` only writes a NUL into `text[0]` (`PinEntry.Session.Reset`
  keeps the other bytes).

## Model

| member | source | states |
|---|---|---|
| Utf8.PrevRuneStart | pinentry-dmenu.c:88-96 | nextrune(c, -1) for c > 0 lands on the largest offset below c that is 0 or a non-continuation byte; every byte skipped is a continuation byte |
| Utf8.NextRuneStart | pinentry-dmenu.c:88-96 | nextrune(c, +1) lands on the smallest offset above c that is the end of the text or a non-continuation byte, so it never passes the NUL |
| Utf8.LeftThenRight | pinentry-dmenu.c:373-382 | from a rune boundary, one step left lands on a boundary, and one step right from there comes back |
| Utf8.RightThenLeft | pinentry-dmenu.c:373-382 | from a rune boundary before the end, one step right lands on a boundary, and one step left comes back |
| Utf8.PrevRuneStartAfterRune | pinentry-dmenu.c:361-365 | right after the bytes of one rune, nextrune(c, -1) goes back exactly to that rune's first byte |
| Edit.Insert | pinentry-dmenu.c:98-111 | insert(str, n) changes nothing when strlen(text) + n exceeds sizeof text - 1; otherwise the length and the cursor move by n, the bytes before the edit point stay, and a NUL-free text stays NUL-free within capacity |
| Edit.InsertSplices | pinentry-dmenu.c:104-110 | for n > 0 the n bytes of str sit at the old cursor, followed by the old suffix |
| Edit.InsertThenRemove | pinentry-dmenu.c:98-111 | insert(str, n) followed by insert(NULL, -n) restores the text and the cursor |
| Edit.RemoveThenReinsert | pinentry-dmenu.c:98-111 | removing k bytes before the cursor and inserting those same bytes again restores the text and the cursor |
| Edit.RuneInsertThenRemove | pinentry-dmenu.c:350-366 | after one rune is inserted, the rune before the cursor starts where the insertion began, and removing it restores the entry |
| Edit.InsertKeepsAligned | pinentry-dmenu.c:98-111 | an insertion of a string that starts a rune keeps the cursor on a rune boundary |
| Edit.RemoveKeepsAligned | pinentry-dmenu.c:361-366 | removing the bytes from a boundary up to the cursor keeps the cursor on a boundary |
| Grab.GrabKeyboard | pinentry-dmenu.c:68-86 | embedded: no grab; otherwise the first of at most 1000 attempts that succeeds, or die exactly when all 1000 fail |
| Keys.EditKey | pinentry-dmenu.c:349-387 | the editing keys of PIN mode keep the text within capacity, NUL-free and the cursor inside it, whenever the bytes they would insert hold no NUL (keys whose first byte is a control character, such as Ctrl+Space's single 0, are never inserted) |
| Keys.RubOut | pinentry-dmenu.c:361-366 | BackSpace: nothing and no redraw at 0, else the bytes from the previous rune start up to the cursor are removed; stated by KeyLemmas.BackSpaceRemovesRuneBefore and KeyLemmas.EditsAtEndsAreNoOps |
| Keys.RubOutForward | pinentry-dmenu.c:355-360 | Delete: nothing and no redraw at the end of the text, else step over the rune at the cursor and fall through to BackSpace; stated by KeyLemmas.DeleteRemovesRuneAt and KeyLemmas.DeleteOffBoundary |
| Keys.CursorLeft | pinentry-dmenu.c:373-377 | Left: the previous rune start, or no move at 0; stated by KeyLemmas.LeftRightUndo |
| Keys.CursorRight | pinentry-dmenu.c:378-382 | Right: the next rune start, or no move at the end; stated by KeyLemmas.LeftRightUndo |
| Keys.TypeBytes | pinentry-dmenu.c:350-354 | any other key: its bytes are inserted at the cursor unless there are none or the first is a control character; stated by KeyLemmas.TypeThenBackSpace and KeyLemmas.CtrlSpaceIgnored |
| Keys.TypedBytesNulFree | pinentry-dmenu.c:350-353 | the condition the event-level results assume: every key press whose bytes keypress hands to insert() has no NUL among them |
| Keys.KeyStep | pinentry-dmenu.c:314-393 | keypress in either mode keeps the text well formed whenever the bytes it hands to insert hold no NUL |
| Keys.ConfirmKey | pinentry-dmenu.c:327-347 | in confirm mode Return, KP_Enter, y, Y, n, N and Escape end the loop without a redraw, confirmed ends true exactly for the first four, only Escape cancels, the text is never touched, and every other key only redraws |
| Keys.PinKey | pinentry-dmenu.c:348-388 | in PIN mode exactly Return, KP_Enter and Escape end the loop, leaving the text alone and not redrawing; only Escape cancels; confirmed is never touched; the text stays well formed |
| Keys.KeyTable | pinentry-dmenu.c:323-388 | overflow changes nothing; exactly Return, KP_Enter and Escape (and y, Y, n, N in confirm mode) return 1; only Escape sets canceled; keys that return 1 do not redraw and leave the text alone; confirm mode never edits the text, PIN mode never touches confirmed; confirmed ends true exactly for Return, KP_Enter, y, Y |
| Keys.Transferred | pinentry-dmenu.c:403-404 | the property data is a prefix of the selection of at most (sizeof text / 4 + 1) * 4 bytes, all of it when it is that short |
| Keys.LineLength | pinentry-dmenu.c:405 | the length inserted is up to the first newline or NUL, and no byte before it is either |
| Keys.PasteText | pinentry-dmenu.c:403-405 | the bytes pasted are a prefix of the selection holding no newline and no NUL |
| Keys.PasteStep | pinentry-dmenu.c:395-408 | when the property holds data, paste keeps the text well formed |
| Keys.EventStep | pinentry-dmenu.c:413-438 | one event keeps the text well formed |
| Keys.Run | pinentry-dmenu.c:410-440 | run over a stream of events keeps the text well formed, consumes at least one event when a key ends it and all of them otherwise |
| Keys.RunStep | pinentry-dmenu.c:413-438 | the outcome of run from position k is the event at k followed, unless it ended the loop, by run from k + 1 |
| KeyLemmas.EditsAtEndsAreNoOps | pinentry-dmenu.c:355-382 | BackSpace at 0 and Delete at the NUL change nothing and do not redraw; Left at 0 and Right at the NUL change nothing |
| KeyLemmas.BackSpaceRemovesRuneBefore | pinentry-dmenu.c:361-366 | BackSpace removes every byte of the rune before the cursor and moves the cursor to its start |
| KeyLemmas.DeleteRemovesRuneAt | pinentry-dmenu.c:355-366 | on a rune boundary, Delete removes the rune at the cursor and leaves the cursor where it was |
| KeyLemmas.DeleteOffBoundary | pinentry-dmenu.c:355-366 | off a boundary, Delete also removes the bytes before the cursor: text 61 80 with the cursor at 1 becomes empty |
| KeyLemmas.LeftRightUndo | pinentry-dmenu.c:373-382 | on a boundary, Left moves back and Right then restores the entry, and Right moves forward and Left then restores it |
| KeyLemmas.TypeThenBackSpace | pinentry-dmenu.c:350-366 | typing one rune that fits and pressing BackSpace restores the entry |
| KeyLemmas.DeleteKeepsAligned | pinentry-dmenu.c:355-366 | Delete keeps the cursor on a rune boundary |
| KeyLemmas.BackSpaceKeepsAligned | pinentry-dmenu.c:361-366 | BackSpace keeps the cursor on a rune boundary |
| KeyLemmas.EditKeyKeepsAligned | pinentry-dmenu.c:349-387 | every PIN-mode editing key keeps the cursor on a boundary, provided the bytes it inserts, if any, start a rune |
| KeyLemmas.KeyStepKeepsAligned | pinentry-dmenu.c:314-393 | every key press keeps the cursor on a boundary, provided the bytes keypress inserts, if any, start a rune |
| KeyLemmas.RunKeepsAligned | pinentry-dmenu.c:410-440 | over any stream of events the text stays within sizeof text - 1 bytes and the cursor on a boundary, provided the key bytes keypress inserts hold no NUL and every string it inserts (typed, or pasted from a UTF8_STRING selection) starts a rune; keys that are not inserted, such as Ctrl+Space, Return or any key in confirm mode, are unconstrained |
| KeyLemmas.RunStopsAtEnd | pinentry-dmenu.c:424-426 | once a key press ends run, the events after it make no difference |
| KeyLemmas.HelloBackSpace | pinentry-dmenu.c:361-366 | in "héllo" with the cursor after é, BackSpace removes both bytes of é |
| KeyLemmas.LineLengthAt | pinentry-dmenu.c:405 | the length paste inserts is the index of the first newline or NUL |
| KeyLemmas.PasteFirstLine | pinentry-dmenu.c:403-405 | pasting "pin\nrest" into an empty buffer inserts "pin" |
| KeyLemmas.PasteInsertsFirstLine | pinentry-dmenu.c:395-408 | paste splices exactly the selection's first line in at the cursor when it fits and changes nothing when it does not; a short selection with no newline or NUL is pasted whole |
| KeyLemmas.EventTable | pinentry-dmenu.c:413-438 | one event ends the loop exactly when it is a key press that keypress returns 1 for; events that do not end it leave canceled and confirmed alone; Escape is the only key that cancels; in confirm mode confirmed ends true exactly for Return, KP_Enter, y, Y |
| KeyLemmas.RunOutcome | pinentry-dmenu.c:410-440 | run returns exactly at the first key that ends the loop; canceled is set exactly when it was already set or that key is Escape; in confirm mode confirmed says whether that key was Return, KP_Enter, y or Y; PIN mode leaves confirmed alone |
| KeyLemmas.RunEndsAtFirst | pinentry-dmenu.c:410-440 | run returns after the first key press that ends the loop and after no earlier event |
| KeyLemmas.RunFlags | pinentry-dmenu.c:323-372 | the event that ends run is a key press; canceled ends set exactly when it started set or that key is Escape; in confirm mode confirmed says whether that key was Return, KP_Enter, y or Y; otherwise both flags are as they started |
| KeyLemmas.EndsLoop | pinentry-dmenu.c:323-347 | the key presses keypress returns 1 for: no overflow and Return, KP_Enter or Escape, or in confirm mode also y, Y, n, N |
| KeyLemmas.CtrlSpaceIgnored | pinentry-dmenu.c:350-353 | Ctrl+Space, whose looked-up bytes are the single byte 0, meets the stream condition and in password mode changes nothing and redraws, since iscntrl(0) holds |
| KeyLemmas.ConfirmTypesNothing | pinentry-dmenu.c:327-347 | confirm mode inserts nothing, so every stream of events meets the stream condition |
| PinEntry.StrLen | pinentry-dmenu.c:100 | strlen is the offset of a NUL with no NUL before it |
| PinEntry.StrLenAt | pinentry-dmenu.c:100 | a NUL with no NUL before it is where strlen stops |
| PinEntry.ShiftedContent | pinentry-dmenu.c:104-110 | after the memmove and memcpy of an insertion that fits, the buffer still has a NUL, strlen grew by n, and the bytes before it are the spliced text |
| PinEntry.ShiftedText | pinentry-dmenu.c:104-110 | the first strlen + n bytes after the memmove and memcpy are the text Edit.Insert describes, followed by the old NUL |
| PinEntry.Moved | pinentry-dmenu.c:105 | the buffer after memmove: the count bytes at src, read before any is written, now also at dst; the rest unchanged; PinEntry.MemMove ends in it |
| PinEntry.Copied | pinentry-dmenu.c:108 | the buffer after memcpy: the first count bytes of str at dst, the rest unchanged; PinEntry.MemCpy ends in it |
| PinEntry.Shifted | pinentry-dmenu.c:104-110 | insert()'s memmove of the buffer tail to the cursor plus n, then for n > 0 the memcpy of str at the cursor; PinEntry.ShiftedText and PinEntry.ShiftedContent tie it to Edit.Insert |
| PinEntry.MemMove | pinentry-dmenu.c:105 | memmove copies count bytes from src to dst, overlapping or not, and leaves the rest |
| PinEntry.MemCpy | pinentry-dmenu.c:108 | memcpy puts count bytes of str at dst and leaves the rest |
| PinEntry.Session.constructor | pinentry-dmenu.c:43-48 | the zeroed static buffer is an empty text with the cursor at 0 |
| PinEntry.Session.Reset | pinentry-dmenu.c:489-490 | the text becomes empty with the cursor at 0, and the bytes after the first stay as they were |
| PinEntry.Session.NextRune | pinentry-dmenu.c:88-96 | the scanning loop lands where Utf8.NextRuneStart / Utf8.PrevRuneStart say, and on -1 when stepping left from 0 |
| PinEntry.Session.Insert | pinentry-dmenu.c:98-111 | the buffer is unchanged when the text would not fit and the memmove/memcpy result otherwise; the text and cursor become Edit.Insert of the old ones |
| PinEntry.Session.Backspace | pinentry-dmenu.c:361-366 | the BackSpace case: nothing and no redraw at 0, otherwise the rune before the cursor goes |
| PinEntry.Session.EditKeyPress | pinentry-dmenu.c:349-387 | the PIN-mode editing keys change the text, cursor and redraw exactly as Keys.EditKey |
| PinEntry.Session.DeleteKey | pinentry-dmenu.c:355-366 | Delete returns without a redraw at the NUL, and otherwise steps over the rune at the cursor and rubs it out as BackSpace does (Keys.RubOutForward) |
| PinEntry.Session.LeftKey | pinentry-dmenu.c:373-377 | Left moves the cursor to Keys.CursorLeft of the entry: the previous rune start, or nowhere at 0 |
| PinEntry.Session.RightKey | pinentry-dmenu.c:378-382 | Right moves the cursor to Keys.CursorRight of the entry: the next rune start, or nowhere at the NUL |
| PinEntry.Session.TypeKey | pinentry-dmenu.c:350-354 | any other key inserts its bytes unless the first is a control character, as Keys.TypeBytes |
| PinEntry.Session.KeyPress | pinentry-dmenu.c:314-393 | keypress changes text, cursor, confirmed and canceled and returns exactly as Keys.KeyStep |
| PinEntry.Session.ConfirmKeyPress | pinentry-dmenu.c:327-347 | the confirm-mode switch changes confirmed and canceled and returns exactly as Keys.ConfirmKey |
| PinEntry.Session.PinKeyPress | pinentry-dmenu.c:348-388 | the PIN-mode switch changes the text, cursor and canceled and returns exactly as Keys.PinKey |
| PinEntry.Session.Paste | pinentry-dmenu.c:395-408 | when the property holds data, paste changes the text and cursor exactly as Keys.PasteStep |
| PinEntry.Session.HandleEvent | pinentry-dmenu.c:413-438 | one pass of run's loop acts exactly as Keys.EventStep |
| PinEntry.Session.Run | pinentry-dmenu.c:410-440 | the event loop ends in the state, after the number of events, and with the ending that Keys.Run gives |
| PinEntry.Session.CopyPin | pinentry-dmenu.c:468-469 | strcpy into a buffer of at least strlen(text) + 1 bytes copies the text and its NUL |
| PinEntry.Session.PromptWin | pinentry-dmenu.c:442-448 | the process dies exactly when the grab fails 1000 times, with the session unchanged; otherwise the event loop runs as Keys.Run |
| PinEntry.Session.Password | pinentry-dmenu.c:457-473 | password() gives the reply PasswordReply describes: die, -1 when canceled, or 1 with the text handed over as the PIN; the session is left unchanged when the grab dies and otherwise in the state Keys.Run ends in, so the PIN stays in the text buffer |
| PinEntry.Session.Confirm | pinentry-dmenu.c:475-482 | confirm() clears confirmed, runs the loop and replies with confirmed, as ConfirmReply describes; the session is left with confirmed cleared when the grab dies and otherwise in the state Keys.Run ends in from there |
| PinEntry.Session.CmdHandler | pinentry-dmenu.c:484-528 | cmdhandler empties the text and then asks for a PIN or a confirmation, with the reply HandlerReply describes, and leaves the session in PinEntry.HandlerState: what the next request starts from |
| PinEntry.PasswordReply | pinentry-dmenu.c:457-473 | password()'s reply from the state before it: die when the grab dies, waiting when the stream ends first, -1 when the loop ends canceled, else 1 with the final text; its meaning is stated by PinEntry.ReplyMeaning |
| PinEntry.ConfirmReply | pinentry-dmenu.c:475-482 | confirm()'s reply: die when the grab dies, waiting when the stream ends first, else the confirmed flag the loop ends with, starting from confirmed cleared; stated by PinEntry.ReplyMeaning |
| PinEntry.HandlerReply | pinentry-dmenu.c:484-528 | cmdhandler()'s reply: PasswordReply or ConfirmReply from an empty text with the cursor at 0; stated by PinEntry.ReplyMeaning |
| PinEntry.HandlerState | pinentry-dmenu.c:457-528 | the session after cmdhandler(): an empty text (confirmed cleared for confirm()) when the grab dies, else Keys.Run's final state from there; PinEntry.Session.CmdHandler ends in it |
| PinEntry.PinRequestTooSmall | pinentry-dmenu.c:468-469 | the strlen(text) bytes asked of secmem_malloc never hold what strcpy writes: the NUL it copies last goes to index strlen(text), the length of the request, one past the buffer's end |
| PinEntry.PinRequestAsWritten | pinentry-dmenu.c:468 | the size password() requests for the PIN copy: strlen(text) |
| PinEntry.ReplyMeaning | pinentry-dmenu.c:457-482 | password() returns -1 exactly when the session was canceled before or Escape ended it, else 1 with the final text; confirm() returns 1 exactly for Return, KP_Enter, y, Y and 0 for n, N, Escape; the process dies exactly when the grab fails |
| Placement.Overlap | pinentry-dmenu.c:27-28 | one axis of INTERSECT is non-negative, and positive exactly when both intervals are non-empty and overlap |
| Placement.Intersect | pinentry-dmenu.c:27-28 | INTERSECT is 0 or 1, and 1 exactly when both rectangles are non-empty and overlap on both axes |
| Placement.PointerIntersect | pinentry-dmenu.c:247-249 | INTERSECT(x, y, 1, 1, r) holds exactly when the half-open screen rectangle contains the pointer |
| Placement.FirstOverlap | pinentry-dmenu.c:235-240 | the first screen from j on that the window overlaps, none before it overlapping |
| Placement.FirstContaining | pinentry-dmenu.c:247-251 | the first screen from j on that holds the pointer, none before it holding it |
| Placement.ChosenMonitor | pinentry-dmenu.c:222-252 | a valid override wins; else the first screen the focused window overlaps; else, with no override, the first screen holding the pointer, or n when none does; else screen 0 |
| Placement.SelectMonitor | pinentry-dmenu.c:222-252 | the selection loops end on Placement.ChosenMonitor |
| Placement.Bar | pinentry-dmenu.c:254-256 | the bar starts at the screen's left edge, is as wide as the screen, and touches its top edge (topbar) or its bottom edge |
| Placement.BarInsideScreen | pinentry-dmenu.c:254-256 | a bar no taller than the screen lies inside it |
| Placement.Setup | pinentry-dmenu.c:219-267 | on the Xinerama path the bar goes on the chosen screen, and info[n] is read exactly when the choice is n; otherwise die exactly when the embedding window's attributes are missing, else the bar spans that window |
| Placement.PointerOffScreens | pinentry-dmenu.c:245-254 | with the pointer in the gap below the shorter of two screens, the choice is n and setup reads info[n] |
| Placement.Area | pinentry-dmenu.c:233-240 | the product of the two overlaps is non-negative, and positive exactly when INTERSECT is 1 |
| Placement.FirstOverlapNotLargest | pinentry-dmenu.c:233-240 | a window with a third of itself on screen 0 and two thirds on screen 1 is placed on screen 0 |
| Placement.SelectMonitorCorrected | pinentry-dmenu.c:222-256 | with the area product and a fallback to screen 0 the choice is always a screen: the override, else the first screen of largest overlap area, else the first holding the pointer, else 0 |
| Placement.IntendedChoiceExamples | pinentry-dmenu.c:233-254 | under the corrected choice the straddling window goes to screen 1 and the pointer in the gap to screen 0 |
| Mask.Repeat | pinentry-dmenu.c:169-170 | n copies of the asterisk string are n * strlen(asterisk) bytes long |
| Mask.RepeatPrefix | pinentry-dmenu.c:175 | the first cursor * strlen(asterisk) bytes of the mask are exactly cursor copies of the asterisk string |
| Mask.RepeatNulFree | pinentry-dmenu.c:169-174 | a NUL-free asterisk string gives a NUL-free mask |
| Mask.FillMask | pinentry-dmenu.c:169-171 | the copy loop on a zeroed buffer leaves i = asterlen * strlen(text), one asterisk string per text byte before i, and zeros after |
| Mask.CensorAsWritten | pinentry-dmenu.c:117-173 | on a buffer of asterlen * sizeof text zeroed bytes, the mask is NUL-terminated at i and '\n' lands at i + 1, provided i + 1 is inside the buffer |
| Mask.NewlineOutOfBounds | pinentry-dmenu.c:117-173 | the '\n' at i + 1 lies outside the strlen(asterisk) * sizeof text buffer exactly when the asterisk is empty, or is one byte and the text is full |
| Mask.FullTextReachable | pinentry-dmenu.c:350-354 | typing sizeof text - 1 ordinary bytes into the empty text fills it (and so does an unsolicited paste of that many bytes), so CensorAsWritten's bound fails for a one-byte asterisk |
| KeyLemmas.TypingFills | pinentry-dmenu.c:410-440 | each typed 'a' is appended while the text fits: the loop consumes every press, does not end, and leaves the flags alone |
| Mask.Censor | pinentry-dmenu.c:117-175 | with room for the terminator, for every text the buffer can hold the drawn C string is exactly one asterisk string per byte |
| Mask.MaskCountsBytes | pinentry-dmenu.c:117-175 | the corrected mask for the one rune é (two bytes) with asterisk "*" is the C string of two asterisks |

## Left out

- X11 plumbing is left out: the display connection, window creation, the input method (`XmbLookupString`, `XFilterEvent`), drawing and fonts (`drw_*`, `TEXTW`, `drw_font_getexts`), `drw_map` and `XRaiseWindow`. These are foreign calls. Key presses, selections and screen data are model inputs. Events the input method filters never reach the model. Drawing appears only as the `redraw` flag and the masked string.
- The widths `promptw`, `ppromptw` and `inputw`, and the window and input-method setup after line 267, need font metrics and X calls.
- The focus walk with `XQueryTree` and the queries `XGetWindowAttributes`, `XQueryPointer` and `XineramaQueryScreens` are foreign calls. Only their results enter `Placement.Setup`, as optional inputs. Xinerama's `NULL` answer is an empty screen list.
- `mon` is always -1 in this file, since nothing sets it. It stays a parameter so that the override branch is modelled.
- `embed` is never assigned in this file either, so it is always NULL: the early return of grabkeyboard() (line 72), the embedding branch of setup() (line 287) and the `strtol(embed)` branch of cmdhandler() (line 501) cannot be taken, and `parentwin` is always the root window, so the attributes read on setup()'s other path (line 261) are the root window's. `embedded` stays a parameter of Grab.GrabKeyboard and PinEntry.Session.PromptWin so that those branches are modelled.
- PinEntry.Session.PromptWin does not call setup(). The geometry has no effect on the password state and is modelled separately in `Placement.Setup`, including its `die`.
- The SIGALRM timeout (`catchsig`, `alarm`) is asynchronous signal handling. `timed_out` is never read, so there is no timeout transition to model.
- The pinentry library is foreign code: its protocol loop, `secmem_malloc`, `pinentry_setbuffer_use`, option parsing and `main`. The PIN handed over is the `pin` field of `PinEntry.Reply`. `pinentry->canceled` is taken as it stands when the request starts.
- Keys.PasteStep / PinEntry.Session.Paste model only a `SelectionNotify` whose UTF8_STRING property holds data. paste() ignores the result of `XGetWindowProperty` (lines 403-404) and calls `strchr` on the returned pointer at line 405; when the window has no such property, Xlib leaves that pointer NULL and the call dereferences it, a crash the model does not represent (`Event.SelectionNotify` always carries bytes). The program never calls `XConvertSelection` (`clip` is interned at line 213 and never used), so every `SelectionNotify` it handles is sent by another client, and such an event may well arrive without the property.
- Keys.Run and PinEntry.Session.Run see a finite stream of events. When the stream ends before a key ends the loop, the real program would still be waiting (`Reply.Waiting`). A failing `XNextEvent` is not modelled.
- PinEntry.Session.NextRune: the C function returns `size_t`, so its -1 is really `SIZE_MAX`. The -1 arises only when stepping back from cursor 0, and `nextrune(cursor, -1)` is never called there: Left (line 375) checks `cursor > 0` first, BackSpace (line 365) returns early at cursor 0, and Delete (line 359) moves the cursor forward before falling through to BackSpace. The model keeps -1, which is never observed.
- PinEntry.Session.Backspace: `nextrune(cursor, -1) - cursor` is computed in `size_t` and wraps to the negative `ssize_t` insert receives. The model uses the integer difference.
- Coordinates are unbounded integers. The `short` fields of `XineramaScreenInfo` and `int` arithmetic do not overflow in the model.
- `iscntrl` depends on the locale. It is a predicate parameter on the first looked-up byte.
- Keys.Run, KeyLemmas.RunOutcome, KeyLemmas.RunKeepsAligned and the session methods that run the loop assume Keys.TypedBytesNulFree: a key press whose bytes keypress inserts, because the first is not a control character, holds no NUL further on. Such a press would let insert() copy a NUL into the text and cut it short, which the text model (bytes before the first NUL) does not follow. Keys whose bytes are not inserted are unconstrained, including Ctrl+Space's single byte 0 and every key in confirm mode.

## Findings

| source | as written | input that shows it | evidently intended | confidence | as-written member | corrected member |
|---|---|---|---|---|---|---|
| pinentry-dmenu.c:245-254 | the pointer loop ends with i == n when no screen holds the pointer, and info[n] is read | screens 1920x1080 at (0,0) and 1280x1024 at (1920,0), no focused window on screen, pointer at (2000,1050) | fall back to screen 0 | high that info[n] is read; not executed | Placement.PointerOffScreens | Placement.SelectMonitorCorrected |
| pinentry-dmenu.c:27-28 | INTERSECT joins the two overlaps with `&&`, so the "intersects most" loop keeps the first screen with any overlap | screens (0,0,1000,800) and (1000,0,1000,800), focused window (900,100,300,300): screen 0 is chosen with area 30000 against 60000 | multiply the overlaps and keep the screen the window intersects most (line 233) | high; not executed | Placement.FirstOverlapNotLargest | Placement.SelectMonitorCorrected |
| pinentry-dmenu.c:173 | `censort[i+1] = '\n'` is written one past the mask's terminator; it falls outside the asterlen * sizeof text buffer when the asterisk is empty (for every text) or is one byte and the text is full, and stays inside for longer asterisks | asterisk "*", text of 8191 bytes: i + 1 == 8192 == the buffer's length; asterisk "": the buffer has no bytes and index 1 is written | terminate the mask at i inside the buffer, with one byte of room for it | high; not executed | Mask.NewlineOutOfBounds | Mask.Censor |
| pinentry-dmenu.c:468-469 | `secmem_malloc(strlen(text))` is followed by `strcpy`, which writes strlen(text) + 1 bytes | the PIN "a": 1 byte requested, 2 written | request strlen(text) + 1 bytes | medium (the allocator may round sizes up); not executed | PinEntry.PinRequestTooSmall | PinEntry.Session.Password |
