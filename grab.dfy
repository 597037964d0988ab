/** grabkeyboard() of pinentry-dmenu.c: when not embedded, try to grab the
    keyboard up to 1000 times (1 ms apart) and give up fatally if every
    attempt fails. The X server's answers are an oracle: `grabbed(k)` is
    whether attempt number k succeeds. */
module Grab {

  const GrabAttempts: nat := 1000

  datatype GrabResult =
    | Skipped               // embedded in a host window: no grab at all
    | Grabbed(attempt: nat) // attempt number `attempt` (from 0) succeeded
    | GaveUp                // die("cannot grab keyboard")

  method GrabKeyboard(embedded: bool, grabbed: nat -> bool) returns (r: GrabResult)
    ensures r == Skipped <==> embedded
    ensures r.Grabbed? ==> r.attempt < GrabAttempts && grabbed(r.attempt)
    ensures r.Grabbed? ==> forall k :: 0 <= k < r.attempt ==> !grabbed(k)
    ensures r == GaveUp <==> !embedded && forall k :: 0 <= k < GrabAttempts ==> !grabbed(k)
  {
    if embedded {
      return Skipped;
    }
    var i := 0;
    while i < GrabAttempts
      invariant 0 <= i <= GrabAttempts
      invariant forall k :: 0 <= k < i ==> !grabbed(k)
    {
      if grabbed(i) {
        return Grabbed(i);
      }
      // usleep(1000): time is not modelled
      i := i + 1;
    }
    return GaveUp;
  }
}
