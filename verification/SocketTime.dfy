/** The deadline arithmetic of basic_socket_streambuf: points in time are 64-bit counts of
    nanoseconds. */
module SocketTime {
  import opened AsioTypes

  const INT64_MAX: int := 0x7FFF_FFFF_FFFF_FFFF
  const INT64_MIN: int := -0x8000_0000_0000_0000
  const NS_PER_MS: int := 1_000_000

  /** time_point::max(), the expiry of a stream buffer that has none. */
  const MAX_EXPIRY: int := INT64_MAX

  predicate IsInt64(t: int) {
    INT64_MIN <= t <= INT64_MAX
  }

  /** Arithmetic on this type is checked to stay in it. */
  newtype Int64 = x: int | -0x8000_0000_0000_0000 <= x <= 0x7FFF_FFFF_FFFF_FFFF

  /** chrono_time_traits::subtract, case by case, with the epoch at 0: a difference that saturates at the
      ends of the 64-bit range, of which no intermediate value leaves that range. */
  function Subtract(t1: Int64, t2: Int64): (d: Int64)
    ensures d as int == Saturated(t1 as int - t2 as int)
  {
    var max := INT64_MAX as Int64;
    var min := INT64_MIN as Int64;
    if t1 >= 0 then
      if t2 >= 0 then t1 - t2
      else if t2 == min then max
      else if max - t1 < 0 - t2 then max
      else t1 - t2
    else
      if t2 < 0 then t1 - t2
      else if t1 == min then min
      else if max - t2 < 0 - t1 then min
      else -(t2 - t1)
  }

  function Saturated(d: int): (r: int)
    ensures IsInt64(r) && (IsInt64(d) ==> r == d)
    ensures d > INT64_MAX ==> r == INT64_MAX
    ensures d < INT64_MIN ==> r == INT64_MIN
  {
    Max(INT64_MIN, Min(INT64_MAX, d))
  }

  /** Integer division as in C++: towards zero. */
  function TruncDiv(a: int, b: int): int
    requires b > 0
  {
    if a >= 0 then a / b else -(-a / b)
  }

  /** timeout(): the milliseconds from now to the expiry, clamped to what an int can hold. The time that
      is left is what Subtract returns; for a reading past the 64-bit range, which no clock reaches, it is
      taken to saturate in the same way. */
  function Timeout(expiry: int, now: int): (msec: int)
    ensures 0 <= msec <= INT_MAX
  {
    var msec := TruncDiv(Saturated(expiry - now), NS_PER_MS);
    if msec > INT_MAX then INT_MAX else if msec < 0 then 0 else msec
  }

  /** A poll is never asked to wait past the expiry, and otherwise to wait as long as whole milliseconds
      and the width of an int allow; after the expiry it is asked not to wait at all. */
  lemma TimeoutIsTheLongestWait(expiry: int, now: int)
    requires IsInt64(expiry) && INT64_MIN <= now
    ensures var msec := Timeout(expiry, now);
            && (now <= expiry ==> now + msec * NS_PER_MS <= expiry)
            && (now <= expiry && msec < INT_MAX ==> now + (msec + 1) * NS_PER_MS > expiry)
            && (now > expiry ==> msec == 0)
  {
  }

  /** For every reading that a clock can give, timeout() divides what chrono_time_traits::subtract returns. */
  lemma TimeoutUsesSubtract(expiry: Int64, now: Int64)
    ensures var msec := TruncDiv(Subtract(expiry, now) as int, NS_PER_MS);
            Timeout(expiry as int, now as int) == Max(0, Min(INT_MAX, msec))
  {
  }

  /** The system calls of a stream buffer, with their results: readings of the clock; the switch to
      non-blocking mode; attempts to send what is offered or to receive into some room, which move some
      bytes or leave an error, and may block if the mode is blocking; polls; and the calls that end and make
      a connection. */
  datatype Call =
    | Reading(at: int)
    | Switched(ec: Ec)
    | Sent(blocking: bool, offered: seq<Byte>, moved: nat, ec: Ec)
    | Received(blocking: bool, room: nat, moved: nat, ec: Ec)
    | Polled(msec: int, ok: bool, ec: Ec)
    | Closing(ec: Ec)
    | Opened(ec: Ec)
    | Connecting(endpoint: nat, blocking: bool, ec: Ec)
    | PolledConnect(msec: int, r: int, ec: Ec)
    | Queried(ok: bool, ec: Ec, soError: Ec)

  predicate Blocked(ec: Ec) {
    ec == WouldBlock || ec == TryAgain
  }

  predicate IsAttempt(call: Call) {
    call.Sent? || call.Received?
  }

  /** An attempt that moved nothing, because it would have blocked. */
  predicate Stalled(call: Call) {
    IsAttempt(call) && call.moved == 0 && Blocked(call.ec)
  }

  /** A result after which a transfer is given up. */
  predicate Fatal(call: Call) {
    || (IsAttempt(call) && call.moved == 0 && !Blocked(call.ec))
    || (call.Polled? && !call.ok)
  }

  function Last(calls: seq<Call>): Call
    requires calls != []
  {
    calls[|calls| - 1]
  }

  /** The i-th call is an attempt in time: the reading of the clock before it is not past the expiry; only
      the switch to non-blocking mode can come between; the attempt can block only if that switch has just
      failed; and what is offered to a send is not empty. */
  ghost predicate AttemptInTime(calls: seq<Call>, expiry: int, i: nat)
    requires i < |calls| && IsAttempt(calls[i])
  {
    && i > 0
    && (calls[i].blocking ==> calls[i - 1].Switched? && calls[i - 1].ec != Clear)
    && (calls[i].Sent? ==> calls[i].offered != [] && calls[i].moved <= |calls[i].offered|)
    && var reading := if calls[i - 1].Switched? then i - 2 else i - 1;
       reading >= 0 && calls[reading].Reading? && calls[reading].at <= expiry
  }

  ghost predicate CallInTime(calls: seq<Call>, expiry: int, i: nat)
    requires i < |calls|
  {
    && (i + 1 < |calls| ==> !Fatal(calls[i]))
    && (IsAttempt(calls[i]) ==> AttemptInTime(calls, expiry, i))
    && (calls[i].Polled? ==>
          i > 0 && calls[i - 1].Reading? && calls[i].msec == Timeout(expiry, calls[i - 1].at))
    && (calls[i].Polled? && i > 1 ==> Stalled(calls[i - 2]))
    && (Stalled(calls[i]) && i + 1 < |calls| ==> i + 2 < |calls| && calls[i + 2].Polled?)
  }

  /** The discipline of a transfer with a deadline: every attempt is in time; an attempt that would have
      blocked is followed by a poll, and no other is; every poll waits for what the reading directly before
      it left; and nothing follows a fatal result. */
  ghost predicate InTime(calls: seq<Call>, expiry: int) {
    forall i :: 0 <= i < |calls| ==> CallInTime(calls, expiry, i)
  }

  /** Whether a transfer can go on after these calls: at its beginning, or after an attempt or a poll that
      was not fatal. */
  predicate MayGoOn(calls: seq<Call>) {
    calls != [] ==> (IsAttempt(Last(calls)) || Last(calls).Polled?) && !Fatal(Last(calls))
  }

  /** More calls are a poll exactly if these calls ended in an attempt that would have blocked. */
  predicate Continues(calls: seq<Call>, more: seq<Call>) {
    && more != [] && more[0].Reading?
    && (|more| > 1 && more[1].Polled? <==> calls != [] && Stalled(Last(calls)))
  }

  lemma InTimeAppend(calls: seq<Call>, more: seq<Call>, expiry: int)
    requires InTime(calls, expiry) && InTime(more, expiry)
    requires MayGoOn(calls) && Continues(calls, more)
    ensures InTime(calls + more, expiry)
  {
    var all := calls + more;
    forall i | 0 <= i < |all|
      ensures CallInTime(all, expiry, i)
    {
      if i < |calls| {
        assert CallInTime(calls, expiry, i);
        InTimeBefore(calls, more, expiry, i);
      } else {
        assert CallInTime(more, expiry, i - |calls|);
        InTimeAfter(calls, more, expiry, i - |calls|);
      }
    }
  }

  lemma InTimeBefore(calls: seq<Call>, more: seq<Call>, expiry: int, i: nat)
    requires i < |calls| && CallInTime(calls, expiry, i)
    requires MayGoOn(calls) && Continues(calls, more) && CallInTime(calls, expiry, |calls| - 1)
    ensures CallInTime(calls + more, expiry, i)
  {
    var all := calls + more;
    assert all[i] == calls[i];
    if i + 1 == |calls| {
      assert all[i + 1] == more[0];
      if Stalled(calls[i]) {
        assert all[i + 2] == more[1];
      }
    } else {
      assert all[i + 1] == calls[i + 1];
    }
  }

  lemma InTimeAfter(calls: seq<Call>, more: seq<Call>, expiry: int, j: nat)
    requires j < |more| && CallInTime(more, expiry, j)
    requires Continues(calls, more)
    ensures CallInTime(calls + more, expiry, |calls| + j)
  {
    var all := calls + more;
    assert forall k :: 0 <= k < |more| ==> all[|calls| + k] == more[k];
    if j == 1 && more[1].Polled? {
      assert all[|calls| - 1] == Last(calls);
    }
  }

  /** Why a transfer failed, and with which error: the deadline had passed, an attempt failed for another
      reason than that it would block, or a poll failed. An attempt that moves nothing without an error
      leaves atEnd. */
  ghost predicate GaveUp(calls: seq<Call>, expiry: int, ec: Ec, atEnd: Ec) {
    && calls != []
    && match Last(calls)
       case Reading(at) => at > expiry && ec == TimedOutEc
       case Sent(_, offered, moved, e) =>
         offered != [] && moved == 0 && !Blocked(e) && ec == (if e == Clear then atEnd else e)
       case Received(_, _, moved, e) => moved == 0 && !Blocked(e) && ec == (if e == Clear then atEnd else e)
       case Polled(_, ok, e) => !ok && ec == e
       case _ => false
  }

  lemma GaveUpAppend(calls: seq<Call>, more: seq<Call>, expiry: int, ec: Ec, atEnd: Ec)
    requires GaveUp(more, expiry, ec, atEnd)
    ensures GaveUp(calls + more, expiry, ec, atEnd)
  {
    assert (calls + more)[|calls + more| - 1] == more[|more| - 1];
  }

  /** No poll of a loop that is in time is asked to wait past the expiry. */
  lemma NoPollPastExpiry(calls: seq<Call>, expiry: int, i: nat)
    requires InTime(calls, expiry) && IsInt64(expiry) && 0 < i < |calls| && calls[i].Polled?
    requires forall j :: 0 <= j < |calls| && calls[j].Reading? ==> INT64_MIN <= calls[j].at
    ensures 0 <= calls[i].msec <= INT_MAX
    ensures calls[i - 1].Reading? && calls[i - 1].at + calls[i].msec * NS_PER_MS <= Max(expiry, calls[i - 1].at)
  {
    assert CallInTime(calls, expiry, i);
    TimeoutIsTheLongestWait(expiry, calls[i - 1].at);
  }

  // --- What is offered ---

  /** How many bytes the sends among these calls have moved. */
  function MovedIn(calls: seq<Call>): nat {
    if calls == [] then 0
    else MovedIn(calls[..|calls| - 1]) + if Last(calls).Sent? then Last(calls).moved else 0
  }

  /** If the i-th call is a send, it is offered exactly what the sends before it have not taken. */
  ghost predicate OffersRest(calls: seq<Call>, output: seq<Byte>, i: nat)
    requires i < |calls|
  {
    calls[i].Sent? ==>
      var moved := MovedIn(calls[..i]);
      moved <= |output| && calls[i].offered == output[moved..]
  }

  /** So the first send is offered everything, and each other one what is left. */
  ghost predicate Offers(calls: seq<Call>, output: seq<Byte>) {
    forall i :: 0 <= i < |calls| ==> OffersRest(calls, output, i)
  }

  predicate NoSend(calls: seq<Call>) {
    forall i :: 0 <= i < |calls| ==> !calls[i].Sent?
  }

  lemma OffersOne(calls: seq<Call>, call: Call, output: seq<Byte>)
    requires Offers(calls, output)
    requires call.Sent? ==> MovedIn(calls) <= |output| && call.offered == output[MovedIn(calls)..]
    ensures Offers(calls + [call], output)
    ensures MovedIn(calls + [call]) == MovedIn(calls) + if call.Sent? then call.moved else 0
  {
    var all := calls + [call];
    assert all[..|calls|] == calls;
    forall i | 0 <= i < |all|
      ensures OffersRest(all, output, i)
    {
      if i < |calls| {
        assert OffersRest(calls, output, i) && all[..i] == calls[..i];
      }
    }
  }

  lemma {:induction false} OffersNoSend(calls: seq<Call>, more: seq<Call>, output: seq<Byte>)
    requires Offers(calls, output) && NoSend(more)
    ensures Offers(calls + more, output) && MovedIn(calls + more) == MovedIn(calls)
  {
    if more == [] {
      assert calls + more == calls;
    } else {
      var n := |more| - 1;
      OffersNoSend(calls, more[..n], output);
      OffersOne(calls + more[..n], more[n], output);
      assert calls + more == (calls + more[..n]) + [more[n]];
    }
  }

  /** A turn that ends in a send. */
  lemma OffersTurn(calls: seq<Call>, quiet: seq<Call>, send: Call, output: seq<Byte>)
    requires Offers(calls, output) && NoSend(quiet) && send.Sent?
    requires MovedIn(calls) <= |output| && send.offered == output[MovedIn(calls)..]
    ensures Offers(calls + (quiet + [send]), output)
    ensures MovedIn(calls + (quiet + [send])) == MovedIn(calls) + send.moved
  {
    OffersNoSend(calls, quiet, output);
    OffersOne(calls + quiet, send, output);
    assert calls + (quiet + [send]) == (calls + quiet) + [send];
  }
}
