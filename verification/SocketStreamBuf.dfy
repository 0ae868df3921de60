/** basic_socket_streambuf: buffered or unbuffered output with partial sends and deadlines, and buffered
    input. */
module Subsequences {
  /** a can be obtained from b by leaving elements out. */
  ghost predicate Subsequence<T>(a: seq<T>, b: seq<T>)
    decreases |b|
  {
    if b == [] then a == []
    else
      var n, m := |a| - 1, |b| - 1;
      Subsequence(a, b[..m]) || (a != [] && a[n] == b[m] && Subsequence(a[..n], b[..m]))
  }

  lemma {:induction false} SubsequenceOfLonger<T>(a: seq<T>, b: seq<T>, more: seq<T>)
    requires Subsequence(a, b)
    ensures Subsequence(a, b + more)
    decreases |more|
  {
    if more == [] {
      assert b + more == b;
    } else {
      var m := |more| - 1;
      SubsequenceOfLonger(a, b, more[..m]);
      assert (b + more)[..|b + more| - 1] == b + more[..m];
    }
  }

  lemma {:induction false} SubsequenceExtended<T>(a: seq<T>, b: seq<T>, more: seq<T>)
    requires Subsequence(a, b)
    ensures Subsequence(a + more, b + more)
    decreases |more|
  {
    if more == [] {
      assert b + more == b && a + more == a;
    } else {
      var m := |more| - 1;
      SubsequenceExtended(a, b, more[..m]);
      assert (b + more)[..|b + more| - 1] == b + more[..m];
      assert (a + more)[..|a + more| - 1] == a + more[..m];
    }
  }

  lemma {:induction false} SubsequenceIsReflexive<T>(a: seq<T>)
    ensures Subsequence(a, a)
  {
    if a != [] {
      SubsequenceIsReflexive(a[..|a| - 1]);
    }
  }
}

module SocketStreamBuffer {
  import opened AsioTypes
  import opened SocketTime
  import opened SocketEnvironment
  import opened Subsequences
  import opened ConnectSpec

  const BUFFER_SIZE: nat := 512
  const PUTBACK_MAX: nat := 8

  /** The positions of the get area and of the put area, as setg and setp set them. */
  datatype GetArea = GetArea(back: int, next: int, end: int)

  datatype PutArea = PutArea(base: int, next: int, end: int)

  /** The characters accepted for output; those of them that flushes which succeeded have sent; and
      whether no failing flush has sent anything. */
  datatype History = History(accepted: seq<Byte>, flushed: seq<Byte>, exact: bool)

  /** Conservation of output: what was flushed and what is pending is what was accepted, in order; what was
      flushed arrived on the wire in order; and there is more on the wire exactly if a failing flush has sent
      something. */
  ghost predicate OutputIs(h: History, wire: seq<Byte>, pending: seq<Byte>) {
    && h.accepted == h.flushed + pending
    && Subsequence(h.flushed, wire)
    && (if h.exact then h.flushed == wire else |h.flushed| < |wire|)
  }

  lemma NothingYet()
    ensures OutputIs(History([], [], true), [], [])
  {
    SubsequenceIsReflexive<Byte>([]);
  }

  lemma FlushFailed(h: History, wire: seq<Byte>, pending: seq<Byte>, sent: seq<Byte>)
    requires OutputIs(h, wire, pending)
    ensures OutputIs(h.(exact := h.exact && sent == []), wire + sent, pending)
  {
    SubsequenceOfLonger(h.flushed, wire, sent);
    if sent == [] {
      assert wire + sent == wire;
    }
  }

  lemma FlushSucceeded(h: History, wire: seq<Byte>, pending: seq<Byte>)
    requires OutputIs(h, wire, pending)
    ensures OutputIs(h.(flushed := h.flushed + pending), wire + pending, [])
  {
    SubsequenceExtended(h.flushed, wire, pending);
  }

  lemma SentUnbuffered(h: History, wire: seq<Byte>, sent: seq<Byte>)
    requires OutputIs(h, wire, [])
    ensures OutputIs(History(h.accepted + sent, h.flushed + sent, h.exact), wire + sent, [])
  {
    SubsequenceExtended(h.flushed, wire, sent);
  }

  lemma AcceptedOne(h: History, wire: seq<Byte>, pending: seq<Byte>, b: Byte)
    requires OutputIs(h, wire, pending)
    ensures OutputIs(h.(accepted := h.accepted + [b]), wire, pending + [b])
  {
    assert h.flushed + (pending + [b]) == (h.flushed + pending) + [b];
  }

  /** Every receive asks for all that fits behind the putback gap. */
  predicate AsksForAll(calls: seq<Call>) {
    forall i :: 0 <= i < |calls| && calls[i].Received? ==> calls[i].room == BUFFER_SIZE - PUTBACK_MAX
  }

  lemma Regroup<T>(a: seq<T>, b: seq<T>, c: seq<T>)
    ensures a + (b + c) == (a + b) + c
  {
  }

  lemma SliceInTwo<T>(s: seq<T>, m: nat, n: nat)
    requires m + n <= |s|
    ensures s[..m] + s[m..][..n] == s[..m + n] && s[m..][n..] == s[m + n..]
  {
  }

  class SocketStreamBuf {
    var socket: Socket
    var ec: Ec
    var expiry: int

    // The two vectors, and the areas of std::streambuf in them.
    var getBuffer: array<Byte>
    var get: GetArea
    var putBuffer: array<Byte>
    var put: PutArea

    // What the callers have seen: what was taken for output, and the characters delivered.
    ghost var out: History
    ghost var delivered: seq<Byte>

    /** The constructor from a socket, with init_buffers. */
    constructor (s: Socket)
      requires s.Valid()
      ensures Valid() && socket == s && fresh(getBuffer) && fresh(putBuffer)
      ensures get == GetArea(0, PUTBACK_MAX, PUTBACK_MAX) && put == PutArea(0, 0, BUFFER_SIZE)
      ensures Pending() == [] && Unread() == []
      ensures ec == Clear && expiry == MAX_EXPIRY && out.exact
      ensures out.accepted == s.wire && delivered == s.received
    {
      socket, ec, expiry := s, Clear, MAX_EXPIRY;
      getBuffer := new Byte[BUFFER_SIZE](_ => 0);
      putBuffer := new Byte[BUFFER_SIZE](_ => 0);
      get := GetArea(0, PUTBACK_MAX, PUTBACK_MAX);
      put := PutArea(0, 0, BUFFER_SIZE);
      out, delivered := History(s.wire, s.wire, true), s.received;
      new;
      SubsequenceIsReflexive(s.wire);
    }

    ghost predicate Shape()
      reads this
    {
      && IsInt64(expiry)
      && getBuffer.Length == BUFFER_SIZE
      && 0 == get.back && PUTBACK_MAX <= get.next <= get.end <= BUFFER_SIZE
      && (putBuffer.Length == 0 || putBuffer.Length == BUFFER_SIZE)
      && 0 <= put.base <= put.next <= put.end == putBuffer.Length
      && getBuffer != putBuffer
    }

    /** The output that has been accepted and not been sent. */
    ghost function Pending(): seq<Byte>
      requires Shape()
      reads this, putBuffer
    {
      putBuffer[put.base..put.next]
    }

    /** The input that has been received and not been delivered. */
    ghost function Unread(): seq<Byte>
      requires Shape()
      reads this, getBuffer
    {
      getBuffer[get.next..get.end]
    }

    ghost predicate OutputOk()
      requires Shape()
      reads this, putBuffer, socket
    {
      OutputIs(out, socket.wire, Pending())
    }

    /** Conservation of input. */
    ghost predicate InputOk()
      requires Shape()
      reads this, getBuffer, socket
    {
      socket.received == delivered + Unread()
    }

    ghost predicate Valid()
      reads this, putBuffer, getBuffer, socket
    {
      Shape() && socket.Valid() && OutputOk() && InputOk()
    }

    /** Whatever calls have failed, every accepted character is on the wire or still pending, at least once
        and in order; and exactly once if and only if no failing flush has sent anything. */
    lemma NothingAcceptedIsLost()
      requires Valid()
      ensures Subsequence(out.accepted, socket.wire + Pending())
      ensures out.exact <==> out.accepted == socket.wire + Pending()
    {
      SubsequenceExtended(out.flushed, socket.wire, Pending());
      assert |out.accepted| == |out.flushed| + |Pending()|;
    }

    /** The switch to non-blocking mode, unless it is on. */
    method EnsureNonBlocking() returns (ghost more: seq<Call>)
      requires socket.Valid()
      modifies this`ec, socket`nonBlocking, socket`calls
      ensures socket.Valid() && socket.calls == old(socket.calls) + more
      ensures more == if old(socket.nonBlocking) then [] else [Switched(ec)]
      ensures if more == [] then socket.nonBlocking && ec == old(ec) else socket.nonBlocking == (ec == Clear)
    {
      more := [];
      if !socket.nonBlocking {
        ec := socket.SetNonBlocking();
        more := [Switched(ec)];
      }
    }

    /** The deadline check, and an attempt to send all the data that is made only if it passes. */
    method TrySend(data: seq<Byte>) returns (late: bool, bytes: int, ghost quiet: seq<Call>, ghost more: seq<Call>)
      requires socket.Valid() && data != []
      modifies this`ec, socket`wire, socket`now, socket`calls, socket`nonBlocking
      ensures socket.Valid() && socket.now >= old(socket.now)
      ensures socket.calls == old(socket.calls) + more && InTime(more, expiry)
      ensures more != [] && more[0].Reading? && NoSend(quiet) && (|more| > 1 ==> !more[1].Polled?)
      ensures if late then more == quiet && ec == TimedOutEc && bytes == 0 && GaveUp(more, expiry, ec, Clear)
              else bytes <= |data| && socket.now <= expiry
                   && more == quiet + [Sent(!socket.nonBlocking, data, Max(0, bytes), ec)]
      ensures expiry < old(socket.now) ==> late
      ensures socket.wire == old(socket.wire) + if bytes > 0 then data[..bytes] else []
    {
      var now := socket.ReadClock();
      more, quiet := [Reading(now)], [Reading(now)];
      if expiry < now {
        ec := TimedOutEc;
        return true, 0, quiet, more;
      }
      ghost var switch := EnsureNonBlocking();
      quiet := [Reading(now)] + switch;
      bytes, ec := socket.Send(data);
      more := quiet + [Sent(!socket.nonBlocking, data, Max(0, bytes), ec)];
      late := false;
    }

    /** A poll for what is left of the time. */
    method WaitReady() returns (ok: bool, ghost more: seq<Call>)
      requires socket.Valid()
      modifies this`ec, socket`now, socket`calls
      ensures socket.Valid() && socket.now > old(socket.now)
      ensures socket.calls == old(socket.calls) + more && InTime(more, expiry)
      ensures |more| == 2 && more[0].Reading? && more[1].Polled?
      ensures MayGoOn(more) <==> ok
      ensures !ok ==> GaveUp(more, expiry, ec, Clear) && GaveUp(more, expiry, ec, EofEc)
    {
      var now := socket.ReadClock();
      var msec := Timeout(expiry, now);
      var ready;
      ready, ec := socket.Poll(msec);
      more := [Reading(now), Polled(msec, ready >= 0, ec)];
      ok := ready >= 0;
    }

    /** The attempt at the beginning of a turn of SendAll. */
    method AttemptTurn(rest: seq<Byte>, ghost output: seq<Byte>, ghost before: seq<Call>)
      returns (late: bool, bytes: int, ghost more: seq<Call>)
      requires socket.Valid() && rest != []
      requires InTime(before, expiry) && MayGoOn(before) && (before != [] ==> !Stalled(Last(before)))
      requires Offers(before, output) && MovedIn(before) <= |output| && rest == output[MovedIn(before)..]
      modifies this`ec, socket`wire, socket`now, socket`calls, socket`nonBlocking
      ensures socket.Valid() && socket.now >= old(socket.now) && bytes <= |rest|
      ensures socket.calls == old(socket.calls) + more && InTime(before + more, expiry)
      ensures Offers(before + more, output) && MovedIn(before + more) == MovedIn(before) + Max(0, bytes)
      ensures more != []
              && if late then bytes == 0 && GaveUp(before + more, expiry, ec, Clear)
                 else socket.now <= expiry
                      && Last(before + more) == Sent(!socket.nonBlocking, rest, Max(0, bytes), ec)
      ensures expiry < old(socket.now) ==> late
      ensures socket.wire == old(socket.wire) + rest[..Max(0, bytes)]
    {
      ghost var quiet;
      late, bytes, quiet, more := TrySend(rest);
      InTimeAppend(before, more, expiry);
      if late {
        OffersNoSend(before, more, output);
        GaveUpAppend(before, more, expiry, ec, Clear);
      } else {
        OffersTurn(before, quiet, Sent(!socket.nonBlocking, rest, Max(0, bytes), ec), output);
      }
    }

    /** The poll at its end, if the attempt would have blocked. */
    method PollTurn(ghost output: seq<Byte>, ghost before: seq<Call>) returns (ok: bool, ghost more: seq<Call>)
      requires socket.Valid() && InTime(before, expiry)
      requires before != [] && Stalled(Last(before)) && Offers(before, output)
      modifies this`ec, socket`now, socket`calls
      ensures socket.Valid() && old(socket.now) < socket.now
      ensures socket.calls == old(socket.calls) + more && InTime(before + more, expiry)
      ensures Offers(before + more, output) && MovedIn(before + more) == MovedIn(before)
      ensures if ok then MayGoOn(before + more) && !Stalled(Last(before + more))
              else GaveUp(before + more, expiry, ec, Clear)
    {
      ok, more := WaitReady();
      InTimeAppend(before, more, expiry);
      OffersNoSend(before, more, output);
      assert Last(before + more) == Last(more);
      if !ok {
        GaveUpAppend(before, more, expiry, ec, Clear);
      }
    }

    /** A turn of the loop of SendAll. */
    method SendTurn(rest: seq<Byte>, ghost output: seq<Byte>, ghost before: seq<Call>)
      returns (ok: bool, bytes: nat, ghost more: seq<Call>)
      requires socket.Valid() && rest != []
      requires InTime(before, expiry) && MayGoOn(before) && (before != [] ==> !Stalled(Last(before)))
      requires Offers(before, output) && MovedIn(before) <= |output| && rest == output[MovedIn(before)..]
      modifies this`ec, socket`wire, socket`now, socket`calls, socket`nonBlocking
      ensures socket.Valid() && socket.now >= old(socket.now)
      ensures bytes <= |rest| && (ok && bytes == 0 ==> old(socket.now) < socket.now && old(socket.now) <= expiry)
      ensures more != [] && socket.calls == old(socket.calls) + more && InTime(before + more, expiry)
      ensures Offers(before + more, output) && MovedIn(before + more) == MovedIn(before) + bytes
      ensures if ok then MayGoOn(before + more) && !Stalled(Last(before + more))
              else bytes == 0 && GaveUp(before + more, expiry, ec, Clear)
      ensures expiry < old(socket.now) ==> !ok
      ensures socket.wire == old(socket.wire) + rest[..bytes]
    {
      var late, n;
      late, n, more := AttemptTurn(rest, output, before);
      ok, bytes := n > 0, Max(0, n);
      if !late && n <= 0 && (ec == WouldBlock || ec == TryAgain) {
        ghost var wait;
        ok, wait := PollTurn(output, before + more);
        Regroup(before, more, wait);
        more := more + wait;
      }
    }

    /** The same, in terms of what was there before the loop. */
    method SendMore(rest: seq<Byte>, ghost output: seq<Byte>, ghost before: seq<Call>, ghost calls0: seq<Call>, ghost wire0: seq<Byte>)
      returns (ok: bool, bytes: nat, ghost calls: seq<Call>)
      requires socket.Valid() && rest != []
      requires InTime(before, expiry) && MayGoOn(before) && (before != [] ==> !Stalled(Last(before)))
      requires Offers(before, output) && MovedIn(before) <= |output| && rest == output[MovedIn(before)..]
      requires socket.calls == calls0 + before && socket.wire == wire0 + output[..MovedIn(before)]
      modifies this`ec, socket`wire, socket`now, socket`calls, socket`nonBlocking
      ensures socket.Valid() && socket.now >= old(socket.now)
      ensures bytes <= |rest| && (ok && bytes == 0 ==> old(socket.now) < socket.now && old(socket.now) <= expiry)
      ensures socket.calls == calls0 + calls && InTime(calls, expiry) && Offers(calls, output)
      ensures MovedIn(calls) == MovedIn(before) + bytes && rest[bytes..] == output[MovedIn(calls)..]
      ensures if ok then MayGoOn(calls) && calls != [] && !Stalled(Last(calls))
              else bytes == 0 && GaveUp(calls, expiry, ec, Clear)
      ensures expiry < old(socket.now) ==> !ok
      ensures socket.wire == wire0 + output[..MovedIn(calls)]
    {
      ghost var more;
      ghost var sent := MovedIn(before);
      ok, bytes, more := SendTurn(rest, output, before);
      Regroup(calls0, before, more);
      SliceInTwo(output, sent, bytes);
      Regroup(wire0, output[..sent], rest[..bytes]);
      calls := before + more;
    }

    /** The loop of overflow that sends a buffer. It ends, since a poll takes time. It sends everything, or
        a proper prefix if it gives up, and it gives up only for one of the reasons of GaveUp. The first
        attempt is offered everything, and every other one exactly what those before it have not taken. */
    method SendAll(output: seq<Byte>) returns (ok: bool, ghost calls: seq<Call>, ghost sent: nat)
      requires socket.Valid()
      modifies this`ec, socket`wire, socket`now, socket`calls, socket`nonBlocking
      ensures socket.Valid()
      ensures socket.calls == old(socket.calls) + calls && InTime(calls, expiry)
      ensures Offers(calls, output) && sent == MovedIn(calls)
      ensures output == [] ==> calls == [] && ec == old(ec)
      ensures output != [] && expiry < old(socket.now) ==> !ok && sent == 0
      ensures if ok then sent == |output| else sent < |output| && GaveUp(calls, expiry, ec, Clear)
      ensures socket.wire == old(socket.wire) + output[..sent]
    {
      var rest := output;
      calls, sent := [], 0;
      while |rest| > 0
        invariant socket.Valid()
        invariant sent == MovedIn(calls) <= |output| && rest == output[sent..] && Offers(calls, output)
        invariant output == [] ==> calls == [] && ec == old(ec)
        invariant old(socket.now) <= socket.now && (expiry < old(socket.now) ==> sent == 0)
        invariant socket.wire == old(socket.wire) + output[..sent]
        invariant socket.calls == old(socket.calls) + calls && InTime(calls, expiry) && MayGoOn(calls)
        invariant calls != [] ==> !Stalled(Last(calls))
        decreases |rest|, Max(0, expiry - socket.now + 1)
      {
        var bytes;
        ok, bytes, calls := SendMore(rest, output, calls, old(socket.calls), old(socket.wire));
        rest, sent := rest[bytes..], sent + bytes;
        if !ok {
          return;
        }
      }
      ok := true;
    }

    /** What overflow(c) sends: the put area, or the character itself if there is no buffer. */
    function Output(c: IntType): seq<Byte>
      requires Shape()
      reads this, putBuffer
    {
      if putBuffer.Length > 0 then putBuffer[put.base..put.next] else if c == Eof then [] else [c.b]
    }

    /** The end of overflow: an empty put area, into which c is stored. */
    method StartPutArea(c: IntType)
      requires Shape() && socket.Valid() && putBuffer.Length > 0 && InputOk()
      requires OutputIs(out, socket.wire, [])
      modifies this`put, this`out, putBuffer
      ensures Valid()
      ensures Pending() == (if c == Eof then [] else [c.b]) && put.base == 0
      ensures out.accepted == old(out.accepted) + (if c == Eof then [] else [c.b]) && out.exact == old(out.exact)
    {
      put := PutArea(0, 0, putBuffer.Length);
      if c != Eof {
        AcceptedOne(out, socket.wire, [], c.b);
        putBuffer[put.next] := c.b;
        put := put.(next := put.next + 1);
        out := out.(accepted := out.accepted + [c.b]);
        assert Pending() == [] + [c.b];
      } else {
        assert Pending() == [];
      }
    }

    /** overflow(c) with a put area: everything pending is sent, and then c is stored. */
    method OverflowBuffered(c: IntType) returns (r: IntType, ghost calls: seq<Call>, ghost sent: nat)
      requires Valid() && putBuffer.Length > 0
      modifies this`ec, this`put, this`out, putBuffer,
               socket`wire, socket`now, socket`calls, socket`nonBlocking
      ensures Valid()
      ensures socket.calls == old(socket.calls) + calls && InTime(calls, expiry)
      ensures sent <= |old(Pending())| && socket.wire == old(socket.wire) + old(Pending())[..sent]
      ensures Offers(calls, old(Pending())) && sent == MovedIn(calls)
      ensures old(Pending()) == [] ==> calls == [] && ec == old(ec)
      ensures old(Pending()) != [] && expiry < old(socket.now) ==> r == Eof && sent == 0
      ensures r != Eof ==>
                && r == NotEof(c) && sent == |old(Pending())|
                && Pending() == (if c == Eof then [] else [c.b]) && put.base == 0
                && out.accepted == old(out.accepted) + (if c == Eof then [] else [c.b])
                && out.exact == old(out.exact)
      ensures r == Eof ==>
                && sent < |old(Pending())| && GaveUp(calls, expiry, ec, Clear)
                && Pending() == old(Pending()) && out.accepted == old(out.accepted)
                && out.exact == (old(out.exact) && sent == 0)
    {
      var output := Output(c);
      var ok;
      ok, calls, sent := SendAll(output);
      if !ok {
        FlushFailed(out, old(socket.wire), output, output[..sent]);
        out := out.(exact := out.exact && sent == 0);
        assert Pending() == output;
        return Eof, calls, sent;
      }
      assert output[..sent] == output;
      FlushSucceeded(out, old(socket.wire), output);
      out := out.(flushed := out.flushed + output);
      StartPutArea(c);
      r := NotEof(c);
    }

    /** overflow(c) without a put area: c itself is sent. */
    method OverflowUnbuffered(c: IntType) returns (r: IntType, ghost calls: seq<Call>)
      requires Valid() && putBuffer.Length == 0
      modifies this`ec, this`out, socket`wire, socket`now, socket`calls, socket`nonBlocking
      ensures Valid()
      ensures socket.calls == old(socket.calls) + calls && InTime(calls, expiry)
      ensures r == NotEof(c) || (r == Eof && c != Eof && GaveUp(calls, expiry, ec, Clear))
      ensures c == Eof ==> calls == [] && ec == old(ec)
      ensures c != Eof ==> Offers(calls, [c.b]) && MovedIn(calls) == if r == Eof then 0 else 1
      ensures c != Eof && expiry < old(socket.now) ==> r == Eof
      ensures socket.wire == old(socket.wire) + (if r == Eof || c == Eof then [] else [c.b])
      ensures out.accepted == old(out.accepted) + (if r == Eof || c == Eof then [] else [c.b])
      ensures out.exact == old(out.exact)
    {
      calls := [];
      if c == Eof {
        return NotEof(c), calls;
      }
      ghost var sent;
      var ok;
      ok, calls, sent := SendAll([c.b]);
      if !ok {
        assert socket.wire == old(socket.wire);
        return Eof, calls;
      }
      assert [c.b][..sent] == [c.b];
      SentUnbuffered(out, old(socket.wire), [c.b]);
      out := History(out.accepted + [c.b], out.flushed + [c.b], out.exact);
      r := c;
    }

    /** overflow(c). On success, everything pending has been sent, in order and once, and c is taken: it is
        pending, or if there is no buffer it has been sent. On failure, the wire has got a proper prefix of
        what was to be sent, c is not taken, everything pending is still pending, and the calls show why. */
    method Overflow(c: IntType) returns (r: IntType, ghost calls: seq<Call>, ghost sent: nat)
      requires Valid()
      modifies this`ec, this`put, this`out, putBuffer,
               socket`wire, socket`now, socket`calls, socket`nonBlocking
      ensures Valid()
      ensures socket.calls == old(socket.calls) + calls && InTime(calls, expiry)
      ensures sent <= |old(Output(c))| && socket.wire == old(socket.wire) + old(Output(c))[..sent]
      ensures r != Eof ==>
                && r == NotEof(c) && sent == |old(Output(c))|
                && Pending() == (if putBuffer.Length > 0 && c != Eof then [c.b] else []) && put.base == 0
                && out.accepted == old(out.accepted) + (if c == Eof then [] else [c.b])
                && out.exact == old(out.exact)
      ensures Offers(calls, old(Output(c))) && sent == MovedIn(calls)
      ensures old(Output(c)) == [] ==> calls == [] && ec == old(ec)
      ensures old(Output(c)) != [] && expiry < old(socket.now) ==> r == Eof && sent == 0
      ensures r == Eof ==>
                && sent < |old(Output(c))| && GaveUp(calls, expiry, ec, Clear)
                && Pending() == old(Pending()) && out.accepted == old(out.accepted)
                && out.exact == (old(out.exact) && sent == 0)
    {
      if putBuffer.Length > 0 {
        r, calls, sent := OverflowBuffered(c);
      } else {
        r, calls := OverflowUnbuffered(c);
        sent := if r == Eof || c == Eof then 0 else 1;
      }
    }

    /** std::streambuf::sputc: while the put area has room, nothing is sent. */
    method Sputc(b: Byte) returns (r: IntType, ghost calls: seq<Call>)
      requires Valid()
      modifies this`ec, this`put, this`out, putBuffer,
               socket`wire, socket`now, socket`calls, socket`nonBlocking
      ensures Valid()
      ensures socket.calls == old(socket.calls) + calls && InTime(calls, expiry)
      ensures r == Eof || r == Ch(b)
      ensures old(put.next == put.end) ==> Offers(calls, old(Output(Ch(b))))
      ensures out.accepted == old(out.accepted) + (if r == Eof then [] else [b])
      ensures out.exact == (old(out.exact) && (r == Eof ==> socket.wire == old(socket.wire)))
      ensures r == Eof ==>
                old(put.next == put.end) && Pending() == old(Pending()) && GaveUp(calls, expiry, ec, Clear)
      ensures old(socket.wire) <= socket.wire
      ensures old(put.next < put.end) ==>
                && Pending() == old(Pending()) + [b] && calls == [] && ec == old(ec)
                && socket.wire == old(socket.wire) && socket.now == old(socket.now)
      ensures r != Eof && old(put.next == put.end) ==>
                socket.wire == old(socket.wire) + old(Output(Ch(b)))
                && Pending() == if putBuffer.Length > 0 then [b] else []
    {
      if put.next < put.end {
        AcceptedOne(out, socket.wire, Pending(), b);
        ghost var pending := Pending();
        putBuffer[put.next] := b;
        put := put.(next := put.next + 1);
        out := out.(accepted := out.accepted + [b]);
        assert Pending() == pending + [b];
        return Ch(b), [];
      }
      ghost var sent;
      r, calls, sent := Overflow(Ch(b));
      assert r != Eof ==> old(Output(Ch(b)))[..sent] == old(Output(Ch(b)));
    }

    /** sync(). With output pending and the deadline passed, it is bound to fail before it sends anything. */
    method Sync() returns (r: IntType, ghost calls: seq<Call>, ghost sent: nat)
      requires Valid()
      modifies this`ec, this`put, this`out, putBuffer,
               socket`wire, socket`now, socket`calls, socket`nonBlocking
      ensures Valid() && out.accepted == old(out.accepted)
      ensures socket.calls == old(socket.calls) + calls && InTime(calls, expiry)
      ensures sent <= |old(Pending())| && socket.wire == old(socket.wire) + old(Pending())[..sent]
      ensures Offers(calls, old(Pending())) && sent == MovedIn(calls)
      ensures r != Eof ==> Pending() == [] && sent == |old(Pending())| && out.exact == old(out.exact)
      ensures r == Eof ==> Pending() == old(Pending()) && sent < |Pending()| && GaveUp(calls, expiry, ec, Clear)
      ensures r == Eof ==> out.exact == (old(out.exact) && sent == 0)
      ensures old(Pending()) == [] ==> calls == [] && ec == old(ec)
      ensures old(Pending()) != [] && expiry < old(socket.now) ==> r == Eof && sent == 0
    {
      r, calls, sent := Overflow(Eof);
      if putBuffer.Length == 0 {
        assert Pending() == old(Pending()) == [];
      }
    }

    /** A flush that fails after it has sent n characters, and one that then succeeds: the peer gets the n
        characters twice, and nothing that is done later can make up for it. */
    method SyncTwice() returns (first: IntType, second: IntType, ghost n: nat)
      requires Valid()
      modifies this`ec, this`put, this`out, putBuffer,
               socket`wire, socket`now, socket`calls, socket`nonBlocking
      ensures Valid() && n <= |old(Pending())|
      ensures first == Eof && second != Eof ==>
                && socket.wire == old(socket.wire) + old(Pending())[..n] + old(Pending()) && Pending() == []
                && (n > 0 ==> !out.exact && out.accepted != socket.wire + Pending())
    {
      ghost var calls, m;
      first, calls, n := Sync();
      second, calls, m := Sync();
      if first == Eof && second != Eof {
        assert Pending()[..] == [] && old(Pending())[..m] == old(Pending());
        NothingAcceptedIsLost();
      }
    }

    /** put_buffer_.clear(); setp(0, 0). */
    method ClearPutBuffer()
      requires Valid() && Pending() == []
      modifies this`putBuffer, this`put
      ensures Valid() && putBuffer.Length == 0 && fresh(putBuffer)
    {
      putBuffer := new Byte[0];
      put := PutArea(0, 0, 0);
      assert Pending() == [];
    }

    /** setbuf(0, 0), the only request that is granted, and only if nothing is pending: the put area is
        given up. */
    method Setbuf(isNull: bool, n: int) returns (granted: bool)
      requires Valid()
      modifies this`putBuffer, this`ec, this`put, this`out,
               putBuffer, socket`wire, socket`now, socket`calls, socket`nonBlocking
      ensures Valid()
      ensures granted <==> old(Pending()) == [] && isNull && n == 0
      ensures granted ==> putBuffer.Length == 0 && fresh(putBuffer)
      ensures !granted ==> putBuffer == old(putBuffer) && Pending() == old(Pending())
      ensures socket.wire == old(socket.wire) && out.accepted == old(out.accepted) && out.exact == old(out.exact)
      ensures socket.calls == old(socket.calls) && ec == old(ec)
    {
      if put.next == put.base && isNull && n == 0 {
        ClearPutBuffer();
        ghost var calls, sent;
        var r;
        r, calls, sent := Sync();
        return true;
      }
      return false;
    }

    // --- Input ---

    /** The deadline check, and an attempt to receive into all the room behind the putback gap that is made
        only if it passes. */
    method TryReceive() returns (late: bool, bytes: int, data: seq<Byte>, ghost more: seq<Call>)
      requires socket.Valid()
      modifies this`ec, socket`received, socket`now, socket`calls, socket`nonBlocking
      ensures socket.Valid() && socket.now >= old(socket.now)
      ensures socket.calls == old(socket.calls) + more && InTime(more, expiry) && AsksForAll(more)
      ensures more != [] && more[0].Reading? && (|more| > 1 ==> !more[1].Polled?)
      ensures if late then ec == TimedOutEc && bytes < 0 && GaveUp(more, expiry, ec, EofEc)
              else bytes <= BUFFER_SIZE - PUTBACK_MAX && socket.now <= expiry
                   && Last(more) == Received(!socket.nonBlocking, BUFFER_SIZE - PUTBACK_MAX, Max(0, bytes), ec)
                   && (bytes >= 0 <==> ec == Clear)
      ensures |data| == (if bytes > 0 then bytes else 0) && socket.received == old(socket.received) + data
    {
      var now := socket.ReadClock();
      more := [Reading(now)];
      if expiry < now {
        ec := TimedOutEc;
        return true, -1, [], more;
      }
      ghost var switch := EnsureNonBlocking();
      bytes, data, ec := socket.Receive(BUFFER_SIZE - PUTBACK_MAX);
      more := [Reading(now)] + switch + [Received(!socket.nonBlocking, BUFFER_SIZE - PUTBACK_MAX, Max(0, bytes), ec)];
      late := false;
    }

    /** The attempt at the beginning of a turn of ReceiveSome. */
    method ReceiveAttempt(ghost before: seq<Call>)
      returns (late: bool, bytes: int, data: seq<Byte>, ghost more: seq<Call>)
      requires socket.Valid() && AsksForAll(before)
      requires InTime(before, expiry) && MayGoOn(before) && (before != [] ==> !Stalled(Last(before)))
      modifies this`ec, socket`received, socket`now, socket`calls, socket`nonBlocking
      ensures socket.Valid() && socket.now >= old(socket.now)
      ensures socket.calls == old(socket.calls) + more && InTime(before + more, expiry) && AsksForAll(before + more)
      ensures more != []
              && if late then bytes < 0 && GaveUp(before + more, expiry, ec, EofEc)
                 else socket.now <= expiry && (bytes >= 0 <==> ec == Clear)
                      && Last(before + more) == Received(!socket.nonBlocking, BUFFER_SIZE - PUTBACK_MAX, Max(0, bytes), ec)
      ensures bytes <= BUFFER_SIZE - PUTBACK_MAX
      ensures |data| == Max(0, bytes) && socket.received == old(socket.received) + data
    {
      late, bytes, data, more := TryReceive();
      InTimeAppend(before, more, expiry);
      if late {
        GaveUpAppend(before, more, expiry, ec, EofEc);
      }
    }

    /** A turn of the loop of ReceiveSome: one attempt, and a poll if it would have blocked. */
    method ReceiveTurn(ghost before: seq<Call>) returns (again: bool, data: seq<Byte>, ghost more: seq<Call>)
      requires socket.Valid() && AsksForAll(before)
      requires InTime(before, expiry) && MayGoOn(before) && (before != [] ==> !Stalled(Last(before)))
      modifies this`ec, socket`received, socket`now, socket`calls, socket`nonBlocking
      ensures socket.Valid()
      ensures more != [] && socket.calls == old(socket.calls) + more
      ensures InTime(before + more, expiry) && AsksForAll(before + more)
      ensures |data| <= BUFFER_SIZE - PUTBACK_MAX && socket.received == old(socket.received) + data
      ensures again ==> data == [] && old(socket.now) < socket.now && old(socket.now) <= expiry
      ensures again ==> MayGoOn(before + more) && !Stalled(Last(before + more))
      ensures !again && data == [] ==> GaveUp(before + more, expiry, ec, EofEc)
    {
      var late, bytes;
      late, bytes, data, more := ReceiveAttempt(before);
      again := false;
      if late || bytes > 0 {
        return;
      }
      if bytes == 0 {
        ec := EofEc;
        return;
      }
      if ec == WouldBlock || ec == TryAgain {
        ghost var wait;
        again, wait := WaitReady();
        InTimeAppend(before + more, wait, expiry);
        assert Last(before + more + wait) == Last(wait);
        if !again {
          GaveUpAppend(before + more, wait, expiry, ec, EofEc);
        }
        Regroup(before, more, wait);
        more := more + wait;
      }
    }

    /** The loop of underflow: it ends with the bytes of one successful receive, or it gives up. */
    method ReceiveSome() returns (data: seq<Byte>, ghost calls: seq<Call>)
      requires socket.Valid()
      modifies this`ec, socket`received, socket`now, socket`calls, socket`nonBlocking
      ensures socket.Valid()
      ensures socket.calls == old(socket.calls) + calls && InTime(calls, expiry) && AsksForAll(calls)
      ensures |data| <= BUFFER_SIZE - PUTBACK_MAX && socket.received == old(socket.received) + data
      ensures data == [] ==> GaveUp(calls, expiry, ec, EofEc)
    {
      calls, data := [], [];
      var again := true;
      while again
        invariant socket.Valid()
        invariant |data| <= BUFFER_SIZE - PUTBACK_MAX && socket.received == old(socket.received) + data
        invariant socket.calls == old(socket.calls) + calls && InTime(calls, expiry) && AsksForAll(calls)
        invariant if again then data == [] && MayGoOn(calls) && (calls != [] ==> !Stalled(Last(calls)))
                  else data == [] ==> GaveUp(calls, expiry, ec, EofEc)
        decreases again, Max(0, expiry - socket.now + 1)
      {
        ghost var more;
        again, data, more := ReceiveTurn(calls);
        Regroup(old(socket.calls), calls, more);
        calls := calls + more;
      }
    }

    /** setg after a successful receive: the new characters lie behind the putback gap. */
    method Refill(data: seq<Byte>)
      requires Shape() && 0 < |data| <= BUFFER_SIZE - PUTBACK_MAX
      modifies this`get, getBuffer
      ensures Shape() && Unread() == data && get.next == PUTBACK_MAX
    {
      forall i | 0 <= i < |data| {
        getBuffer[PUTBACK_MAX + i] := data[i];
      }
      get := GetArea(0, PUTBACK_MAX, PUTBACK_MAX + |data|);
    }

    /** underflow(). It refills an exhausted get area behind the putback gap, with exactly what was
        received; otherwise it changes nothing but the error, and the calls show why. With unread
        characters it refuses. */
    method Underflow() returns (c: IntType, ghost calls: seq<Call>)
      requires Valid()
      modifies this`ec, this`get, getBuffer,
               socket`received, socket`now, socket`calls, socket`nonBlocking
      ensures Valid()
      ensures socket.calls == old(socket.calls) + calls && InTime(calls, expiry) && AsksForAll(calls)
      ensures old(Unread()) != [] ==>
                c == Eof && Unread() == old(Unread()) && socket.received == old(socket.received) && calls == [] && ec == old(ec)
      ensures old(Unread()) == [] ==> socket.received == old(socket.received) + Unread()
      ensures old(Unread()) == [] ==> c == if Unread() == [] then Eof else Ch(Unread()[0])
      ensures old(Unread()) == [] && c == Eof ==> GaveUp(calls, expiry, ec, EofEc)
      ensures c != Eof ==> get.next == PUTBACK_MAX
    {
      calls := [];
      if get.next != get.end {
        return Eof, calls;
      }
      assert Unread() == [];
      var data;
      data, calls := ReceiveSome();
      if data == [] {
        return Eof, calls;
      }
      Refill(data);
      c := Ch(getBuffer[get.next]);
    }

    /** std::streambuf::sbumpc, with the default uflow: the next character received, or end-of-file without
        losing any. */
    method Sbumpc() returns (c: IntType, ghost calls: seq<Call>)
      requires Valid()
      modifies this`ec, this`get, this`delivered, getBuffer,
               socket`received, socket`now, socket`calls, socket`nonBlocking
      ensures Valid()
      ensures socket.calls == old(socket.calls) + calls && InTime(calls, expiry) && AsksForAll(calls)
      ensures delivered == old(delivered) + (if c == Eof then [] else [c.b])
      ensures c == Eof ==> Unread() == [] == old(Unread()) && GaveUp(calls, expiry, ec, EofEc)
      ensures old(Unread()) != [] ==>
                c == Ch(old(Unread())[0]) && socket.received == old(socket.received) && calls == [] && ec == old(ec)
      ensures old(socket.received) <= socket.received
    {
      calls := [];
      if get.next == get.end {
        c, calls := Underflow();
        if c == Eof {
          return;
        }
      }
      c := TakeNext();
    }

    /** The character at the get pointer, which moves on. */
    method TakeNext() returns (c: IntType)
      requires Valid() && get.next < get.end
      modifies this`get, this`delivered
      ensures Valid() && c == Ch(old(Unread())[0]) && delivered == old(delivered) + [c.b]
      ensures old(Unread()) == [c.b] + Unread()
    {
      c := Ch(getBuffer[get.next]);
      assert Unread() == [c.b] + getBuffer[get.next + 1..get.end];
      get := get.(next := get.next + 1);
      delivered := delivered + [c.b];
      assert OutputOk();
    }

    // --- Life of the buffers ---

    /** init_buffers(): unread input and pending output are forgotten. */
    method InitBuffers()
      requires Valid()
      modifies this`get, this`put, this`out, this`delivered
      ensures Valid() && Pending() == [] && Unread() == []
      ensures get == GetArea(0, PUTBACK_MAX, PUTBACK_MAX) && put == PutArea(0, 0, putBuffer.Length)
      ensures old(out.accepted) == out.accepted + old(Pending()) && out.exact == old(out.exact)
      ensures delivered == old(delivered) + old(Unread())
    {
      get := GetArea(0, PUTBACK_MAX, PUTBACK_MAX);
      put := PutArea(0, 0, putBuffer.Length);
      out, delivered := out.(accepted := out.flushed), socket.received;
      assert Shape();
      assert Pending() == [] && Unread() == [];
      assert OutputOk() && InputOk();
    }

    /** socket().close(ec_): the buffers stay as they are. */
    method CloseSocket()
      requires Valid()
      modifies this`ec, socket`fd, socket`openFds, socket`link, socket`calls
      ensures socket.calls == old(socket.calls) + [Closing(ec)]
      ensures Valid() && socket.fd == None && (old(socket.fd) == None ==> ec == Clear)
      ensures Pending() == old(Pending()) && Unread() == old(Unread())
    {
      ghost var pending, unread := Pending(), Unread();
      ec := socket.Close();
      assert Shape() && Pending() == pending && Unread() == unread;
      assert OutputIs(out, socket.wire, pending);
    }

    /** close() after its flush. */
    method CloseAndForget() returns (ok: bool)
      requires Valid()
      modifies this`ec, this`get, this`put, this`out, this`delivered,
               socket`fd, socket`openFds, socket`link, socket`calls
      ensures socket.calls == old(socket.calls) + [Closing(ec)]
      ensures Valid() && socket.fd == None
      ensures (ok <==> ec == Clear) && (old(socket.fd) == None ==> ok)
      ensures if ok then Pending() == [] && Unread() == [] && old(out.accepted) == out.accepted + old(Pending())
              else Pending() == old(Pending()) && out == old(out)
    {
      CloseSocket();
      if ec == Clear {
        InitBuffers();
      }
      ok := ec == Clear;
    }

    /** close(). It reports only whether the socket was closed: if the flush before it failed, success is
        reported all the same, and exactly what was pending is gone. With nothing pending nothing is lost;
        with output pending after the deadline, the flush is bound to fail. */
    method Close() returns (ok: bool, ghost synced: bool, ghost calls: seq<Call>, ghost syncEc: Ec)
      requires Valid()
      modifies this`ec, this`get, this`put,
               this`out, this`delivered, putBuffer,
               socket`wire, socket`now, socket`calls, socket`nonBlocking, socket`fd, socket`openFds, socket`link
      ensures Valid() && socket.fd == None
      ensures ok <==> ec == Clear
      ensures old(socket.fd) == None ==> ok
      ensures ok ==> Pending() == [] && Unread() == []
      ensures socket.calls == old(socket.calls) + calls + [Closing(ec)] && InTime(calls, expiry)
      ensures Offers(calls, old(Pending()))
      ensures !ok ==> Pending() == if synced then [] else old(Pending())
      ensures old(Pending()) == [] ==> synced
      ensures old(Pending()) != [] && expiry < old(socket.now) ==> !synced && socket.wire == old(socket.wire)
      ensures synced ==> socket.wire == old(socket.wire) + old(Pending()) && out.accepted == old(out.accepted)
      ensures !synced ==> old(Pending()) != [] && GaveUp(calls, expiry, syncEc, Clear)
      ensures !synced ==> old(out.accepted) == out.accepted + if ok then old(Pending()) else []
      ensures ok ==> (out.accepted == old(out.accepted) <==> synced)
    {
      var s;
      ghost var sent;
      s, calls, sent := Sync();
      assert old(Pending())[..|old(Pending())|] == old(Pending());
      synced, syncEc := s != Eof, ec;
      ok := CloseAndForget();
    }

    /** The move constructor. The unread input moves along; of the output, what was pending is lost, since
        the new put area begins at the old put pointer. The source is left valid, empty, buffered, without
        an error and without an expiry. */
    constructor Move(other: SocketStreamBuf)
      requires other.Valid()
      modifies other
      ensures Valid() && other.Valid()
      ensures socket == old(other.socket) && getBuffer == old(other.getBuffer) && putBuffer == old(other.putBuffer)
      ensures Unread() == old(other.Unread()) && delivered == old(other.delivered)
      ensures get == old(other.get) && put == old(PutArea(other.put.next, other.put.next, other.put.end))
      ensures Pending() == [] && old(other.out.accepted) == out.accepted + old(other.Pending())
      ensures out.accepted == old(other.out.accepted) <==> old(other.Pending()) == []
      ensures ec == old(other.ec) && expiry == old(other.expiry) && out.exact == old(other.out.exact)
      ensures fresh(other.socket) && fresh(other.getBuffer) && fresh(other.putBuffer)
      ensures other.Pending() == [] && other.Unread() == [] && other.put == PutArea(0, 0, BUFFER_SIZE)
      ensures other.ec == Clear && other.expiry == MAX_EXPIRY && other.socket.fd == None
    {
      socket, ec, expiry := other.socket, other.ec, other.expiry;
      getBuffer, putBuffer := other.getBuffer, other.putBuffer;
      get := other.get;
      put := PutArea(other.put.next, other.put.next, other.put.end);
      out, delivered := other.out.(accepted := other.out.flushed), other.delivered;
      new;
      assert Pending() == [];
      var closed := new Socket.Closed(other.socket.now);
      var input := new Byte[BUFFER_SIZE](_ => 0);
      var output := new Byte[BUFFER_SIZE](_ => 0);
      other.LeaveEmpty(closed, input, output);
    }

    /** What a move leaves behind: a closed socket, no error, no expiry, and empty buffers, of which the
        second is resized to be one. */
    method LeaveEmpty(closed: Socket, input: array<Byte>, output: array<Byte>)
      requires closed.Valid() && closed.wire == [] && closed.received == []
      requires input.Length == BUFFER_SIZE && (output.Length == 0 || output.Length == BUFFER_SIZE) && input != output
      modifies this
      ensures Valid() && socket == closed && getBuffer == input && (putBuffer == output || fresh(putBuffer))
      ensures Pending() == [] && Unread() == [] && put == PutArea(0, 0, BUFFER_SIZE)
      ensures ec == Clear && expiry == MAX_EXPIRY
    {
      var resized := output;
      if output.Length < BUFFER_SIZE {
        resized := new Byte[BUFFER_SIZE](_ => 0);
      }
      socket, ec, expiry := closed, Clear, MAX_EXPIRY;
      getBuffer, get := input, GetArea(0, PUTBACK_MAX, PUTBACK_MAX);
      putBuffer, put := resized, PutArea(0, 0, BUFFER_SIZE);
      out, delivered := History([], [], true), [];
      NothingYet();
      assert Shape();
      assert Pending() == [] && Unread() == [];
    }

    /** The fields of a stream buffer that is moved from become those of this one. As in the constructor,
        the put area begins at the old put pointer. */
    method TakeFields(other: SocketStreamBuf)
      requires other != this && other.Valid()
      modifies this
      ensures Valid() && other.Valid()
      ensures socket == other.socket && getBuffer == other.getBuffer && putBuffer == other.putBuffer
      ensures Unread() == other.Unread() && delivered == other.delivered
      ensures get == other.get && put == PutArea(other.put.next, other.put.next, other.put.end)
      ensures Pending() == [] && other.out.accepted == out.accepted + other.Pending()
      ensures ec == other.ec && expiry == other.expiry && out.exact == other.out.exact
    {
      socket, ec, expiry := other.socket, other.ec, other.expiry;
      getBuffer, get := other.getBuffer, other.get;
      putBuffer, put := other.putBuffer, PutArea(other.put.next, other.put.next, other.put.end);
      out, delivered := other.out.(accepted := other.out.flushed), other.delivered;
      assert Shape();
      assert Pending() == [];
      assert Unread() == other.Unread();
      assert OutputOk() && InputOk();
    }

    /** Move assignment. The old connection is closed, after an attempt to flush; then everything is as
        after a move construction, except that the two stream buffers exchange their vectors. */
    method MoveAssign(other: SocketStreamBuf) returns (ghost synced: bool, ghost calls: seq<Call>, ghost syncEc: Ec)
      requires Valid() && other.Valid() && other != this
      requires socket != other.socket && getBuffer != other.getBuffer && putBuffer != other.putBuffer
      requires getBuffer != other.putBuffer && putBuffer != other.getBuffer
      modifies this, putBuffer, getBuffer, socket, other
      ensures Valid() && other.Valid()
      ensures socket == old(other.socket) && getBuffer == old(other.getBuffer) && putBuffer == old(other.putBuffer)
      ensures Unread() == old(other.Unread()) && delivered == old(other.delivered)
      ensures Pending() == [] && old(other.out.accepted) == out.accepted + old(other.Pending())
      ensures ec == old(other.ec) && expiry == old(other.expiry) && out.exact == old(other.out.exact)
      ensures get == old(other.get) && put == old(PutArea(other.put.next, other.put.next, other.put.end))
      ensures old(socket).fd == None
      ensures old(socket).calls != []
              && old(socket).calls == old(socket.calls) + calls + [Last(old(socket).calls)] && Last(old(socket).calls).Closing?
      ensures InTime(calls, old(expiry)) && Offers(calls, old(Pending()))
      ensures if synced then old(socket).wire == old(socket.wire) + old(Pending())
              else old(Pending()) != [] && GaveUp(calls, old(expiry), syncEc, Clear)
      ensures fresh(other.socket) && other.getBuffer == old(getBuffer)
      ensures other.Pending() == [] && other.Unread() == [] && other.put == PutArea(0, 0, BUFFER_SIZE)
      ensures other.ec == Clear && other.expiry == MAX_EXPIRY && other.socket.fd == None
    {
      var closed;
      closed, synced, calls, syncEc := Close();
      var input, output := getBuffer, putBuffer;
      TakeFields(other);
      var empty := new Socket.Closed(other.socket.now);
      other.LeaveEmpty(empty, input, output);
    }

    /** setp(pptr(), epptr()): what was pending is no longer in the put area. */
    method DropPending()
      requires Valid()
      modifies this`put, this`out
      ensures Valid() && Pending() == []
      ensures old(out.accepted) == out.accepted + old(Pending()) && out.exact == old(out.exact)
    {
      out := out.(accepted := out.flushed);
      put := PutArea(put.next, put.next, put.end);
      assert Shape() && Pending() == [];
      assert OutputOk();
    }

    /** put_buffer_.resize(buffer_size), for an empty put area. */
    method RestorePutBuffer()
      requires Valid() && Pending() == []
      modifies this`putBuffer, this`put
      ensures Valid() && Pending() == [] && putBuffer.Length == BUFFER_SIZE
      ensures putBuffer == old(putBuffer) || fresh(putBuffer)
    {
      if putBuffer.Length < BUFFER_SIZE {
        putBuffer := new Byte[BUFFER_SIZE](_ => 0);
        put := PutArea(0, 0, BUFFER_SIZE);
        assert Shape() && Pending() == [];
        assert OutputOk();
      }
    }

    /** The error and the expiry of a stream buffer that has been moved from. */
    method ForgetError()
      requires Valid()
      modifies this`ec, this`expiry
      ensures Valid() && ec == Clear && expiry == MAX_EXPIRY && Pending() == old(Pending())
    {
      ghost var pending := Pending();
      ec, expiry := Clear, MAX_EXPIRY;
      assert Shape() && Pending() == pending;
    }

    /** What move assignment does after close() if both stream buffers are this one. */
    method EmptySelf()
      requires Valid()
      modifies this`ec, this`expiry, this`get, this`put, this`putBuffer, this`out, this`delivered
      ensures Valid() && Pending() == [] && Unread() == [] && put == PutArea(0, 0, BUFFER_SIZE)
      ensures ec == Clear && expiry == MAX_EXPIRY
      ensures old(out.accepted) == out.accepted + old(Pending())
    {
      ForgetError();
      DropPending();
      RestorePutBuffer();
      InitBuffers();
    }

    /** Move assignment of a stream buffer to itself: the connection is flushed if possible and closed, and
        the buffer is left as one that has been moved from. */
    method MoveAssignSelf() returns (ghost synced: bool, ghost calls: seq<Call>, ghost syncEc: Ec)
      requires Valid()
      modifies this`ec, this`expiry, this`get, this`put, this`putBuffer, this`out, this`delivered, putBuffer,
               socket`wire, socket`now, socket`calls, socket`nonBlocking, socket`fd, socket`openFds, socket`link
      ensures Valid() && socket.fd == None
      ensures Pending() == [] && Unread() == [] && put == PutArea(0, 0, BUFFER_SIZE)
      ensures ec == Clear && expiry == MAX_EXPIRY
      ensures socket.calls != []
              && socket.calls == old(socket.calls) + calls + [Last(socket.calls)] && Last(socket.calls).Closing?
      ensures InTime(calls, old(expiry)) && Offers(calls, old(Pending()))
      ensures if synced then socket.wire == old(socket.wire) + old(Pending()) && out.accepted == old(out.accepted)
              else old(Pending()) != [] && GaveUp(calls, old(expiry), syncEc, Clear)
                   && old(out.accepted) == out.accepted + old(Pending())
    {
      var closed;
      closed, synced, calls, syncEc := Close();
      EmptySelf();
    }

    // --- Connecting ---

    /** The socket is closed and opened again. At any moment at most one native socket is open. */
    method CloseAndOpen() returns (ghost closeEc: Ec)
      requires socket.Valid()
      modifies this`ec, socket`fd, socket`openFds, socket`link, socket`nonBlocking, socket`wire, socket`received, socket`calls
      ensures socket.Valid() && socket.link == Unlinked
      ensures (socket.fd.Some? <==> ec == Clear) && (ec == Clear ==> !socket.nonBlocking)
      ensures if ec == Clear then socket.wire == [] && socket.received == []
              else socket.wire == old(socket.wire) && socket.received == old(socket.received)
      ensures socket.calls == old(socket.calls) + [Closing(closeEc), Opened(ec)]
    {
      ec := socket.Close();
      closeEc := ec;
      ec := socket.Open();
    }

    /** A connection on which nothing has been sent or received yet. */
    ghost predicate IsNew()
      reads this, socket
    {
      socket.wire == [] && socket.received == [] && out == History([], [], true) && delivered == []
    }

    /** The connection to which these records belong. */
    ghost predicate IsStill(wire: seq<Byte>, received: seq<Byte>, out: History, delivered: seq<Byte>)
      reads this, socket
    {
      socket.wire == wire && socket.received == received && this.out == out && this.delivered == delivered
    }

    /** If the socket can be opened again, a new connection begins, with nothing sent and nothing received. */
    method Reopen() returns (ghost closeEc: Ec)
      requires Valid() && Pending() == [] && Unread() == []
      modifies this`ec, this`out, this`delivered,
               socket`fd, socket`openFds, socket`link, socket`nonBlocking, socket`wire, socket`received, socket`calls
      ensures Valid() && Pending() == [] && Unread() == []
      ensures (socket.fd.Some? <==> ec == Clear) && (ec == Clear ==> !socket.nonBlocking)
      ensures socket.link == Unlinked
      ensures if ec == Clear then IsNew() else IsStill(old(socket.wire), old(socket.received), old(out), old(delivered))
      ensures socket.calls == old(socket.calls) + [Closing(closeEc), Opened(ec)]
    {
      assert OutputIs(out, socket.wire, []);
      closeEc := CloseAndOpen();
      assert Shape() && Pending() == [] && Unread() == [];
      if ec == Clear {
        BeginHistory();
      } else {
        assert OutputIs(out, socket.wire, []);
      }
    }

    /** The records of a new connection. */
    method BeginHistory()
      requires Shape() && socket.Valid() && Pending() == [] && Unread() == []
      requires socket.wire == [] && socket.received == []
      modifies this`out, this`delivered
      ensures Valid() && Pending() == [] && Unread() == [] && IsNew()
    {
      out, delivered := History([], [], true), [];
      NothingYet();
      assert Shape() && Pending() == [] && Unread() == [];
    }

    /** The end of a pass of connect_to_endpoints, for an attempt that is in progress. */
    method AwaitConnect(endpoint: nat, ghost begun: Attempt) returns (stop: bool, ghost a: Attempt, ghost calls: seq<Call>)
      requires socket.Valid() && socket.link == InFlight(endpoint) && begun.queryOk && begun.queryEc == Clear
      modifies this`ec, socket`link, socket`now, socket`calls
      ensures socket.Valid()
      ensures a.checkedAt == begun.checkedAt && a.closeEc == begun.closeEc && a.openEc == begun.openEc
      ensures a.switchEc == begun.switchEc && a.connectEc == begun.connectEc
      ensures begun.openEc == Clear && Unfinished(begun.connectEc) ==>
                && Honest(a) && ec == EcAfter(a) && stop == Returns(a) && Truth(a, endpoint)
                && CallsOf(endpoint, a, expiry)
                   == [Closing(begun.closeEc), Opened(Clear), Switched(begun.switchEc),
                       Connecting(endpoint, begun.switchEc != Clear, begun.connectEc)] + calls
      ensures socket.calls == old(socket.calls) + calls
    {
      var now := socket.ReadClock();
      var polled;
      polled, ec := socket.PollConnect(Timeout(expiry, now));
      calls := [Reading(now), PolledConnect(Timeout(expiry, now), polled, ec)];
      a := begun.(pollAt := now, polled := polled, pollEc := ec, established := socket.link == Established(endpoint));
      if polled < 0 {
        return false, a, calls;
      }
      var ok, connectError;
      ok, ec, connectError := socket.QueryError();
      calls := calls + [Queried(ok, ec, connectError)];
      a := a.(queryOk := ok, queryEc := ec, soError := connectError, established := socket.link == Established(endpoint));
      if !ok {
        return true, a, calls;
      }
      ec := connectError;
      stop := ec == Clear;
    }

    /** The rest of a pass of connect_to_endpoints, with an open socket. */
    method TryConnect(endpoint: nat, ghost checkedAt: int, ghost closeEc: Ec)
      returns (stop: bool, ghost a: Attempt, ghost calls: seq<Call>)
      requires socket.Valid() && socket.fd.Some? && !socket.nonBlocking && ec == Clear
      modifies this`ec, socket`link, socket`nonBlocking, socket`now, socket`calls
      ensures socket.Valid()
      ensures Honest(a) && ec == EcAfter(a) && stop == Returns(a) && Truth(a, endpoint)
      ensures a.checkedAt == checkedAt && a.openEc == Clear
      ensures socket.calls == old(socket.calls) + calls && CallsOf(endpoint, a, expiry) == [Closing(closeEc), Opened(Clear)] + calls
    {
      ghost var switch := EnsureNonBlocking();
      ghost var switchEc := ec;
      ec := socket.Connect(endpoint);
      a := Attempt(checkedAt, 0, closeEc, Clear, switchEc, ec, 0, Clear, true, Clear, Clear, socket.link == Established(endpoint));
      calls := switch + [Connecting(endpoint, switchEc != Clear, ec)];
      if ec == Clear {
        return true, a, calls;
      }
      if ec != InProgress && ec != WouldBlock {
        return false, a, calls;
      }
      ghost var more;
      stop, a, more := AwaitConnect(endpoint, a);
      calls := calls + more;
      assert CallsOf(endpoint, a, expiry) == [Closing(closeEc), Opened(Clear)] + calls;
    }

    /** The same, for a stream buffer with empty areas, which stay as they are. */
    method TryOpened(endpoint: nat, ghost checkedAt: int, ghost closeEc: Ec)
      returns (stop: bool, ghost a: Attempt, ghost calls: seq<Call>)
      requires Valid() && Pending() == [] && Unread() == [] && socket.fd.Some? && !socket.nonBlocking && ec == Clear
      modifies this`ec, socket`link, socket`nonBlocking, socket`now, socket`calls
      ensures Valid() && Pending() == [] && Unread() == []
      ensures Honest(a) && ec == EcAfter(a) && stop == Returns(a) && Truth(a, endpoint)
      ensures a.checkedAt == checkedAt && a.openEc == Clear
      ensures socket.calls == old(socket.calls) + calls && CallsOf(endpoint, a, expiry) == [Closing(closeEc), Opened(Clear)] + calls
    {
      assert OutputIs(out, socket.wire, []);
      stop, a, calls := TryConnect(endpoint, checkedAt, closeEc);
      assert OutputIs(out, socket.wire, []);
      assert Shape() && Pending() == [] && Unread() == [];
    }

    /** One pass of connect_to_endpoints. */
    method TryEndpoint(endpoint: nat, ghost checkedAt: int) returns (stop: bool, ghost a: Attempt)
      requires Valid() && Pending() == [] && Unread() == []
      modifies this`ec, this`out, this`delivered,
               socket`fd, socket`openFds, socket`link, socket`nonBlocking, socket`wire, socket`received,
               socket`now, socket`calls
      ensures Valid() && Pending() == [] && Unread() == []
      ensures Honest(a) && ec == EcAfter(a) && stop == Returns(a) && Truth(a, endpoint)
      ensures if a.openEc == Clear then IsNew()
              else IsStill(old(socket.wire), old(socket.received), old(out), old(delivered))
      ensures a.checkedAt == checkedAt && socket.calls == old(socket.calls) + CallsOf(endpoint, a, expiry)
    {
      ghost var closeEc := Reopen();
      if ec != Clear {
        return false, Attempt(checkedAt, 0, closeEc, ec, Clear, Clear, 0, Clear, true, Clear, Clear, false);
      }
      ghost var calls;
      stop, a, calls := TryOpened(endpoint, checkedAt, closeEc);
      assert socket.calls == old(socket.calls) + ([Closing(closeEc), Opened(Clear)] + calls);
    }

    /** What an attempt records about the connection is so. */
    ghost predicate Truth(a: Attempt, endpoint: nat)
      reads this, socket
    {
      && (a.established <==> socket.link == Established(endpoint))
      && (EcAfter(a) == Clear && !a.established ==> socket.link == InFlight(endpoint))
    }

    ghost predicate LastTruth(attempts: seq<Attempt>, endpoints: seq<nat>)
      reads this, socket
    {
      attempts != [] ==> |attempts| <= |endpoints| && Truth(attempts[|attempts| - 1], endpoints[|attempts| - 1])
    }

    /** One turn of the loop of connect_to_endpoints: the deadline check, and a pass if it allows one. */
    method Turn(endpoint: nat) returns (late: bool, stop: bool, ghost now: int, ghost a: Attempt)
      requires Valid() && Pending() == [] && Unread() == []
      modifies this`ec, this`out, this`delivered,
               socket`fd, socket`openFds, socket`link, socket`nonBlocking, socket`wire, socket`received,
               socket`now, socket`calls
      ensures Valid() && Pending() == [] && Unread() == []
      ensures late <==> now > expiry
      ensures late ==> stop && ec == TimedOutEc && socket.link == old(socket.link)
      ensures late ==> socket.calls == old(socket.calls) + [Reading(now)]
      ensures if !late && a.openEc == Clear then IsNew()
              else IsStill(old(socket.wire), old(socket.received), old(out), old(delivered))
      ensures !late ==> Honest(a) && ec == EcAfter(a) && stop == Returns(a) && Truth(a, endpoint)
      ensures !late ==> a.checkedAt == now
                        && socket.calls == old(socket.calls) + ([Reading(now)] + CallsOf(endpoint, a, expiry))
    {
      var time := socket.ReadClock();
      now, late := time, expiry < time;
      if late {
        ec, stop := TimedOutEc, true;
        a := Attempt(0, 0, Clear, Clear, Clear, Clear, 0, Clear, true, Clear, Clear, false);
      } else {
        stop, a := TryEndpoint(endpoint, now);
      }
    }

    /** The loop of connect_to_endpoints before a turn: every endpoint so far was tried in order, on time
        and without success. */
    ghost predicate Underway(attempts: seq<Attempt>, endpoints: seq<nat>, before: seq<Call>)
      reads this, socket
    {
      && |attempts| <= |endpoints| && AllFailed(attempts) && OnTime(attempts, expiry)
      && ec == FinalEc(attempts, false)
      && LastTruth(attempts, endpoints)
      && socket.calls == before + CourseCalls(endpoints, attempts, expiry)
    }

    /** The end of connect_to_endpoints: it has followed a course of ConnectSpec and made exactly the calls
        of that course, plus a last look at the clock if the deadline ended it; ec_ is the error of the
        course; and the truth about the last endpoint is the one that the course records. */
    ghost predicate Concluded(attempts: seq<Attempt>, expired: bool, endpoints: seq<nat>, before: seq<Call>)
      reads this, socket
    {
      && Course(attempts, expired, |endpoints|) && OnTime(attempts, expiry)
      && ec == FinalEc(attempts, expired)
      && LastTruth(attempts, endpoints)
      && var calls := before + CourseCalls(endpoints, attempts, expiry);
         if expired then
           socket.calls != [] && Last(socket.calls).Reading? && Last(socket.calls).at > expiry
           && socket.calls == calls + [Last(socket.calls)]
         else socket.calls == calls
    }

    method Advance(endpoints: seq<nat>, i: nat, ghost attempts: seq<Attempt>, ghost before: seq<Call>)
      returns (stop: bool, ghost attempts': seq<Attempt>, ghost expired: bool)
      requires Valid() && Pending() == [] && Unread() == []
      requires i == |attempts| < |endpoints| && Underway(attempts, endpoints, before)
      modifies this`ec, this`out, this`delivered,
               socket`fd, socket`openFds, socket`link, socket`nonBlocking, socket`wire, socket`received,
               socket`now, socket`calls
      ensures Valid() && Pending() == [] && Unread() == []
      ensures if stop then Concluded(attempts', expired, endpoints, before)
              else |attempts'| == i + 1 && Underway(attempts', endpoints, before)
      ensures attempts <= attempts' && |attempts'| <= |attempts| + 1
      ensures if |attempts'| > |attempts| && attempts'[|attempts|].openEc == Clear then IsNew()
              else IsStill(old(socket.wire), old(socket.received), old(out), old(delivered))
    {
      ghost var now, a;
      var late;
      late, stop, now, a := Turn(endpoints[i]);
      attempts', expired := attempts, late;
      if late {
        CourseExpires(attempts, |endpoints|);
      } else {
        CourseStops(attempts, a, |endpoints|);
        OnTimeAppend(attempts, a, expiry);
        CourseCallsFrom(before, endpoints, attempts, a, expiry);
        attempts' := attempts + [a];
      }
    }

    /** What the end of a course means, in terms of the attempts and of the last system call. */
    lemma ExplainEnd(endpoints: seq<nat>, attempts: seq<Attempt>, expired: bool, before: seq<Call>)
      requires Concluded(attempts, expired, endpoints, before)
      ensures ec != Clear ==>
                || expired || |attempts| == |endpoints|
                || (attempts != [] && QueryFailed(attempts[|attempts| - 1]))
      ensures !expired && attempts != [] ==>
                && (forall i :: 0 <= i < |attempts| - 1 ==> Failed(attempts[i]))
                && socket.calls != [] && ec == ErrorOf(Last(socket.calls))
    {
      WhyTheLoopEnds(attempts, expired, |endpoints|);
      if !expired && attempts != [] {
        ErrorIsOfLastCall(endpoints, attempts, expiry);
      }
    }

    /** connect_to_endpoints(begin, end). With an error already set it does nothing. Otherwise it goes on from
        an endpoint to the next exactly if that one failed, and the error it leaves is that of the last
        system call, not_found without endpoints, or timed_out. */
    method ConnectToEndpoints(endpoints: seq<nat>) returns (ghost attempts: seq<Attempt>, ghost expired: bool)
      requires Valid() && Pending() == [] && Unread() == []
      modifies this`ec, this`out, this`delivered,
               socket`fd, socket`openFds, socket`link, socket`nonBlocking, socket`wire, socket`received,
               socket`now, socket`calls
      ensures Valid() && Pending() == [] && Unread() == []
      ensures old(ec) != Clear ==> ec == old(ec) && socket.calls == old(socket.calls) && socket.link == old(socket.link)
      ensures old(ec) == Clear ==> Concluded(attempts, expired, endpoints, old(socket.calls))
      ensures old(ec) == Clear && ec != Clear ==>
                || expired || |attempts| == |endpoints|
                || (attempts != [] && QueryFailed(attempts[|attempts| - 1]))
      ensures old(ec) == Clear && !expired && attempts != [] ==>
                && (forall i :: 0 <= i < |attempts| - 1 ==> Failed(attempts[i]))
                && socket.calls != [] && ec == ErrorOf(Last(socket.calls))
      ensures if AnyOpened(attempts) then IsNew()
              else IsStill(old(socket.wire), old(socket.received), old(out), old(delivered))
    {
      attempts, expired := [], false;
      if ec == Clear {
        ec := NotFound;
        var stop := false;
        var i := 0;
        while i < |endpoints| && !stop
          invariant Valid() && Pending() == [] && Unread() == []
          invariant i <= |endpoints|
          invariant if stop then Concluded(attempts, expired, endpoints, old(socket.calls))
                    else |attempts| == i && !expired && Underway(attempts, endpoints, old(socket.calls))
          invariant if AnyOpened(attempts) then IsNew()
                    else IsStill(old(socket.wire), old(socket.received), old(out), old(delivered))
        {
          ghost var before := attempts;
          stop, attempts, expired := Advance(endpoints, i, attempts, old(socket.calls));
          AnyOpenedOfLonger(before, attempts);
          i := i + 1;
          if !stop {
            expired := false;
          }
        }
        ExplainEnd(endpoints, attempts, expired, old(socket.calls));
      }
    }

    /** connect(endpoint): the course of connect_to_endpoints over this one endpoint, from empty buffers. What
        was pending is never sent, and what was unread is never delivered. A reported success is a
        connection, unless the poll ran out; then the attempt may still be in flight. */
    method Connect(endpoint: nat) returns (ok: bool, ghost attempts: seq<Attempt>, ghost expired: bool)
      requires Valid()
      modifies this`ec, this`out, this`delivered,
               this`get, this`put,
               socket`fd, socket`openFds, socket`link, socket`nonBlocking, socket`wire, socket`received,
               socket`now, socket`calls
      ensures Valid() && Pending() == [] && Unread() == []
      ensures ok <==> ec == Clear
      ensures Concluded(attempts, expired, [endpoint], old(socket.calls))
      ensures ok ==> attempts != []
                     && (socket.link == Established(endpoint)
                         || (PollRanOut(attempts[0]) && socket.link == InFlight(endpoint)))
      ensures ok ==> IsNew()
      ensures IsNew() || (socket.wire == old(socket.wire) && socket.received == old(socket.received)
                          && old(out.accepted) == out.accepted + old(Pending())
                          && delivered == old(delivered) + old(Unread()))
    {
      InitBuffers();
      ec := Clear;
      attempts, expired := ConnectToEndpoints([endpoint]);
      if ec == Clear {
        SuccessIsConnection(attempts, expired, 1);
      }
      ok := ec == Clear;
    }
  }

  /** What a user of a connected stream buffer can do with it. */
  datatype Op = Put(b: Byte) | Flush | GiveUpBuffer | Get

  /** A call: its result, the error it left, the system calls it made, the bytes that it had to send before
      it could succeed, and those that it put on the wire. */
  datatype Done = Done(op: Op, r: IntType, ec: Ec, calls: seq<Call>, todo: seq<Byte>, sent: seq<Byte>)

  /** The system calls kept to the deadline, offered to the peer all that was to be sent, asked it for all
      that could be received, and show why the call failed, if it did. */
  ghost predicate Explained(d: Done, expiry: int) {
    && InTime(d.calls, expiry)
    && (if d.op.Get? then AsksForAll(d.calls) else Offers(d.calls, d.todo))
    && (d.r == Eof && !d.op.GiveUpBuffer? ==> GaveUp(d.calls, expiry, d.ec, if d.op.Get? then EofEc else Clear))
  }

  /** The character that a call put, if it succeeded. */
  function PutBy(d: Done): seq<Byte> {
    if d.op.Put? && d.r != Eof then [d.op.b] else []
  }

  /** The character that a call got, if it succeeded. */
  function GotBy(d: Done): seq<Byte> {
    if d.op.Get? && d.r != Eof then [d.r.b] else []
  }

  predicate OutputFailed(d: Done) {
    (d.op.Put? || d.op.Flush?) && d.r == Eof
  }

  function Taken(log: seq<Done>): seq<Byte> {
    if log == [] then [] else Taken(log[..|log| - 1]) + PutBy(log[|log| - 1])
  }

  function Given(log: seq<Done>): seq<Byte> {
    if log == [] then [] else Given(log[..|log| - 1]) + GotBy(log[|log| - 1])
  }

  function CallsMade(log: seq<Done>): seq<Call> {
    if log == [] then [] else CallsMade(log[..|log| - 1]) + log[|log| - 1].calls
  }

  function SentIn(log: seq<Done>): seq<Byte> {
    if log == [] then [] else SentIn(log[..|log| - 1]) + log[|log| - 1].sent
  }

  /** No output call has failed after sending a part of what it should. */
  predicate NoPartialFailure(log: seq<Done>) {
    forall i :: 0 <= i < |log| && OutputFailed(log[i]) ==> log[i].sent == []
  }

  lemma LogAppend(log: seq<Done>, d: Done)
    ensures Taken(log + [d]) == Taken(log) + PutBy(d)
    ensures Given(log + [d]) == Given(log) + GotBy(d)
    ensures CallsMade(log + [d]) == CallsMade(log) + d.calls
    ensures SentIn(log + [d]) == SentIn(log) + d.sent
  {
    assert (log + [d])[..|log|] == log;
  }

  lemma NoPartialFailureAppend(log: seq<Done>, d: Done)
    ensures NoPartialFailure(log + [d]) <==> NoPartialFailure(log) && (OutputFailed(d) ==> d.sent == [])
  {
    var log' := log + [d];
    assert log'[|log|] == d && forall i :: 0 <= i < |log| ==> log'[i] == log[i];
  }

  method PutOne(sb: SocketStreamBuf, b: Byte) returns (ghost d: Done)
    requires sb.Valid()
    modifies sb`ec, sb`put, sb`out, sb.putBuffer,
             sb.socket`wire, sb.socket`now, sb.socket`calls, sb.socket`nonBlocking
    ensures sb.Valid()
    ensures d.op == Put(b) && d.ec == sb.ec && Explained(d, sb.expiry)
    ensures sb.socket.calls == old(sb.socket.calls) + d.calls
    ensures sb.socket.wire == old(sb.socket.wire) + d.sent
    ensures sb.out.accepted == old(sb.out.accepted) + PutBy(d)
    ensures sb.out.exact == (old(sb.out.exact) && (OutputFailed(d) ==> d.sent == []))
    ensures d.r != Eof ==> d.r == Ch(b) && d.sent == d.todo
    ensures d.todo == if old(sb.put.next == sb.put.end) then old(sb.Output(Ch(b))) else []
  {
    ghost var calls, wire := [], sb.socket.wire;
    ghost var todo := if sb.put.next == sb.put.end then sb.Output(Ch(b)) else [];
    var r;
    r, calls := sb.Sputc(b);
    d := Done(Put(b), r, sb.ec, calls, todo, sb.socket.wire[|wire|..]);
  }

  method FlushOne(sb: SocketStreamBuf) returns (ghost d: Done)
    requires sb.Valid()
    modifies sb`ec, sb`put, sb`out, sb.putBuffer,
             sb.socket`wire, sb.socket`now, sb.socket`calls, sb.socket`nonBlocking
    ensures sb.Valid()
    ensures d.op == Flush && d.ec == sb.ec && Explained(d, sb.expiry)
    ensures sb.socket.calls == old(sb.socket.calls) + d.calls
    ensures sb.socket.wire == old(sb.socket.wire) + d.sent
    ensures sb.out.accepted == old(sb.out.accepted) + PutBy(d)
    ensures sb.out.exact == (old(sb.out.exact) && (OutputFailed(d) ==> d.sent == []))
    ensures d.todo == old(sb.Pending())
    ensures if d.r != Eof then sb.Pending() == [] && d.sent == old(sb.Pending()) else sb.Pending() == old(sb.Pending())
  {
    var r;
    ghost var calls, n;
    r, calls, n := sb.Sync();
    d := Done(Flush, r, sb.ec, calls, old(sb.Pending()), old(sb.Pending())[..n]);
  }

  method GiveUpOne(sb: SocketStreamBuf) returns (ghost d: Done)
    requires sb.Valid()
    modifies sb`ec, sb`putBuffer, sb`put, sb`out, sb.putBuffer,
             sb.socket`wire, sb.socket`now, sb.socket`calls, sb.socket`nonBlocking
    ensures sb.Valid() && (sb.putBuffer == old(sb.putBuffer) || fresh(sb.putBuffer))
    ensures d == Done(GiveUpBuffer, if old(sb.Pending()) == [] then Ch(0) else Eof, sb.ec, [], [], [])
    ensures sb.socket.calls == old(sb.socket.calls) && sb.socket.wire == old(sb.socket.wire)
    ensures sb.out.accepted == old(sb.out.accepted) && sb.out.exact == old(sb.out.exact)
    ensures d.r != Eof ==> sb.putBuffer.Length == 0
  {
    var granted := sb.Setbuf(true, 0);
    d := Done(GiveUpBuffer, if granted then Ch(0) else Eof, sb.ec, [], [], []);
  }

  /** One call on the output side. */
  method PerformOutput(sb: SocketStreamBuf, op: Op) returns (ghost d: Done)
    requires sb.Valid() && !op.Get?
    modifies sb`ec, sb`putBuffer, sb`put, sb`out, sb.putBuffer,
             sb.socket`wire, sb.socket`now, sb.socket`calls, sb.socket`nonBlocking
    ensures sb.Valid() && (sb.putBuffer == old(sb.putBuffer) || fresh(sb.putBuffer))
    ensures d.op == op && d.ec == sb.ec && Explained(d, sb.expiry)
    ensures sb.socket.calls == old(sb.socket.calls) + d.calls
    ensures sb.socket.wire == old(sb.socket.wire) + d.sent
    ensures sb.out.accepted == old(sb.out.accepted) + PutBy(d)
    ensures sb.out.exact == (old(sb.out.exact) && (OutputFailed(d) ==> d.sent == []))
    ensures op.Put? && d.r != Eof ==> d.r == Ch(op.b)
    ensures op.Put? ==> d.todo == if old(sb.put.next == sb.put.end) then old(sb.Output(Ch(op.b))) else []
    ensures op.Flush? ==> d.todo == old(sb.Pending())
    ensures !op.GiveUpBuffer? && d.r != Eof ==> d.sent == d.todo
    ensures op.Flush? ==> if d.r != Eof then sb.Pending() == [] && d.sent == old(sb.Pending())
                          else sb.Pending() == old(sb.Pending())
    ensures op.GiveUpBuffer? ==> (d.r != Eof <==> old(sb.Pending()) == [])
    ensures op.GiveUpBuffer? && d.r != Eof ==> sb.putBuffer.Length == 0
  {
    if op.Put? {
      d := PutOne(sb, op.b);
    } else if op.Flush? {
      d := FlushOne(sb);
    } else {
      d := GiveUpOne(sb);
    }
  }

  /** One call. */
  method Perform(sb: SocketStreamBuf, op: Op) returns (ghost d: Done)
    requires sb.Valid()
    modifies sb`ec, sb`get, sb`putBuffer, sb`put, sb`out, sb`delivered, sb.putBuffer, sb.getBuffer,
             sb.socket`wire, sb.socket`received, sb.socket`now, sb.socket`calls, sb.socket`nonBlocking
    ensures sb.Valid() && (sb.putBuffer == old(sb.putBuffer) || fresh(sb.putBuffer))
    ensures d.op == op && d.ec == sb.ec && Explained(d, sb.expiry)
    ensures sb.socket.calls == old(sb.socket.calls) + d.calls
    ensures sb.socket.wire == old(sb.socket.wire) + d.sent
    ensures sb.out.accepted == old(sb.out.accepted) + PutBy(d)
    ensures sb.delivered == old(sb.delivered) + GotBy(d)
    ensures sb.out.exact == (old(sb.out.exact) && (OutputFailed(d) ==> d.sent == []))
  {
    if op.Get? {
      ghost var calls;
      var r;
      r, calls := sb.Sbumpc();
      d := Done(op, r, sb.ec, calls, [], []);
    } else {
      d := PerformOutput(sb, op);
    }
  }

  /** The bookkeeping of a run that began with these histories. */
  ghost predicate Accounted(sb: SocketStreamBuf, out: History, delivered: seq<Byte>, before: seq<Call>, wire: seq<Byte>, log: seq<Done>)
    reads sb, sb.socket
  {
    && sb.out.accepted == out.accepted + Taken(log)
    && sb.delivered == delivered + Given(log)
    && (sb.out.exact <==> out.exact && NoPartialFailure(log))
    && sb.socket.calls == before + CallsMade(log)
    && sb.socket.wire == wire + SentIn(log)
  }

  /** The log is that of the first calls of a run, and explains each of them. */
  ghost predicate LogIs(ops: seq<Op>, log: seq<Done>, expiry: int) {
    |log| <= |ops| && forall i :: 0 <= i < |log| ==> log[i].op == ops[i] && Explained(log[i], expiry)
  }

  lemma LogGrows(ops: seq<Op>, log: seq<Done>, d: Done, expiry: int)
    requires LogIs(ops, log, expiry) && |log| < |ops|
    requires d.op == ops[|log|] && Explained(d, expiry)
    ensures LogIs(ops, log + [d], expiry)
  {
    var log' := log + [d];
    forall i | 0 <= i < |log'|
      ensures log'[i].op == ops[i] && Explained(log'[i], expiry)
    {
      if i < |log| {
        assert log'[i] == log[i];
      } else {
        assert log'[i] == d;
      }
    }
  }

  method Step(sb: SocketStreamBuf, op: Op, ghost log: seq<Done>,
              ghost out: History, ghost delivered: seq<Byte>, ghost before: seq<Call>, ghost wire: seq<Byte>)
    returns (ghost d: Done)
    requires sb.Valid() && Accounted(sb, out, delivered, before, wire, log)
    modifies sb`ec, sb`get, sb`putBuffer, sb`put, sb`out, sb`delivered, sb.putBuffer, sb.getBuffer,
             sb.socket`wire, sb.socket`received, sb.socket`now, sb.socket`calls, sb.socket`nonBlocking
    ensures sb.Valid() && (sb.putBuffer == old(sb.putBuffer) || fresh(sb.putBuffer))
    ensures d.op == op && Explained(d, sb.expiry)
    ensures Accounted(sb, out, delivered, before, wire, log + [d])
  {
    d := Perform(sb, op);
    LogAppend(log, d);
    NoPartialFailureAppend(log, d);
    Regroup(out.accepted, Taken(log), PutBy(d));
    Regroup(delivered, Given(log), GotBy(d));
    Regroup(before, CallsMade(log), d.calls);
    Regroup(wire, SentIn(log), d.sent);
  }

  /** What the bookkeeping means together with the invariant. */
  lemma AccountOfRun(sb: SocketStreamBuf, out: History, delivered: seq<Byte>, before: seq<Call>, wire: seq<Byte>, log: seq<Done>)
    requires sb.Valid() && Accounted(sb, out, delivered, before, wire, log)
    ensures Subsequence(out.accepted + Taken(log), sb.socket.wire + sb.Pending())
    ensures out.exact ==>
              (out.accepted + Taken(log) == sb.socket.wire + sb.Pending() <==> NoPartialFailure(log))
    ensures sb.socket.received == delivered + Given(log) + sb.Unread()
  {
    sb.NothingAcceptedIsLost();
  }

  /** Every run on one connection, under every behaviour of the peer and the clock: what the callers put is
      on the wire or pending, in order, at least once; and exactly once if and only if no output call has
      failed after sending a part of what it should. What the callers got, followed by what is unread, is
      what was received. All system calls keep to the deadline and explain the failures. */
  method Run(sb: SocketStreamBuf, ops: seq<Op>) returns (ghost log: seq<Done>)
    requires sb.Valid()
    modifies sb`ec, sb`get, sb`putBuffer, sb`put, sb`out, sb`delivered, sb.putBuffer, sb.getBuffer,
             sb.socket`wire, sb.socket`received, sb.socket`now, sb.socket`calls, sb.socket`nonBlocking
    ensures sb.Valid()
    ensures |log| == |ops| && LogIs(ops, log, sb.expiry)
    ensures sb.socket.calls == old(sb.socket.calls) + CallsMade(log)
    ensures sb.socket.wire == old(sb.socket.wire) + SentIn(log)
    ensures Subsequence(old(sb.out.accepted) + Taken(log), sb.socket.wire + sb.Pending())
    ensures old(sb.out.exact) ==>
              (old(sb.out.accepted) + Taken(log) == sb.socket.wire + sb.Pending() <==> NoPartialFailure(log))
    ensures sb.socket.received == old(sb.delivered) + Given(log) + sb.Unread()
  {
    ghost var out, delivered, before, wire := sb.out, sb.delivered, sb.socket.calls, sb.socket.wire;
    log := [];
    for i := 0 to |ops|
      invariant sb.Valid() && (sb.putBuffer == old(sb.putBuffer) || fresh(sb.putBuffer))
      invariant |log| == i && LogIs(ops, log, sb.expiry)
      invariant Accounted(sb, out, delivered, before, wire, log)
    {
      ghost var d := Step(sb, ops[i], log, out, delivered, before, wire);
      LogGrows(ops, log, d, sb.expiry);
      log := log + [d];
    }
    AccountOfRun(sb, out, delivered, before, wire, log);
  }

  /** The plainest run in which a close that reports success has lost a character: the deadline has passed,
      one character is put, which is accepted, and the buffer is closed. */
  method LateCloseLoses(s: Socket, b: Byte) returns (sb: SocketStreamBuf, put: IntType, ok: bool)
    requires s.Valid() && INT64_MIN < s.now <= INT64_MAX
    modifies s`wire, s`now, s`calls, s`nonBlocking, s`fd, s`openFds, s`link
    ensures sb.Valid() && put == Ch(b)
    ensures old(s.fd) == None ==> ok
    ensures ok ==> sb.Pending() == [] && s.wire == old(s.wire)
  {
    sb := new SocketStreamBuf(s);
    sb.expiry := s.now - 1;
    ghost var calls, synced, ec;
    put, calls := sb.Sputc(b);
    ok, synced, calls, ec := sb.Close();
  }
}
