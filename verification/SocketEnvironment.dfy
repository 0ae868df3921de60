/** The operating system as a socket stream buffer meets it: a nondeterministic environment that honours
    the contracts of the socket calls. */
module SocketEnvironment {
  import opened AsioTypes
  import opened SocketTime

  /** Where a connection attempt stands, in truth. */
  datatype Link = Unlinked | InFlight(endpoint: nat) | Established(endpoint: nat) | Broken(endpoint: nat)

  /** EBADF, the error of every call on a socket that is closed. */
  const BAD_DESCRIPTOR: Ec := Other(9)

  /** A number that the environment chooses. */
  method AnyNat() returns (n: nat)
  {
    var any: int := *;
    n := if any >= 0 then any else 0;
  }

  class Socket {
    var fd: Option<nat>
    var nonBlocking: bool
    var now: int

    // Where the connection stands.
    var link: Link

    // What has happened: the system calls, the bytes handed over to the peer and taken from it on the
    // current connection, and the native sockets that are open.
    ghost var calls: seq<Call>
    ghost var wire: seq<Byte>
    ghost var received: seq<Byte>
    ghost var openFds: set<nat>

    /** At most one native socket is open. */
    ghost predicate Valid()
      reads this
    {
      && openFds == (if fd.Some? then {fd.value} else {})
      && INT64_MIN <= now
    }

    constructor Closed(time: int)
      requires INT64_MIN <= time
      ensures Valid() && fd == None && wire == [] && received == [] && link == Unlinked
    {
      fd, nonBlocking, now := None, false, time;
      calls, wire, received, link, openFds := [], [], [], Unlinked, {};
    }

    /** Time goes on, by any amount. */
    method ReadClock() returns (t: int)
      requires Valid()
      modifies this`now, this`calls
      ensures Valid() && old(now) <= now == t
      ensures calls == old(calls) + [Reading(t)]
    {
      var elapsed := AnyNat();
      now := now + elapsed;
      t := now;
      calls := calls + [Reading(t)];
    }

    /** native_non_blocking(true, ec), on a socket in blocking mode. */
    method SetNonBlocking() returns (ec: Ec)
      modifies this`nonBlocking, this`calls
      ensures nonBlocking <==> ec == Clear
      ensures calls == old(calls) + [Switched(ec)]
    {
      ec := *;
      nonBlocking := ec == Clear;
      calls := calls + [Switched(ec)];
    }

    /** socket_ops::send: a prefix of the data, nothing (without an error), or an error, which it is on a
        socket that is closed. */
    method Send(data: seq<Byte>) returns (bytes: int, ec: Ec)
      modifies this`wire, this`calls
      ensures bytes <= |data| && (bytes < 0 <==> ec != Clear)
      ensures fd == None ==> ec == BAD_DESCRIPTOR
      ensures wire == old(wire) + if bytes > 0 then data[..bytes] else []
      ensures calls == old(calls) + [Sent(!nonBlocking, data, Max(0, bytes), ec)]
    {
      bytes, ec := *, *;
      if fd == None {
        bytes, ec := -1, BAD_DESCRIPTOR;
      }
      if bytes > |data| {
        bytes := |data|;
      }
      if bytes >= 0 {
        ec := Clear;
        wire := wire + data[..bytes];
      } else if ec == Clear {
        ec := WouldBlock;
      }
      calls := calls + [Sent(!nonBlocking, data, Max(0, bytes), ec)];
    }

    /** socket_ops::recv: up to max bytes from the peer, the end of the stream, or an error. */
    method Receive(max: nat) returns (bytes: int, data: seq<Byte>, ec: Ec)
      modifies this`received, this`calls
      ensures bytes <= max && (bytes < 0 <==> ec != Clear)
      ensures fd == None ==> ec == BAD_DESCRIPTOR
      ensures |data| == (if bytes > 0 then bytes else 0) && received == old(received) + data
      ensures calls == old(calls) + [Received(!nonBlocking, max, Max(0, bytes), ec)]
    {
      bytes, ec, data := *, *, *;
      if fd == None {
        bytes, ec := -1, BAD_DESCRIPTOR;
      }
      if bytes > max {
        bytes := max;
      }
      if bytes > |data| {
        bytes := |data|;
      }
      data := if bytes > 0 then data[..bytes] else [];
      if bytes >= 0 {
        ec := Clear;
      } else if ec == Clear {
        ec := WouldBlock;
      }
      received := received + data;
      calls := calls + [Received(!nonBlocking, max, Max(0, bytes), ec)];
    }

    /** socket_ops::poll_read and poll_write: ready, not ready within the time, or an error. A poll takes
        time. */
    method Poll(msec: int) returns (r: int, ec: Ec)
      requires Valid() && 0 <= msec <= INT_MAX
      modifies this`now, this`calls
      ensures Valid() && now > old(now)
      ensures r < 0 <==> ec != Clear
      ensures calls == old(calls) + [Polled(msec, r >= 0, ec)]
    {
      r, ec := *, *;
      if r >= 0 {
        ec := Clear;
      } else if ec == Clear {
        r := 0;
      }
      var elapsed := AnyNat();
      now := now + elapsed + 1;
      calls := calls + [Polled(msec, r >= 0, ec)];
    }

    /** close(ec): the native socket is gone even if an error is reported. */
    method Close() returns (ec: Ec)
      requires Valid()
      modifies this`fd, this`openFds, this`link, this`calls
      ensures Valid() && fd == None && link == Unlinked
      ensures calls == old(calls) + [Closing(ec)]
      ensures old(fd) == None ==> ec == Clear
    {
      ec := *;
      if fd == None {
        ec := Clear;
      } else {
        openFds := openFds - {fd.value};
      }
      fd, link := None, Unlinked;
      calls := calls + [Closing(ec)];
    }

    /** open(protocol, ec), on a socket that is not open: a new connection begins, in blocking mode. */
    method Open() returns (ec: Ec)
      requires Valid() && fd == None
      modifies this`fd, this`openFds, this`nonBlocking, this`wire, this`received, this`calls
      ensures Valid() && (fd.Some? <==> ec == Clear) && (ec == Clear ==> !nonBlocking)
      ensures if ec == Clear then wire == [] && received == [] else wire == old(wire) && received == old(received)
      ensures calls == old(calls) + [Opened(ec)]
    {
      ec := *;
      calls := calls + [Opened(ec)];
      if ec == Clear {
        var handle := AnyNat();
        fd, openFds, nonBlocking := Some(handle), openFds + {handle}, false;
        wire, received := [], [];
      }
    }

    /** socket_ops::connect: connected at once, an attempt in progress, or refused. */
    method Connect(endpoint: nat) returns (ec: Ec)
      requires fd.Some?
      modifies this`link, this`calls
      ensures ec == Clear <==> link == Established(endpoint)
      ensures ec == InProgress || ec == WouldBlock <==> link == InFlight(endpoint)
      ensures calls == old(calls) + [Connecting(endpoint, !nonBlocking, ec)]
    {
      ec := *;
      calls := calls + [Connecting(endpoint, !nonBlocking, ec)];
      link := if ec == Clear then Established(endpoint)
              else if ec == InProgress || ec == WouldBlock then InFlight(endpoint)
              else Broken(endpoint);
    }

    /** socket_ops::poll_connect. A positive result means that the attempt has been decided; zero, that
        the time was over first. */
    method PollConnect(msec: int) returns (r: int, ec: Ec)
      requires Valid() && 0 <= msec <= INT_MAX && link.InFlight?
      modifies this`now, this`calls, this`link
      ensures Valid() && now > old(now)
      ensures r < 0 <==> ec != Clear
      ensures if r > 0 then link == Established(old(link.endpoint)) || link == Broken(old(link.endpoint))
              else link == old(link)
      ensures calls == old(calls) + [PolledConnect(msec, r, ec)]
    {
      ghost var before := calls;
      r, ec := Poll(msec);
      calls := before + [PolledConnect(msec, r, ec)];
      if r > 0 {
        var reached: bool := *;
        link := if reached then Established(link.endpoint) else Broken(link.endpoint);
      }
    }

    /** getsockopt(SO_ERROR). An attempt that is still in flight may be decided just before; if it is not,
        there is no error to report. */
    method QueryError() returns (ok: bool, ec: Ec, soError: Ec)
      requires !link.Unlinked?
      modifies this`link, this`calls
      ensures ok <==> ec == Clear
      ensures if old(link).InFlight? then !link.Unlinked? && link.endpoint == old(link.endpoint) else link == old(link)
      ensures soError != Clear <==> link.Broken?
      ensures calls == old(calls) + [Queried(ok, ec, soError)]
    {
      ec := *;
      ok := ec == Clear;
      if link.InFlight? {
        var decided: bool, reached: bool := *, *;
        if decided {
          link := if reached then Established(link.endpoint) else Broken(link.endpoint);
        }
      }
      soError := *;
      if !link.Broken? {
        soError := Clear;
      } else if soError == Clear {
        soError := Other(111);
      }
      calls := calls + [Queried(ok, ec, soError)];
    }
  }
}
