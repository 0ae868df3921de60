/** What connect_to_endpoints makes of the results of its system calls. */
module ConnectSpec {
  import opened AsioTypes
  import opened SocketTime

  /** One pass of the loop: when the deadline was checked, the results of its calls, as far as they are
      made, when the poll began, and whether the endpoint is connected when the pass is over. */
  datatype Attempt = Attempt(
    checkedAt: int,
    pollAt: int,
    closeEc: Ec,
    openEc: Ec,
    switchEc: Ec,
    connectEc: Ec,
    polled: int, pollEc: Ec,
    queryOk: bool, queryEc: Ec, soError: Ec,
    established: bool
  )

  predicate Unfinished(ec: Ec) {
    ec == InProgress || ec == WouldBlock
  }

  /** The system calls of the pass. */
  function CallsOf(endpoint: nat, a: Attempt, expiry: int): seq<Call> {
    [Closing(a.closeEc), Opened(a.openEc)]
    + if a.openEc != Clear then []
      else
        [Switched(a.switchEc), Connecting(endpoint, a.switchEc != Clear, a.connectEc)]
        + if !Unfinished(a.connectEc) then []
          else
            [Reading(a.pollAt), PolledConnect(Timeout(expiry, a.pollAt), a.polled, a.pollEc)]
            + if a.polled < 0 then [] else [Queried(a.queryOk, a.queryEc, a.soError)]
  }

  /** The system calls of the loop: before each pass, the deadline is checked. */
  function CourseCalls(endpoints: seq<nat>, attempts: seq<Attempt>, expiry: int): seq<Call>
    requires |attempts| <= |endpoints|
  {
    if attempts == [] then []
    else
      var n := |attempts| - 1;
      CourseCalls(endpoints, attempts[..n], expiry)
      + [Reading(attempts[n].checkedAt)] + CallsOf(endpoints[n], attempts[n], expiry)
  }

  lemma CourseCallsAppend(endpoints: seq<nat>, attempts: seq<Attempt>, a: Attempt, expiry: int)
    requires |attempts| < |endpoints|
    ensures CourseCalls(endpoints, attempts + [a], expiry)
         == CourseCalls(endpoints, attempts, expiry) + [Reading(a.checkedAt)] + CallsOf(endpoints[|attempts|], a, expiry)
  {
    assert (attempts + [a])[..|attempts|] == attempts;
  }

  lemma CourseCallsFrom(before: seq<Call>, endpoints: seq<nat>, attempts: seq<Attempt>, a: Attempt, expiry: int)
    requires |attempts| < |endpoints|
    ensures before + CourseCalls(endpoints, attempts + [a], expiry)
         == before + CourseCalls(endpoints, attempts, expiry)
            + ([Reading(a.checkedAt)] + CallsOf(endpoints[|attempts|], a, expiry))
  {
    CourseCallsAppend(endpoints, attempts, a, expiry);
  }

  /** What the calls promise, as far as the loop gets. */
  predicate Honest(a: Attempt) {
    if a.openEc != Clear then !a.established
    else if !Unfinished(a.connectEc) then a.established <==> a.connectEc == Clear
    else
      && (a.polled < 0 <==> a.pollEc != Clear)
      && (a.polled < 0 ==> !a.established)
      && (a.queryOk <==> a.queryEc == Clear)
      && (a.established ==> a.soError == Clear)
      && (a.polled > 0 && a.soError == Clear ==> a.established)
  }

  /** ec_ at the end of the pass. */
  function EcAfter(a: Attempt): Ec {
    if a.openEc != Clear then a.openEc
    else if !Unfinished(a.connectEc) then a.connectEc
    else if a.polled < 0 then a.pollEc
    else if !a.queryOk then a.queryEc
    else a.soError
  }

  /** Whether the loop returns at this pass. */
  predicate Returns(a: Attempt) {
    && a.openEc == Clear
    && (a.connectEc == Clear
        || (Unfinished(a.connectEc) && a.polled >= 0 && (!a.queryOk || a.soError == Clear)))
  }

  /** Some attempt got as far as an open socket. */
  predicate AnyOpened(attempts: seq<Attempt>) {
    exists i :: 0 <= i < |attempts| && attempts[i].openEc == Clear
  }

  lemma AnyOpenedOfLonger(before: seq<Attempt>, attempts: seq<Attempt>)
    requires before <= attempts && |attempts| <= |before| + 1
    ensures AnyOpened(attempts) <==>
              AnyOpened(before) || (|attempts| > |before| && attempts[|before|].openEc == Clear)
  {
    assert forall i :: 0 <= i < |before| ==> attempts[i] == before[i];
  }

  predicate AllFailed(attempts: seq<Attempt>) {
    forall i :: 0 <= i < |attempts| ==> Honest(attempts[i]) && !Returns(attempts[i])
  }

  /** Every pass was begun by a check that found the deadline not passed. */
  predicate OnTime(attempts: seq<Attempt>, expiry: int) {
    forall i :: 0 <= i < |attempts| ==> attempts[i].checkedAt <= expiry
  }

  /** The poll of an attempt in progress came back because its time was over. */
  predicate PollRanOut(a: Attempt) {
    a.openEc == Clear && Unfinished(a.connectEc) && a.polled == 0
  }

  /** The endpoint is connected and the function could find that out. */
  predicate Confirmed(a: Attempt) {
    a.established && (a.connectEc == Clear || a.queryOk)
  }

  /** A truth about an attempt that its system calls do not contradict. */
  predicate Possible(a: Attempt, established: bool) {
    Honest(a.(established := established))
  }

  /** A possible course of the loop over n endpoints: the passes, and whether the deadline ended it. */
  predicate Course(attempts: seq<Attempt>, expired: bool, n: nat) {
    && |attempts| <= n
    && (forall i :: 0 <= i < |attempts| ==> Honest(attempts[i]))
    && (forall i :: 0 <= i < |attempts| - 1 ==> !Returns(attempts[i]))
    && (expired ==> |attempts| < n && (attempts == [] || !Returns(attempts[|attempts| - 1])))
    && (!expired && |attempts| < n ==> attempts != [] && Returns(attempts[|attempts| - 1]))
  }

  /** ec_ when the loop is over. */
  function FinalEc(attempts: seq<Attempt>, expired: bool): Ec {
    if expired then TimedOutEc
    else if attempts == [] then NotFound
    else EcAfter(attempts[|attempts| - 1])
  }

  /** One more pass either goes on or ends the course. */
  lemma CourseStops(attempts: seq<Attempt>, a: Attempt, n: nat)
    requires AllFailed(attempts) && Honest(a) && |attempts| < n
    ensures if Returns(a) then Course(attempts + [a], false, n) else AllFailed(attempts + [a])
    ensures FinalEc(attempts + [a], false) == EcAfter(a)
  {
  }

  lemma CourseExpires(attempts: seq<Attempt>, n: nat)
    requires AllFailed(attempts) && |attempts| < n
    ensures Course(attempts, true, n)
  {
  }

  lemma OnTimeAppend(attempts: seq<Attempt>, a: Attempt, expiry: int)
    requires OnTime(attempts, expiry) && a.checkedAt <= expiry
    ensures OnTime(attempts + [a], expiry)
  {
  }

  /** When the function reports success: exactly when the deadline has not ended it and the last endpoint
      is known to be connected, or the poll for it ran out and the query then found no error. Every endpoint
      before it was tried in order and failed with an error. */
  lemma SuccessMeans(attempts: seq<Attempt>, expired: bool, n: nat)
    requires Course(attempts, expired, n)
    ensures FinalEc(attempts, expired) == Clear
       <==> !expired && attempts != []
            && var last := attempts[|attempts| - 1];
               Confirmed(last) || (PollRanOut(last) && last.queryOk && last.soError == Clear)
    ensures forall i :: 0 <= i < |attempts| - 1 ==> EcAfter(attempts[i]) != Clear && !attempts[i].established
  {
    if attempts != [] {
      assert Honest(attempts[|attempts| - 1]);
    }
    forall i | 0 <= i < |attempts| - 1
      ensures EcAfter(attempts[i]) != Clear && !attempts[i].established
    {
      assert Honest(attempts[i]) && !Returns(attempts[i]);
    }
  }

  /** What the system calls of a success tell about the connection: everything, if the poll did not run
      out, and nothing, if it did. */
  lemma SuccessTells(a: Attempt)
    requires Honest(a) && EcAfter(a) == Clear
    ensures Possible(a, true)
    ensures Possible(a, false) <==> PollRanOut(a)
    ensures !PollRanOut(a) ==> a.established
  {
  }

  /** So a reported success can be relied on if and only if the poll of the last attempt did not run out:
      otherwise the same calls with the same results are possible without a connection. */
  lemma SuccessIsConnection(attempts: seq<Attempt>, expired: bool, n: nat)
    requires Course(attempts, expired, n) && FinalEc(attempts, expired) == Clear
    ensures attempts != []
    ensures Possible(attempts[|attempts| - 1], false) <==> PollRanOut(attempts[|attempts| - 1])
    ensures !PollRanOut(attempts[|attempts| - 1]) ==> attempts[|attempts| - 1].established
  {
    SuccessTells(attempts[|attempts| - 1]);
  }

  /** A success that is none, at any time: one endpoint that has not answered when the poll runs out. */
  lemma UndecidedLooksConnected(checkedAt: int, pollAt: int) returns (a: Attempt)
    ensures Course([a], false, 1) && FinalEc([a], false) == Clear && !a.established
    ensures PollRanOut(a) && a.checkedAt == checkedAt && a.pollAt == pollAt
  {
    a := Attempt(checkedAt, pollAt, Clear, Clear, Clear, InProgress, 0, Clear, true, Clear, Clear, false);
  }

  /** The query after the poll failed, so that nothing is known about the connection. */
  predicate QueryFailed(a: Attempt) {
    a.openEc == Clear && Unfinished(a.connectEc) && a.polled >= 0 && !a.queryOk
  }

  /** An endpoint that could not be opened, refused, could not be polled, or was found not to be connected. */
  predicate Failed(a: Attempt) {
    || a.openEc != Clear
    || (a.connectEc != Clear && !Unfinished(a.connectEc))
    || (Unfinished(a.connectEc) && (a.polled < 0 || (a.queryOk && a.soError != Clear)))
  }

  /** When the loop goes on and when it ends: it goes on to the next endpoint exactly after those that
      failed. So an error at the end means that all endpoints have been tried, that the deadline has
      passed, or that the query about the last one failed. */
  lemma WhyTheLoopEnds(attempts: seq<Attempt>, expired: bool, n: nat)
    requires Course(attempts, expired, n)
    ensures forall i :: 0 <= i < |attempts| - 1 ==> Failed(attempts[i])
    ensures |attempts| < n && attempts != [] ==> (Failed(attempts[|attempts| - 1]) <==> expired)
    ensures FinalEc(attempts, expired) != Clear ==>
              || expired || |attempts| == n
              || (attempts != [] && QueryFailed(attempts[|attempts| - 1]))
  {
    forall i | 0 <= i < |attempts|
      ensures Failed(attempts[i]) <==> !Returns(attempts[i])
    {
      assert Honest(attempts[i]);
    }
  }

  /** The error that a call reports; for the query, the error that it found. */
  function ErrorOf(call: Call): Ec {
    match call
    case Opened(ec) => ec
    case Connecting(_, _, ec) => ec
    case PolledConnect(_, _, ec) => ec
    case Queried(ok, ec, soError) => if ok then soError else ec
    case _ => Clear
  }

  /** ec_ at the end is the error of the last system call, unless the deadline ended the loop or there was
      no endpoint. */
  lemma ErrorIsOfLastCall(endpoints: seq<nat>, attempts: seq<Attempt>, expiry: int)
    requires attempts != [] && |attempts| <= |endpoints|
    requires Course(attempts, false, |endpoints|)
    ensures var calls := CourseCalls(endpoints, attempts, expiry);
            calls != [] && FinalEc(attempts, false) == ErrorOf(Last(calls))
  {
    var n := |attempts| - 1;
    assert Honest(attempts[n]);
    var calls := CallsOf(endpoints[n], attempts[n], expiry);
    assert ErrorOf(Last(calls)) == EcAfter(attempts[n]);
    assert Last(CourseCalls(endpoints, attempts, expiry)) == Last(calls);
  }

  /** The i-th call has the calls around it that the code makes: the socket is closed and opened again
      directly after a reading of the clock that is not past the expiry; an open socket is switched to non-blocking mode and
      connected, which can block only if the switch failed; a connection in progress is polled for what is
      left of the time; and what a poll that is not an error found is queried. */
  ghost predicate InOrder(calls: seq<Call>, expiry: int, i: nat)
    requires i < |calls|
  {
    match calls[i]
    case Closing(_) => i > 0 && calls[i - 1].Reading? && i + 1 < |calls| && calls[i + 1].Opened?
    case Opened(ec) =>
      && i > 1 && calls[i - 1].Closing? && calls[i - 2].Reading? && calls[i - 2].at <= expiry
      && (ec == Clear ==> i + 1 < |calls| && calls[i + 1].Switched?)
    case Switched(ec) =>
      && i > 0 && calls[i - 1] == Opened(Clear)
      && i + 1 < |calls| && calls[i + 1].Connecting? && (calls[i + 1].blocking <==> ec != Clear)
    case Connecting(_, _, ec) =>
      && i > 0 && calls[i - 1].Switched?
      && (Unfinished(ec) ==>
            i + 2 < |calls| && calls[i + 1].Reading? && calls[i + 2].PolledConnect?
            && calls[i + 2].msec == Timeout(expiry, calls[i + 1].at))
    case PolledConnect(_, r, _) =>
      && i > 1 && calls[i - 1].Reading? && calls[i - 2].Connecting? && Unfinished(calls[i - 2].ec)
      && (r >= 0 ==> i + 1 < |calls| && calls[i + 1].Queried?)
    case Queried(_, _, _) => i > 0 && calls[i - 1].PolledConnect? && calls[i - 1].r >= 0
    case Reading(_) => i + 1 < |calls| && (calls[i + 1].Closing? || calls[i + 1].PolledConnect?)
    case _ => false
  }

  ghost predicate AllInOrder(calls: seq<Call>, expiry: int) {
    forall i :: 0 <= i < |calls| ==> InOrder(calls, expiry, i)
  }

  lemma InOrderAppend(calls: seq<Call>, more: seq<Call>, expiry: int)
    requires AllInOrder(calls, expiry) && AllInOrder(more, expiry)
    ensures AllInOrder(calls + more, expiry)
  {
    var all := calls + more;
    forall i | 0 <= i < |all|
      ensures InOrder(all, expiry, i)
    {
      if i < |calls| {
        assert InOrder(calls, expiry, i);
      } else {
        assert InOrder(more, expiry, i - |calls|);
      }
    }
  }

  lemma PassIsInOrder(endpoint: nat, a: Attempt, expiry: int)
    requires a.checkedAt <= expiry
    ensures AllInOrder([Reading(a.checkedAt)] + CallsOf(endpoint, a, expiry), expiry)
  {
  }

  /** All system calls of the loop are in order. */
  lemma {:induction false} CourseIsInOrder(endpoints: seq<nat>, attempts: seq<Attempt>, expiry: int)
    requires |attempts| <= |endpoints| && OnTime(attempts, expiry)
    ensures AllInOrder(CourseCalls(endpoints, attempts, expiry), expiry)
  {
    if attempts != [] {
      var n := |attempts| - 1;
      CourseIsInOrder(endpoints, attempts[..n], expiry);
      PassIsInOrder(endpoints[n], attempts[n], expiry);
      InOrderAppend(CourseCalls(endpoints, attempts[..n], expiry),
                    [Reading(attempts[n].checkedAt)] + CallsOf(endpoints[n], attempts[n], expiry), expiry);
      assert CourseCalls(endpoints, attempts, expiry)
          == CourseCalls(endpoints, attempts[..n], expiry)
             + ([Reading(attempts[n].checkedAt)] + CallsOf(endpoints[n], attempts[n], expiry));
    }
  }

  /** The endpoints to which connections were attempted, in order. */
  function Targets(calls: seq<Call>): seq<nat> {
    if calls == [] then []
    else Targets(calls[..|calls| - 1]) + if Last(calls).Connecting? then [Last(calls).endpoint] else []
  }

  lemma TargetsOfOne(calls: seq<Call>, call: Call)
    ensures Targets(calls + [call]) == Targets(calls) + if call.Connecting? then [call.endpoint] else []
  {
    assert (calls + [call])[..|calls|] == calls;
  }

  lemma {:induction false} TargetsOfConcat(calls: seq<Call>, more: seq<Call>)
    ensures Targets(calls + more) == Targets(calls) + Targets(more)
  {
    if more == [] {
      assert calls + more == calls;
    } else {
      var n := |more| - 1;
      TargetsOfConcat(calls, more[..n]);
      TargetsOfOne(calls + more[..n], more[n]);
      TargetsOfOne(more[..n], more[n]);
      assert calls + more == (calls + more[..n]) + [more[n]];
      assert more == more[..n] + [more[n]];
    }
  }

  lemma {:induction false} NoTargets(calls: seq<Call>)
    requires forall i :: 0 <= i < |calls| ==> !calls[i].Connecting?
    ensures Targets(calls) == []
  {
    if calls != [] {
      NoTargets(calls[..|calls| - 1]);
    }
  }

  lemma TargetsOfPass(endpoint: nat, a: Attempt, expiry: int)
    ensures Targets([Reading(a.checkedAt)] + CallsOf(endpoint, a, expiry)) == if a.openEc == Clear then [endpoint] else []
  {
    var calls := [Reading(a.checkedAt)] + CallsOf(endpoint, a, expiry);
    if a.openEc != Clear {
      NoTargets(calls);
    } else {
      NoTargets(calls[..4]);
      NoTargets(calls[5..]);
      TargetsOfOne(calls[..4], calls[4]);
      TargetsOfConcat(calls[..4] + [calls[4]], calls[5..]);
      assert calls == (calls[..4] + [calls[4]]) + calls[5..];
    }
  }

  /** The endpoints whose socket could be opened. */
  function Reached(endpoints: seq<nat>, attempts: seq<Attempt>): seq<nat>
    requires |attempts| <= |endpoints|
  {
    if attempts == [] then []
    else
      var n := |attempts| - 1;
      Reached(endpoints, attempts[..n]) + if attempts[n].openEc == Clear then [endpoints[n]] else []
  }

  /** Connections are attempted to the endpoints in their order, each at most once, and left out only if no
      socket could be opened for them. */
  lemma {:induction false} EndpointsInOrder(endpoints: seq<nat>, attempts: seq<Attempt>, expiry: int)
    requires |attempts| <= |endpoints|
    ensures Targets(CourseCalls(endpoints, attempts, expiry)) == Reached(endpoints, attempts)
  {
    if attempts != [] {
      var n := |attempts| - 1;
      var pass := [Reading(attempts[n].checkedAt)] + CallsOf(endpoints[n], attempts[n], expiry);
      EndpointsInOrder(endpoints, attempts[..n], expiry);
      TargetsOfPass(endpoints[n], attempts[n], expiry);
      TargetsOfConcat(CourseCalls(endpoints, attempts[..n], expiry), pass);
      assert CourseCalls(endpoints, attempts, expiry) == CourseCalls(endpoints, attempts[..n], expiry) + pass;
    }
  }

  /** Without endpoints nothing is found, whatever the time. */
  lemma NoEndpoints(attempts: seq<Attempt>, expired: bool)
    requires Course(attempts, expired, 0)
    ensures FinalEc(attempts, expired) == NotFound
  {
  }
}
