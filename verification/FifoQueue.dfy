/** The bounded FIFO byte queue that basic_streambuf refines, and what every run of it satisfies. */
module FifoQueue {
  import opened AsioTypes

  /** The abstract state: the number of bytes in front of the queue that have been consumed and can be won
      back, the readable queue, and the writable bytes behind it (the part of the put area that has not
      been committed). */
  datatype Fifo = Fifo(gap: nat, queue: seq<Byte>, spare: seq<Byte>)

  datatype Op =
    | Prepare(n: SizeT)
    | Fill(at: nat, bytes: seq<Byte>)
    | Commit(n: SizeT)
    | Consume(n: SizeT)
    | PutChar(b: Byte)
    | GetChar

  /** What one call did, as its caller sees it. */
  datatype Obs = Done | Got(c: IntType)

  /** How many spare bytes there are after room for n has been made: as many as before if that is enough;
      otherwise the gap is won back, and if that is not enough there are exactly n. */
  function Room(f: Fifo, n: int): (room: int)
    ensures room >= n && room >= |f.spare|
    ensures n > |f.spare| ==> room == n || (room > n && room == |f.spare| + f.gap)
    ensures n <= |f.spare| ==> room == |f.spare|
  {
    if n <= |f.spare| then |f.spare| else Max(n, |f.spare| + f.gap)
  }

  /** What a character that is put asks for if there are no spare bytes: 128, or as many as the bound
      allows. */
  function Growth(bound: int, f: Fifo): int {
    Min(128, bound - |f.queue|)
  }

  /** One call of the abstract queue of capacity bound. What new spare bytes contain is left open;
      everything else is determined. */
  ghost predicate FifoStep(bound: int, f: Fifo, op: Op, obs: Obs, f': Fifo) {
    && f'.gap + |f'.queue| + |f'.spare| <= bound
    && match op
       case Prepare(n) =>
         obs == Done && f'.queue == f.queue && |f'.spare| == Room(f, n as int)
         && (if n as int <= |f.spare| then f'.spare == f.spare && f'.gap == f.gap else f'.gap == 0)
       case Fill(at, bytes) =>
         && obs == Done && f'.queue == f.queue && f'.gap == f.gap
         && at + |bytes| <= |f.spare|
         && f'.spare == f.spare[..at] + bytes + f.spare[at + |bytes|..]
       case Commit(n) =>
         var k := Min(n as int, |f.spare|);
         obs == Done && f'.queue == f.queue + f.spare[..k] && f'.spare == f.spare[k..] && f'.gap == f.gap
       case Consume(n) =>
         var k := Min(n as int, |f.queue|);
         obs == Done && f'.queue == f.queue[k..] && f'.spare == f.spare && f'.gap == f.gap + k
       case PutChar(b) =>
         && obs == Got(Ch(b)) && f'.queue == f.queue + [b]
         && (if f.spare != [] then f'.spare == f.spare[1..] && f'.gap == f.gap
             else |f'.spare| == Room(f, Growth(bound, f)) - 1 && f'.gap == 0)
       case GetChar =>
         if f.queue == [] then obs == Got(Eof) && f' == f
         else obs == Got(Ch(f.queue[0])) && f'.queue == f.queue[1..] && f'.spare == f.spare && f'.gap == f.gap + 1
  }

  /** The calls that would exceed the capacity. */
  predicate Exceeds(bound: int, f: Fifo, op: Op) {
    match op
    case Prepare(n) => |f.queue| + n as int > bound
    case PutChar(_) => |f.queue| + 1 > bound
    case _ => false
  }

  lemma ConsumeIsStep(bound: int, f: Fifo, n: SizeT, f': Fifo)
    requires f.gap + |f.queue| + |f.spare| <= bound && f'.spare == f.spare
    requires f'.queue == f.queue[Min(n as int, |f.queue|)..] && f'.gap == f.gap + Min(n as int, |f.queue|)
    ensures FifoStep(bound, f, Consume(n), Done, f')
  {
  }

  lemma GetCharIsStep(bound: int, f: Fifo, c: IntType, f': Fifo)
    requires f.gap + |f.queue| + |f.spare| <= bound && f'.spare == f.spare
    requires if f.queue == [] then c == Eof && f'.queue == [] && f'.gap == f.gap
             else c == Ch(f.queue[0]) && f'.queue == f.queue[1..] && f'.gap == f.gap + 1
    ensures FifoStep(bound, f, GetChar, Got(c), f')
  {
  }

  /** A prepare followed by a commit, where there was not room enough: no more than was prepared becomes
      readable, unless the gap has been won back. */
  lemma CommitAfterPrepare(bound: int, f: Fifo, n: SizeT, prepared: Fifo, m: SizeT, f': Fifo)
    requires FifoStep(bound, f, Prepare(n), Done, prepared) && FifoStep(bound, prepared, Commit(m), Done, f')
    requires n as int > |f.spare|
    ensures |f'.queue| == |f.queue| + Min(m as int, Max(n as int, |f.spare| + f.gap))
    ensures f.gap == 0 ==> |f'.queue| == |f.queue| + Min(m as int, n as int)
  {
  }

  /** The bytes that a call adds to the queue. */
  function BytesIn(f: Fifo, op: Op): seq<Byte> {
    match op
    case Commit(n) => f.spare[..Min(n as int, |f.spare|)]
    case PutChar(b) => [b]
    case _ => []
  }

  /** The bytes that a call takes out of the queue. */
  function BytesOut(f: Fifo, op: Op): seq<Byte> {
    match op
    case Consume(n) => f.queue[..Min(n as int, |f.queue|)]
    case GetChar => if f.queue == [] then [] else [f.queue[0]]
    case _ => []
  }

  /** A run: one state more than calls. */
  ghost predicate FifoRun(bound: int, states: seq<Fifo>, ops: seq<Op>, obs: seq<Obs>) {
    && |states| == |ops| + 1
    && |obs| == |ops|
    && forall i :: 0 <= i < |ops| ==> FifoStep(bound, states[i], ops[i], obs[i], states[i + 1])
  }

  /** The bytes that the first n calls of a run added. */
  function AllIn(states: seq<Fifo>, ops: seq<Op>, n: nat): seq<Byte>
    requires n <= |ops| < |states|
  {
    if n == 0 then [] else AllIn(states, ops, n - 1) + BytesIn(states[n - 1], ops[n - 1])
  }

  /** The bytes that the first n calls of a run removed. */
  function AllOut(states: seq<Fifo>, ops: seq<Op>, n: nat): seq<Byte>
    requires n <= |ops| < |states|
  {
    if n == 0 then [] else AllOut(states, ops, n - 1) + BytesOut(states[n - 1], ops[n - 1])
  }

  /** The characters that the GetChar calls among the first n returned to their caller. */
  function CharsRead(ops: seq<Op>, obs: seq<Obs>, n: nat): seq<Byte>
    requires n <= |ops| == |obs|
  {
    if n == 0 then []
    else
      CharsRead(ops, obs, n - 1)
      + match (ops[n - 1], obs[n - 1])
        case (GetChar, Got(Ch(b))) => [b]
        case _ => []
  }

  lemma StepConservation(bound: int, f: Fifo, op: Op, obs: Obs, f': Fifo)
    requires FifoStep(bound, f, op, obs, f')
    ensures BytesOut(f, op) + f'.queue == f.queue + BytesIn(f, op)
  {
    match op
    case Consume(n) =>
      var k := Min(n as int, |f.queue|);
      assert f.queue[..k] + f.queue[k..] == f.queue;
    case GetChar =>
      if f.queue != [] {
        assert [f.queue[0]] + f.queue[1..] == f.queue;
      }
    case _ =>
  }

  /** Conservation and order at every moment of a run: what was taken out, followed by what is still
      queued, is what was queued at the start followed by what was put in. */
  lemma {:induction false} Conservation(bound: int, states: seq<Fifo>, ops: seq<Op>, obs: seq<Obs>, n: nat)
    requires FifoRun(bound, states, ops, obs) && n <= |ops|
    ensures AllOut(states, ops, n) + states[n].queue == states[0].queue + AllIn(states, ops, n)
  {
    if n == 0 {
      assert AllOut(states, ops, n) + states[0].queue == states[0].queue;
    } else {
      Conservation(bound, states, ops, obs, n - 1);
      var f, op, f' := states[n - 1], ops[n - 1], states[n];
      assert FifoStep(bound, f, op, obs[n - 1], f');
      StepConservation(bound, f, op, obs[n - 1], f');
      Regroup(AllOut(states, ops, n - 1), BytesOut(f, op), f'.queue, f.queue, BytesIn(f, op),
              states[0].queue, AllIn(states, ops, n - 1));
    }
  }

  lemma Regroup(out: seq<Byte>, dout: seq<Byte>, q': seq<Byte>, q: seq<Byte>, din: seq<Byte>, q0: seq<Byte>, into: seq<Byte>)
    requires dout + q' == q + din && out + q == q0 + into
    ensures (out + dout) + q' == q0 + (into + din)
  {
    assert (out + dout) + q' == out + (dout + q') == (out + q) + din == q0 + (into + din);
  }

  /** From an empty queue, what has been read is at every moment a prefix of what has been written,
      the rest of which is still queued and within the bound. */
  lemma ReadIsPrefixOfWritten(bound: nat, states: seq<Fifo>, ops: seq<Op>, obs: seq<Obs>, n: nat)
    requires FifoRun(bound, states, ops, obs) && n <= |ops| && states[0].queue == []
    ensures AllOut(states, ops, n) <= AllIn(states, ops, n)
    ensures |AllIn(states, ops, n)| == |AllOut(states, ops, n)| + |states[n].queue|
    ensures |states[n].queue| <= bound
  {
    Conservation(bound, states, ops, obs, n);
    assert states[0].queue + AllIn(states, ops, n) == AllIn(states, ops, n);
    if n > 0 {
      assert FifoStep(bound, states[n - 1], ops[n - 1], obs[n - 1], states[n]);
    }
  }

  /** When nothing is consumed wholesale, the characters returned by GetChar are exactly the bytes
      taken out, in order: end-of-file is never returned for a byte and no byte is skipped. */
  lemma {:induction false} CharsReadAreBytesOut(bound: int, states: seq<Fifo>, ops: seq<Op>, obs: seq<Obs>, n: nat)
    requires FifoRun(bound, states, ops, obs) && n <= |ops|
    requires forall i :: 0 <= i < n ==> !ops[i].Consume?
    ensures CharsRead(ops, obs, n) == AllOut(states, ops, n)
  {
    if n > 0 {
      CharsReadAreBytesOut(bound, states, ops, obs, n - 1);
      assert FifoStep(bound, states[n - 1], ops[n - 1], obs[n - 1], states[n]);
    }
  }
}
