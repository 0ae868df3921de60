/** timer/timer5.cpp: two timers that rearm themselves, whose handlers run on several threads and are
    serialised by a strand. */
module PrinterSpec {
  datatype Timer = T1 | T2

  /** One line of output: which timer printed which value. */
  datatype Entry = Entry(timer: Timer, value: int)

  /** The number of prints allowed (10 in the program) and the timers' period. */
  datatype Config = Config(bound: nat, period: int)

  /** A time for each of the two timers. */
  datatype Times = Times(t1: int, t2: int) {
    function Of(k: Timer): int {
      if k == T1 then t1 else t2
    }

    function Add(k: Timer, d: int): Times {
      if k == T1 then Times(t1 + d, t2) else Times(t1, t2 + d)
    }
  }

  /** Which of the two timers have an unfinished wait. */
  datatype Waits = Waits(t1: bool, t2: bool) {
    predicate Has(k: Timer) {
      if k == T1 then t1 else t2
    }

    function Set(k: Timer, on: bool): Waits {
      if k == T1 then Waits(on, t2) else Waits(t1, on)
    }
  }

  /** The printer between two handlers; pending has the timers with an unfinished wait. */
  datatype View = View(count: int, log: seq<Entry>, expiry: Times, pending: Waits)

  /** The body of print1 or print2 as one step, the wait that invoked it being finished. */
  function PrintBody(c: Config, v: View, k: Timer): View {
    if v.count < c.bound then
      View(v.count + 1, v.log + [Entry(k, v.count)], v.expiry.Add(k, c.period), v.pending.Set(k, true))
    else
      v.(pending := v.pending.Set(k, false))
  }

  /** The time at which the n-th wait (from 0) of a timer ends. */
  function Due(start: int, n: int, period: int): int {
    if n <= 0 then start else Due(start, n - 1, period) + period
  }

  lemma {:induction false} DueIsLinear(start: int, n: nat, period: int)
    ensures Due(start, n, period) == start + n * period
  {
    if n > 0 {
      DueIsLinear(start, n - 1, period);
      assert (n - 1) * period + period == n * period;
    }
  }

  /** How often timer k has printed. */
  function Prints(log: seq<Entry>, k: Timer): nat {
    if log == [] then 0
    else Prints(log[..|log| - 1], k) + if log[|log| - 1].timer == k then 1 else 0
  }

  /** What holds between handlers: the output counts up from 0 without gap or repetition, the counter is
      its length and within the bound, every timer stands at its start plus its own prints times the
      period, and a timer is given up only when the bound is reached. */
  ghost predicate Consistent(c: Config, start: Times, v: View) {
    && v.count == |v.log| <= c.bound
    && (forall i :: 0 <= i < |v.log| ==> v.log[i].value == i)
    && v.expiry.t1 == Due(start.t1, Prints(v.log, T1), c.period)
    && v.expiry.t2 == Due(start.t2, Prints(v.log, T2), c.period)
    && (!v.pending.t1 || !v.pending.t2 ==> v.count == c.bound)
  }

  lemma PrintBodyKeepsConsistent(c: Config, start: Times, v: View, k: Timer)
    requires Consistent(c, start, v) && v.pending.Has(k)
    ensures Consistent(c, start, PrintBody(c, v, k))
  {
    if v.count < c.bound {
      var log' := v.log + [Entry(k, v.count)];
      assert log'[..|log'| - 1] == v.log;
    }
  }

  lemma {:induction false} PrintsAddUp(log: seq<Entry>)
    ensures Prints(log, T1) + Prints(log, T2) == |log|
  {
    if log != [] {
      PrintsAddUp(log[..|log| - 1]);
    }
  }
}

/** The class printer as its strand presents it: one handler at a time. */
module PrinterProgram {
  import opened PrinterSpec

  class Printer {
    const config: Config
    ghost const start: Times

    var count: int
    var expiry1: int
    var expiry2: int
    var waiting1: bool
    var waiting2: bool
    var log: seq<Entry>

    ghost function Now(): View
      reads this
    {
      View(count, log, Times(expiry1, expiry2), Waits(waiting1, waiting2))
    }

    ghost predicate Valid()
      reads this
    {
      Consistent(config, start, Now())
    }

    constructor (c: Config, begin: int)
      ensures Valid() && config == c && start == Times(begin, begin)
      ensures waiting1 && waiting2 && log == [] && count == 0 && expiry1 == begin && expiry2 == begin
    {
      config, start := c, Times(begin, begin);
      count, log := 0, [];
      expiry1, expiry2 := begin, begin;
      waiting1, waiting2 := true, true;
    }

    method Print1()
      requires Valid() && waiting1
      modifies this
      ensures Valid() && Now() == PrintBody(config, old(Now()), T1)
      ensures if old(count) < config.bound then
                log == old(log) + [Entry(T1, old(count))] && count == old(count) + 1
                && expiry1 == old(expiry1) + config.period && waiting1
              else log == old(log) && count == old(count) && expiry1 == old(expiry1) && !waiting1
      ensures expiry2 == old(expiry2) && waiting2 == old(waiting2)
    {
      ghost var v := Now();
      waiting1 := false;
      if count < config.bound {
        log := log + [Entry(T1, count)];
        count := count + 1;
        expiry1 := expiry1 + config.period;
        waiting1 := true;
      }
      PrintBodyKeepsConsistent(config, start, v, T1);
      assert Now() == PrintBody(config, v, T1);
    }

    method Print2()
      requires Valid() && waiting2
      modifies this
      ensures Valid() && Now() == PrintBody(config, old(Now()), T2)
      ensures if old(count) < config.bound then
                log == old(log) + [Entry(T2, old(count))] && count == old(count) + 1
                && expiry2 == old(expiry2) + config.period && waiting2
              else log == old(log) && count == old(count) && expiry2 == old(expiry2) && !waiting2
      ensures expiry1 == old(expiry1) && waiting1 == old(waiting1)
    {
      ghost var v := Now();
      waiting2 := false;
      if count < config.bound {
        log := log + [Entry(T2, count)];
        count := count + 1;
        expiry2 := expiry2 + config.period;
        waiting2 := true;
      }
      PrintBodyKeepsConsistent(config, start, v, T2);
      assert Now() == PrintBody(config, v, T2);
    }
  }

  /** The whole program, whichever pending timer is served next: it ends, after exactly bound + 2
      invocations, with the bound as the final count and every value printed once and in order. */
  method Serve(c: Config, begin: int) returns (p: Printer, invocations: nat)
    ensures fresh(p) && p.Valid() && !p.waiting1 && !p.waiting2
    ensures p.count == c.bound && |p.log| == c.bound
    ensures forall i :: 0 <= i < c.bound ==> p.log[i].value == i
    ensures invocations == c.bound + 2
    ensures p.expiry1 == begin + Prints(p.log, T1) * c.period && p.expiry2 == begin + Prints(p.log, T2) * c.period
    ensures Prints(p.log, T1) + Prints(p.log, T2) == c.bound
  {
    p := new Printer(c, begin);
    invocations := 0;
    while p.waiting1 || p.waiting2
      invariant fresh(p) && p.Valid() && p.config == c && p.start == Times(begin, begin)
      invariant invocations == p.count + (if p.waiting1 then 0 else 1) + (if p.waiting2 then 0 else 1)
      decreases c.bound - p.count, p.waiting1, p.waiting2
    {
      var first: bool := *;
      if p.waiting1 && (first || !p.waiting2) {
        p.Print1();
      } else {
        p.Print2();
      }
      invocations := invocations + 1;
    }
    DueIsLinear(begin, Prints(p.log, T1), c.period);
    DueIsLinear(begin, Prints(p.log, T2), c.period);
    PrintsAddUp(p.log);
  }
}

/** The same program at the grain of single reads and writes, on any number of threads. */
module TwoTimersOnThreads {
  import opened AsioTypes
  import opened PrinterSpec

  /** Where a timer's handler is: its wait is unfinished, it is in the strand's queue, a thread executes
      it, or it returned without waiting again. */
  datatype Phase = Waiting | Queued | Running | Over

  /** The point that a thread has reached inside a handler. */
  datatype Pc = Test | Print | Load | Store | Rearm | Wait | Return

  /** A thread inside run(), with the register of the increment. */
  datatype Thread = Parked | At(timer: Timer, pc: Pc, register: int)

  datatype Phases = Phases(t1: Phase, t2: Phase) {
    function Of(k: Timer): Phase {
      if k == T1 then t1 else t2
    }

    function Set(k: Timer, p: Phase): Phases {
      if k == T1 then Phases(p, t2) else Phases(t1, p)
    }
  }

  datatype State = State(
    now: int,
    count: int,
    log: seq<Entry>,
    times: seq<int>,        // when each line of the log was printed
    expiry: Times,
    phases: Phases,
    queue: seq<Timer>,      // handlers posted to the strand
    threads: seq<Thread>,
    invocations: nat
  )

  datatype Event =
    | Tick(ticks: nat)      // time passes
    | Fire(k: Timer)        // a wait completes and its handler is posted to the strand
    | Take(thread: nat)     // a thread starts the first posted handler
    | Micro(thread: nat)    // a thread makes one step inside its handler

  function Init(start: Times, now: int, threads: nat): State {
    State(now, 0, [], [], start, Phases(Waiting, Waiting), [], seq(threads, _ => Parked), 0)
  }

  /** The strand lets a handler start only when no thread is inside one. */
  ghost predicate StrandFree(s: State) {
    forall t :: 0 <= t < |s.threads| ==> s.threads[t].Parked?
  }

  /** Whether an event can happen. The strand is a parameter, so that its absence can be studied. */
  ghost predicate Enabled(strand: bool, s: State, e: Event) {
    match e
    case Tick(_) => true
    case Fire(k) => s.phases.Of(k) == Waiting && s.expiry.Of(k) <= s.now
    case Take(t) => t < |s.threads| && s.threads[t].Parked? && s.queue != [] && (strand ==> StrandFree(s))
    case Micro(t) => t < |s.threads| && s.threads[t].At?
  }

  function MicroStep(c: Config, s: State, t: nat): State
    requires t < |s.threads| && s.threads[t].At?
  {
    var At(k, pc, r) := s.threads[t];
    var Goto := (next: Pc) => s.threads[t := At(k, next, r)];
    match pc
    case Test =>
      if s.count < c.bound then s.(threads := Goto(Print))
      else s.(threads := s.threads[t := Parked], phases := s.phases.Set(k, Over))
    case Print => s.(log := s.log + [Entry(k, s.count)], times := s.times + [s.now], threads := Goto(Load))
    case Load => s.(threads := s.threads[t := At(k, Store, s.count)])
    case Store => s.(count := r + 1, threads := Goto(Rearm))
    case Rearm => s.(expiry := s.expiry.Add(k, c.period), threads := Goto(Wait))
    case Wait => s.(phases := s.phases.Set(k, Waiting), threads := Goto(Return))
    case Return => s.(threads := s.threads[t := Parked])
  }

  function Next(c: Config, s: State, e: Event): State
    requires e.Take? ==> e.thread < |s.threads| && s.queue != []
    requires e.Micro? ==> e.thread < |s.threads| && s.threads[e.thread].At?
  {
    match e
    case Tick(d) => s.(now := s.now + d)
    case Fire(k) => s.(phases := s.phases.Set(k, Queued), queue := s.queue + [k])
    case Take(t) =>
      s.(queue := s.queue[1..], phases := s.phases.Set(s.queue[0], Running),
         threads := s.threads[t := At(s.queue[0], Test, 0)], invocations := s.invocations + 1)
    case Micro(t) => MicroStep(c, s, t)
  }

  /** A run of the program under some schedule: one state more than events. */
  ghost predicate IsRun(c: Config, strand: bool, states: seq<State>, events: seq<Event>) {
    && |states| == |events| + 1
    && forall i {:trigger events[i]} :: 0 <= i < |events| ==>
         Enabled(strand, states[i], events[i]) && states[i + 1] == Next(c, states[i], events[i])
  }

  // --- Safety ---

  /** What the thread inside the strand is doing, if the strand is held. */
  function Current(s: State, holder: Option<nat>): Thread
    requires holder.Some? ==> holder.value < |s.threads|
  {
    if holder.Some? then s.threads[holder.value] else Parked
  }

  /** The handler has not printed yet. */
  predicate BeforePrint(cur: Thread) {
    cur.At? && (cur.pc.Test? || cur.pc.Print?)
  }

  /** The handler has printed a value that the counter does not include yet. */
  predicate Uncounted(cur: Thread) {
    cur.At? && (cur.pc.Load? || cur.pc.Store?)
  }

  /** The handler has printed, but its timer has not been moved on yet. */
  predicate Unmoved(cur: Thread) {
    Uncounted(cur) || (cur.At? && cur.pc.Rearm?)
  }

  predicate AfterPrint(cur: Thread) {
    Unmoved(cur) || (cur.At? && cur.pc.Wait?)
  }

  function One(b: bool): nat {
    if b then 1 else 0
  }

  /** Mutual exclusion: only the holder is inside a handler. */
  ghost predicate Exclusive(s: State, holder: Option<nat>) {
    && (holder.Some? ==> holder.value < |s.threads| && s.threads[holder.value].At?)
    && (forall t :: 0 <= t < |s.threads| && holder != Some(t) ==> s.threads[t].Parked?)
  }

  /** The output and the counter. Between the print and the store of a handler, the counter is one
      behind the output. */
  ghost predicate CountingIs(c: Config, s: State, cur: Thread) {
    && (forall i :: 0 <= i < |s.log| ==> s.log[i].value == i)
    && s.count == |s.log| - One(Uncounted(cur))
    && s.count <= c.bound
    && (Uncounted(cur) || (cur.At? && cur.pc.Print?) ==> s.count < c.bound)
    && (AfterPrint(cur) ==> s.log != [] && s.log[|s.log| - 1].timer == cur.timer)
    && (cur.At? && cur.pc.Store? ==> cur.register == s.count)
    && s.invocations == |s.log| + One(s.phases.t1 == Over) + One(s.phases.t2 == Over) + One(BeforePrint(cur))
  }

  /** The strand's queue holds no handler twice. */
  ghost predicate QueueIs(s: State) {
    forall i, j :: 0 <= i < j < |s.queue| ==> s.queue[i] != s.queue[j]
  }

  /** One timer: where its handler is, and when its wait ends. */
  ghost predicate TimerIs(c: Config, start: Times, s: State, cur: Thread, k: Timer) {
    var here := cur.At? && cur.timer == k;
    var phase := s.phases.Of(k);
    && (phase == Running <==> here && !cur.pc.Return?)
    && (here && cur.pc.Return? ==> phase == Waiting || phase == Queued)
    && (k in s.queue <==> phase == Queued)
    && (phase == Over ==> s.count == c.bound)
    && s.expiry.Of(k) == Due(start.Of(k), Prints(s.log, k) - One(here && Unmoved(cur)), c.period)
    && (phase == Queued || (here && BeforePrint(cur)) ==> s.expiry.Of(k) <= s.now)
  }

  /** The i-th line was printed when the wait of its timer had ended, and not before. */
  ghost predicate PunctualAt(c: Config, start: Times, s: State, i: nat)
    requires i < |s.log| == |s.times|
  {
    var k := s.log[i].timer;
    Due(start.Of(k), Prints(s.log[..i], k), c.period) <= s.times[i] <= s.now
  }

  ghost predicate Punctual(c: Config, start: Times, s: State) {
    |s.times| == |s.log| && forall i :: 0 <= i < |s.log| ==> PunctualAt(c, start, s, i)
  }

  ghost predicate Inv(c: Config, start: Times, s: State, holder: Option<nat>) {
    && Exclusive(s, holder)
    && QueueIs(s)
    && Punctual(c, start, s)
    && var cur := Current(s, holder);
       CountingIs(c, s, cur) && TimerIs(c, start, s, cur, T1) && TimerIs(c, start, s, cur, T2)
  }

  /** Who holds the strand after an event that led to s'. */
  function HolderAfter(s': State, holder: Option<nat>, e: Event): Option<nat> {
    match e
    case Take(t) => Some(t)
    case Micro(t) => if t < |s'.threads| && s'.threads[t].At? then holder else None
    case _ => holder
  }

  lemma TickKeepsInv(c: Config, start: Times, s: State, holder: Option<nat>, d: nat)
    requires Inv(c, start, s, holder)
    ensures Inv(c, start, Next(c, s, Tick(d)), holder)
  {
    var s' := Next(c, s, Tick(d));
    assert forall i :: 0 <= i < |s.log| ==> PunctualAt(c, start, s, i) ==> PunctualAt(c, start, s', i);
  }

  lemma FireKeepsTimer(c: Config, start: Times, s: State, cur: Thread, fired: Timer, k: Timer)
    requires Enabled(true, s, Fire(fired)) && TimerIs(c, start, s, cur, k)
    ensures TimerIs(c, start, Next(c, s, Fire(fired)), cur, k)
  {
    assert Next(c, s, Fire(fired)).phases.Of(k) == if k == fired then Queued else s.phases.Of(k);
  }

  lemma FireKeepsInv(c: Config, start: Times, s: State, holder: Option<nat>, k: Timer)
    requires Inv(c, start, s, holder) && Enabled(true, s, Fire(k))
    ensures Inv(c, start, Next(c, s, Fire(k)), holder)
  {
    var s' := Next(c, s, Fire(k));
    FireKeepsTimer(c, start, s, Current(s, holder), k, T1);
    FireKeepsTimer(c, start, s, Current(s, holder), k, T2);
    assert k == T1 || k == T2;
    assert k !in s.queue;
    assert forall i :: 0 <= i < |s.log| ==> PunctualAt(c, start, s, i) ==> PunctualAt(c, start, s', i);
  }

  lemma TakeKeepsTimer(c: Config, start: Times, s: State, t: nat, k: Timer)
    requires t < |s.threads| && s.queue != [] && QueueIs(s)
    requires TimerIs(c, start, s, Parked, k) && TimerIs(c, start, s, Parked, s.queue[0])
    ensures var s' := Next(c, s, Take(t)); TimerIs(c, start, s', s'.threads[t], k)
  {
    var s' := Next(c, s, Take(t));
    assert s.queue == [s.queue[0]] + s'.queue;
    assert k in s'.queue <==> k in s.queue && k != s.queue[0];
    assert s'.phases.Of(k) == if k == s.queue[0] then Running else s.phases.Of(k);
  }

  lemma TakeKeepsInv(c: Config, start: Times, s: State, holder: Option<nat>, t: nat)
    requires Inv(c, start, s, holder) && Enabled(true, s, Take(t))
    ensures Inv(c, start, Next(c, s, Take(t)), Some(t))
  {
    assert holder == None;
    var s' := Next(c, s, Take(t));
    assert s.queue[0] == T1 || s.queue[0] == T2;
    assert s.phases.Of(s.queue[0]) == Queued;
    TakeKeepsTimer(c, start, s, t, T1);
    TakeKeepsTimer(c, start, s, t, T2);
    assert forall i :: 0 <= i < |s.log| ==> PunctualAt(c, start, s, i) ==> PunctualAt(c, start, s', i);
  }

  lemma MicroKeepsExclusive(c: Config, s: State, t: nat)
    requires Exclusive(s, Some(t))
    ensures var s' := MicroStep(c, s, t); Exclusive(s', HolderAfter(s', Some(t), Micro(t)))
  {
  }

  /** A step inside a handler keeps the counter exact: load, increment and store are never torn apart
      by another handler. */
  lemma MicroKeepsCounting(c: Config, start: Times, s: State, t: nat)
    requires Exclusive(s, Some(t)) && CountingIs(c, s, s.threads[t])
    requires TimerIs(c, start, s, s.threads[t], s.threads[t].timer)
    ensures var s' := MicroStep(c, s, t); CountingIs(c, s', s'.threads[t])
  {
  }

  /** The timer whose handler runs: while it prints, counts and moves its expiry. */
  lemma BodyKeepsOwnTimer(c: Config, start: Times, s: State, t: nat)
    requires Inv(c, start, s, Some(t))
    requires !s.threads[t].pc.Test? && !s.threads[t].pc.Wait? && !s.threads[t].pc.Return?
    ensures var s' := MicroStep(c, s, t); TimerIs(c, start, s', s'.threads[t], s.threads[t].timer)
  {
    var s', k := MicroStep(c, s, t), s.threads[t].timer;
    assert TimerIs(c, start, s, s.threads[t], k);
    if s.threads[t].pc == Print {
      assert s'.log[..|s'.log| - 1] == s.log;
      assert Prints(s'.log, k) == Prints(s.log, k) + 1;
    } else if s.threads[t].pc == Rearm {
      assert 0 < Prints(s.log, k);
    }
  }

  /** The same timer, when its handler decides whether to print, waits again or returns. */
  lemma EndsKeepOwnTimer(c: Config, start: Times, s: State, t: nat)
    requires Inv(c, start, s, Some(t))
    requires s.threads[t].pc.Test? || s.threads[t].pc.Wait? || s.threads[t].pc.Return?
    ensures var s' := MicroStep(c, s, t); TimerIs(c, start, s', s'.threads[t], s.threads[t].timer)
  {
    assert TimerIs(c, start, s, s.threads[t], s.threads[t].timer);
  }

  lemma MicroKeepsOtherTimer(c: Config, start: Times, s: State, t: nat, k: Timer)
    requires Inv(c, start, s, Some(t)) && k != s.threads[t].timer
    ensures var s' := MicroStep(c, s, t); TimerIs(c, start, s', s'.threads[t], k)
  {
    var s' := MicroStep(c, s, t);
    assert k == T1 || k == T2;
    assert TimerIs(c, start, s, s.threads[t], k);
    assert s'.phases.Of(k) == s.phases.Of(k) && s'.expiry.Of(k) == s.expiry.Of(k);
    if s.threads[t].pc == Print {
      assert s'.log[..|s'.log| - 1] == s.log;
      assert Prints(s'.log, k) == Prints(s.log, k);
    }
  }

  lemma MicroKeepsPunctual(c: Config, start: Times, s: State, t: nat)
    requires Inv(c, start, s, Some(t))
    ensures Punctual(c, start, MicroStep(c, s, t))
  {
    var s', own := MicroStep(c, s, t), s.threads[t].timer;
    assert TimerIs(c, start, s, s.threads[t], own);
    forall i | 0 <= i < |s.log|
      ensures PunctualAt(c, start, s', i)
    {
      assert PunctualAt(c, start, s, i) && s'.log[..i] == s.log[..i];
    }
    if s.threads[t].pc == Print {
      assert s'.log[..|s.log|] == s.log;
      assert PunctualAt(c, start, s', |s.log|);
    }
  }

  lemma MicroKeepsInv(c: Config, start: Times, s: State, t: nat)
    requires Inv(c, start, s, Some(t))
    ensures var s' := MicroStep(c, s, t); Inv(c, start, s', HolderAfter(s', Some(t), Micro(t)))
  {
    var s', own := MicroStep(c, s, t), s.threads[t].timer;
    var other := if own == T1 then T2 else T1;
    MicroKeepsExclusive(c, s, t);
    MicroKeepsCounting(c, start, s, t);
    if s.threads[t].pc.Test? || s.threads[t].pc.Wait? || s.threads[t].pc.Return? {
      EndsKeepOwnTimer(c, start, s, t);
    } else {
      BodyKeepsOwnTimer(c, start, s, t);
    }
    MicroKeepsOtherTimer(c, start, s, t, other);
    MicroKeepsPunctual(c, start, s, t);
    assert s'.queue == s.queue;
    assert TimerIs(c, start, s', s'.threads[t], T1) && TimerIs(c, start, s', s'.threads[t], T2);
    assert Current(s', HolderAfter(s', Some(t), Micro(t))) == s'.threads[t];
  }

  /** Every event that the strand admits keeps the invariant. */
  lemma StepKeepsInv(c: Config, start: Times, s: State, holder: Option<nat>, e: Event)
    requires Inv(c, start, s, holder) && Enabled(true, s, e)
    ensures var s' := Next(c, s, e); Inv(c, start, s', HolderAfter(s', holder, e))
  {
    if e.Tick? {
      TickKeepsInv(c, start, s, holder, e.ticks);
    } else if e.Fire? {
      FireKeepsInv(c, start, s, holder, e.k);
    } else if e.Take? {
      TakeKeepsInv(c, start, s, holder, e.thread);
    } else {
      assert holder == Some(e.thread);
      MicroKeepsInv(c, start, s, e.thread);
    }
  }

  /** The holders along a run. */
  function Holder(states: seq<State>, events: seq<Event>, n: nat): Option<nat>
    requires n <= |events| < |states|
  {
    if n == 0 then None else HolderAfter(states[n], Holder(states, events, n - 1), events[n - 1])
  }

  /** Safety of every run, under every schedule of any number of threads: the output counts up from 0
      without gap or repetition and never exceeds the bound, the counter agrees with it whenever no
      handler is running, every line was printed after its timer's wait, and every expiry is the start
      plus the timer's own prints times the period. */
  lemma {:induction false} EveryRunIsSafe(c: Config, start: Times, now: int, threads: nat, states: seq<State>, events: seq<Event>, n: nat)
    requires IsRun(c, true, states, events) && n <= |events|
    requires states[0] == Init(start, now, threads)
    ensures Inv(c, start, states[n], Holder(states, events, n))
    ensures |states[n].log| <= c.bound
    ensures forall i :: 0 <= i < |states[n].log| ==> states[n].log[i].value == i
  {
    if n == 0 {
    } else {
      EveryRunIsSafe(c, start, now, threads, states, events, n - 1);
      assert Enabled(true, states[n - 1], events[n - 1]);
      StepKeepsInv(c, start, states[n - 1], Holder(states, events, n - 1), events[n - 1]);
    }
  }

  // --- Refinement ---

  /** The printer as if the handler in progress had not begun. */
  ghost function Abs(c: Config, s: State, holder: Option<nat>): View
    requires holder.Some? ==> holder.value < |s.threads|
  {
    var cur := Current(s, holder);
    var log := if AfterPrint(cur) && s.log != [] then s.log[..|s.log| - 1] else s.log;
    View(|log|, log,
         if cur.At? && cur.pc.Wait? then s.expiry.Add(cur.timer, -c.period) else s.expiry,
         Waits(s.phases.t1 != Over, s.phases.t2 != Over))
  }

  /** Under the strand, the handlers might as well be atomic: each event either leaves the abstract
      printer as it is or is the completion of one whole handler body. */
  lemma HandlersAreAtomic(c: Config, start: Times, s: State, holder: Option<nat>, e: Event)
    requires Inv(c, start, s, holder) && Enabled(true, s, e)
    ensures Inv(c, start, Next(c, s, e), HolderAfter(Next(c, s, e), holder, e))
    ensures var v, v' := Abs(c, s, holder), Abs(c, Next(c, s, e), HolderAfter(Next(c, s, e), holder, e));
            v' == v || exists k :: v.pending.Has(k) && v' == PrintBody(c, v, k)
  {
    StepKeepsInv(c, start, s, holder, e);
    if e.Take? {
      assert holder == None;
    } else if e.Micro? {
      assert holder == Some(e.thread);
      BodyEndsAtomically(c, start, s, e.thread);
    }
  }

  /** The step that makes the new wait pending is where the whole body takes effect. */
  lemma WaitCompletesBody(c: Config, s: State, t: nat)
    requires Exclusive(s, Some(t)) && CountingIs(c, s, s.threads[t])
    requires s.threads[t].pc == Wait && s.phases.Of(s.threads[t].timer) == Running
    ensures Abs(c, MicroStep(c, s, t), Some(t)) == PrintBody(c, Abs(c, s, Some(t)), s.threads[t].timer)
  {
    var k := s.threads[t].timer;
    LastEntrySplits(s.log, k);
  }

  lemma BodyEndsAtomically(c: Config, start: Times, s: State, t: nat)
    requires Inv(c, start, s, Some(t))
    ensures var s' := MicroStep(c, s, t);
            var v, v' := Abs(c, s, Some(t)), Abs(c, s', HolderAfter(s', Some(t), Micro(t)));
            var k := s.threads[t].timer;
            if s.threads[t].pc == Wait || (s.threads[t].pc == Test && s.count == c.bound)
            then v.pending.Has(k) && v' == PrintBody(c, v, k)
            else v' == v
  {
    var cur := s.threads[t];
    assert TimerIs(c, start, s, cur, cur.timer);
    if cur.pc == Wait {
      WaitCompletesBody(c, s, t);
    } else if cur.pc == Test {
      TestAloneIsSilent(c, s, t);
    } else if cur.pc == Print {
      PrintIsInvisible(c, s, t);
    } else if cur.pc == Return {
      ReturnIsInvisible(c, s, t);
    } else {
      CountIsInvisible(c, s, t);
    }
  }

  lemma PrintIsInvisible(c: Config, s: State, t: nat)
    requires Exclusive(s, Some(t)) && CountingIs(c, s, s.threads[t])
    requires s.threads[t].pc.Print?
    ensures Abs(c, MicroStep(c, s, t), Some(t)) == Abs(c, s, Some(t))
  {
    var s' := MicroStep(c, s, t);
    assert s'.log[..|s'.log| - 1] == s.log;
  }

  lemma CountIsInvisible(c: Config, s: State, t: nat)
    requires Exclusive(s, Some(t)) && CountingIs(c, s, s.threads[t])
    requires s.threads[t].pc.Load? || s.threads[t].pc.Store? || s.threads[t].pc.Rearm?
    ensures Abs(c, MicroStep(c, s, t), Some(t)) == Abs(c, s, Some(t))
  {
  }

  lemma ReturnIsInvisible(c: Config, s: State, t: nat)
    requires Exclusive(s, Some(t)) && s.threads[t].pc.Return?
    ensures Abs(c, MicroStep(c, s, t), None) == Abs(c, s, Some(t))
  {
  }

  lemma TestAloneIsSilent(c: Config, s: State, t: nat)
    requires Exclusive(s, Some(t)) && CountingIs(c, s, s.threads[t])
    requires s.threads[t].pc == Test && s.phases.Of(s.threads[t].timer) == Running
    ensures var s' := MicroStep(c, s, t);
            var v, v' := Abs(c, s, Some(t)), Abs(c, s', HolderAfter(s', Some(t), Micro(t)));
            v' == if s.count == c.bound then PrintBody(c, v, s.threads[t].timer) else v
  {
  }

  lemma LastEntrySplits(log: seq<Entry>, k: Timer)
    requires log != [] && log[|log| - 1] == Entry(k, |log| - 1)
    ensures log == log[..|log| - 1] + [Entry(k, |log| - 1)]
  {
  }

  /** The printer after whole handler bodies, one after the other, each of a timer that was pending. */
  ghost predicate ReachedBy(c: Config, v: View, bodies: seq<Timer>, v': View) {
    if bodies == [] then v' == v
    else
      var last := |bodies| - 1;
      exists u :: ReachedBy(c, v, bodies[..last], u) && u.pending.Has(bodies[last]) && v' == PrintBody(c, u, bodies[last])
  }

  lemma OneMoreBody(c: Config, v0: View, bodies: seq<Timer>, v: View, v': View) returns (bodies': seq<Timer>)
    requires ReachedBy(c, v0, bodies, v)
    requires exists k :: v.pending.Has(k) && v' == PrintBody(c, v, k)
    ensures ReachedBy(c, v0, bodies', v')
  {
    var k :| v.pending.Has(k) && v' == PrintBody(c, v, k);
    bodies' := bodies + [k];
    assert bodies'[..|bodies|] == bodies;
  }

  /** So every interleaving has the effect of running whole handlers one after the other, in some order. */
  lemma {:induction false} EveryRunIsSequential(c: Config, start: Times, now: int, threads: nat, states: seq<State>, events: seq<Event>, n: nat)
    returns (bodies: seq<Timer>)
    requires IsRun(c, true, states, events) && n <= |events|
    requires states[0] == Init(start, now, threads)
    ensures Inv(c, start, states[n], Holder(states, events, n))
    ensures ReachedBy(c, View(0, [], start, Waits(true, true)), bodies, Abs(c, states[n], Holder(states, events, n)))
  {
    bodies := [];
    EveryRunIsSafe(c, start, now, threads, states, events, n);
    if n > 0 {
      bodies := EveryRunIsSequential(c, start, now, threads, states, events, n - 1);
      var holder := Holder(states, events, n - 1);
      assert Enabled(true, states[n - 1], events[n - 1]);
      HandlersAreAtomic(c, start, states[n - 1], holder, events[n - 1]);
      var v, v' := Abs(c, states[n - 1], holder), Abs(c, states[n], Holder(states, events, n));
      if v' != v {
        bodies := OneMoreBody(c, View(0, [], start, Waits(true, true)), bodies, v, v');
      }
    }
  }

  // --- Termination ---

  /** How many events of a handler with the strand are over (they count against the invocation that is
      still to be paid for) or, after the print, still to come. */
  function Progress(cur: Thread): int {
    if cur.Parked? then 0
    else match cur.pc
      case Test => -2
      case Print => -3
      case Load => 5
      case Store => 4
      case Rearm => 3
      case Wait => 2
      case Return => 1
  }

  /** The exact number of events, other than the passing of time, that are left: nine for every print to
      come, and three for the last, silent invocation of each timer. */
  function Remaining(c: Config, s: State, cur: Thread): int {
    9 * (c.bound - |s.log|)
    + 3 * (One(s.phases.t1 != Over) + One(s.phases.t2 != Over))
    - One(s.phases.t1 == Queued) - One(s.phases.t2 == Queued)
    + Progress(cur)
  }

  /** Both calls of run() return when no wait is unfinished, nothing is posted and no handler runs. */
  ghost predicate Finished(s: State) {
    s.phases == Phases(Over, Over) && s.queue == [] && StrandFree(s)
  }

  lemma MicroUsesOneEvent(c: Config, start: Times, s: State, t: nat)
    requires Inv(c, start, s, Some(t))
    ensures var s' := MicroStep(c, s, t);
            Remaining(c, s', s'.threads[t]) == Remaining(c, s, s.threads[t]) - 1
  {
    assert TimerIs(c, start, s, s.threads[t], s.threads[t].timer);
  }

  /** Every event other than Tick uses up exactly one of the remaining events. */
  lemma StepUsesOneEvent(c: Config, start: Times, s: State, holder: Option<nat>, e: Event)
    requires Inv(c, start, s, holder) && Enabled(true, s, e)
    ensures var s' := Next(c, s, e);
            var holder' := HolderAfter(s', holder, e);
            Inv(c, start, s', holder')
            && Remaining(c, s', Current(s', holder'))
               == Remaining(c, s, Current(s, holder)) - (if e.Tick? then 0 else 1)
  {
    StepKeepsInv(c, start, s, holder, e);
    if e.Micro? {
      assert holder == Some(e.thread);
      MicroUsesOneEvent(c, start, s, e.thread);
    } else if e.Take? {
      assert s.queue[0] == T1 || s.queue[0] == T2;
      assert s.queue[0] in s.queue;
      assert TimerIs(c, start, s, Parked, s.queue[0]);
    } else if e.Fire? {
      assert e.k == T1 || e.k == T2;
    }
  }

  lemma RemainingIsNat(c: Config, start: Times, s: State, holder: Option<nat>)
    requires Inv(c, start, s, holder)
    ensures Remaining(c, s, Current(s, holder)) >= 0
    ensures Remaining(c, s, Current(s, holder)) == 0 <==> Finished(s)
  {
    var cur := Current(s, holder);
    assert TimerIs(c, start, s, cur, T1) && TimerIs(c, start, s, cur, T2);
    if cur.At? {
      assert cur.timer == T1 || cur.timer == T2;
    } else if s.queue != [] {
      assert s.queue[0] in s.queue && (s.queue[0] == T1 || s.queue[0] == T2);
    }
    if holder.Some? {
      assert s.threads[holder.value].At?;
    }
  }

  /** The number of events other than Tick among the first n. */
  function Work(events: seq<Event>, n: nat): nat
    requires n <= |events|
  {
    if n == 0 then 0 else Work(events, n - 1) + One(!events[n - 1].Tick?)
  }

  /** No schedule runs for more than 9 * bound + 6 events; a run has finished exactly when it has used
      them all. */
  lemma {:induction false} EveryRunIsBounded(c: Config, start: Times, now: int, threads: nat, states: seq<State>, events: seq<Event>, n: nat)
    requires IsRun(c, true, states, events) && n <= |events|
    requires states[0] == Init(start, now, threads)
    ensures Inv(c, start, states[n], Holder(states, events, n))
    ensures Work(events, n) + Remaining(c, states[n], Current(states[n], Holder(states, events, n))) == 9 * c.bound + 6
    ensures Work(events, n) <= 9 * c.bound + 6
    ensures Work(events, n) == 9 * c.bound + 6 <==> Finished(states[n])
  {
    EveryRunIsSafe(c, start, now, threads, states, events, n);
    RemainingIsNat(c, start, states[n], Holder(states, events, n));
    if n > 0 {
      EveryRunIsBounded(c, start, now, threads, states, events, n - 1);
      assert Enabled(true, states[n - 1], events[n - 1]);
      StepUsesOneEvent(c, start, states[n - 1], Holder(states, events, n - 1), events[n - 1]);
    }
  }

  /** Every finished run has printed 0 .. bound - 1, ends with the bound as the count, has invoked
      handlers exactly bound + 2 times, and leaves each timer at its start plus a period for each of its
      own prints; the two timers share the prints between them. */
  lemma FinishedRunsAgree(c: Config, start: Times, now: int, threads: nat, states: seq<State>, events: seq<Event>)
    requires IsRun(c, true, states, events) && states[0] == Init(start, now, threads)
    requires Finished(states[|events|])
    ensures var s := states[|events|];
            s.count == |s.log| == c.bound && s.invocations == c.bound + 2
            && (forall i :: 0 <= i < c.bound ==> s.log[i].value == i)
            && s.expiry.t1 == start.t1 + Prints(s.log, T1) * c.period
            && s.expiry.t2 == start.t2 + Prints(s.log, T2) * c.period
            && Prints(s.log, T1) + Prints(s.log, T2) == c.bound
  {
    EveryRunIsSafe(c, start, now, threads, states, events, |events|);
    var s, holder := states[|events|], Holder(states, events, |events|);
    assert holder == None;
    assert TimerIs(c, start, s, Parked, T1) && TimerIs(c, start, s, Parked, T2);
    DueIsLinear(start.t1, Prints(s.log, T1), c.period);
    DueIsLinear(start.t2, Prints(s.log, T2), c.period);
    PrintsAddUp(s.log);
  }

  /** The program never deadlocks: while it has not finished, with at least one thread, some event other
      than Tick is possible, after time has passed if need be. */
  lemma NeverStuck(c: Config, start: Times, s: State, holder: Option<nat>) returns (wait: nat, e: Event)
    requires Inv(c, start, s, holder) && |s.threads| > 0 && !Finished(s)
    ensures !e.Tick? && Enabled(true, Next(c, s, Tick(wait)), e)
  {
    wait := 0;
    var cur := Current(s, holder);
    assert TimerIs(c, start, s, cur, T1) && TimerIs(c, start, s, cur, T2);
    if holder.Some? {
      e := Micro(holder.value);
    } else if s.queue != [] {
      e := Take(0);
      assert StrandFree(s);
    } else {
      assert T1 !in s.queue && T2 !in s.queue && StrandFree(s);
      var k := if s.phases.t1 == Waiting then T1 else T2;
      assert s.phases.Of(k) == Waiting;
      if s.expiry.Of(k) > s.now {
        wait := s.expiry.Of(k) - s.now;
      }
      e := Fire(k);
    }
  }

  // --- Without the strand ---

  lemma RunsCompose(c: Config, strand: bool, states: seq<State>, events: seq<Event>, states': seq<State>, events': seq<Event>)
    requires IsRun(c, strand, states, events) && IsRun(c, strand, states', events')
    requires states'[0] == states[|events|]
    ensures IsRun(c, strand, states + states'[1..], events + events')
  {
    var all := states + states'[1..];
    forall i {:trigger (events + events')[i]} | 0 <= i < |events + events'|
      ensures Enabled(strand, all[i], (events + events')[i]) && all[i + 1] == Next(c, all[i], (events + events')[i])
    {
      if i < |events| {
        assert Enabled(strand, states[i], events[i]) && states[i + 1] == Next(c, states[i], events[i]);
      } else {
        var j := i - |events|;
        assert all[i] == states'[j] && all[i + 1] == states'[j + 1];
        assert Enabled(strand, states'[j], events'[j]) && states'[j + 1] == Next(c, states'[j], events'[j]);
      }
    }
  }

  /** Without the strand, both handlers can be inside their bodies at once. */
  lemma BothInside(c: Config, start: Times, now: int) returns (states: seq<State>, events: seq<Event>)
    requires c.bound > 0 && start.t1 <= now && start.t2 <= now
    ensures IsRun(c, false, states, events) && states[0] == Init(start, now, 2)
    ensures var s := states[|events|];
            s.threads == [At(T1, Print, 0), At(T2, Print, 0)] && s.count == 0 && s.log == []
  {
    var s0 := Init(start, now, 2);
    var s1 := Next(c, s0, Fire(T1));
    var s2 := Next(c, s1, Fire(T2));
    assert s2.queue == [T1, T2];
    var s3 := Next(c, s2, Take(0));
    assert s3.queue == [T2] && s3.threads == [At(T1, Test, 0), Parked];
    var s4 := Next(c, s3, Take(1));
    assert s4.threads == [At(T1, Test, 0), At(T2, Test, 0)];
    var s5 := Next(c, s4, Micro(0));
    var s6 := Next(c, s5, Micro(1));
    states := [s0, s1, s2, s3, s4, s5, s6];
    events := [Fire(T1), Fire(T2), Take(0), Take(1), Micro(0), Micro(1)];
  }

  /** From there, step by step in turns, both print the same value and one increment is lost. */
  lemma BothPrint(c: Config, s: State) returns (states: seq<State>, events: seq<Event>)
    requires s.threads == [At(T1, Print, 0), At(T2, Print, 0)] && s.log == []
    ensures IsRun(c, false, states, events) && states[0] == s
    ensures states[|events|].log == [Entry(T1, s.count), Entry(T2, s.count)] && states[|events|].count == s.count + 1
  {
    var s1 := Next(c, s, Micro(0));
    var s2 := Next(c, s1, Micro(1));
    assert s2.threads == [At(T1, Load, 0), At(T2, Load, 0)];
    var s3 := Next(c, s2, Micro(0));
    var s4 := Next(c, s3, Micro(1));
    assert s4.threads == [At(T1, Store, s.count), At(T2, Store, s.count)];
    var s5 := Next(c, s4, Micro(0));
    var s6 := Next(c, s5, Micro(1));
    states := [s, s1, s2, s3, s4, s5, s6];
    events := [Micro(0), Micro(1), Micro(0), Micro(1), Micro(0), Micro(1)];
  }

  /** The strand is needed: without it, two threads can print the same value twice and lose one of the
      increments, for every bound above 0. */
  lemma WithoutStrandPrintsTwice(c: Config, start: Times, now: int) returns (states: seq<State>, events: seq<Event>)
    requires c.bound > 0 && start.t1 <= now && start.t2 <= now
    ensures IsRun(c, false, states, events) && states[0] == Init(start, now, 2)
    ensures states[|events|].log == [Entry(T1, 0), Entry(T2, 0)] && states[|events|].count == 1
  {
    var states1, events1 := BothInside(c, start, now);
    var states2, events2 := BothPrint(c, states1[|events1|]);
    RunsCompose(c, false, states1, events1, states2, events2);
    states, events := states1 + states2[1..], events1 + events2;
  }
}
