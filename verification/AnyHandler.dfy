/** any_completion_handler: type-erased ownership of completion handlers. */
module HandlerStorage {
  import opened AsioTypes

  type TypeId = nat

  /** A completion handler: its type and its identity. */
  datatype Handler = Handler(typeId: TypeId, value: nat)

  /** What happens to the storage of one any_completion_handler_impl. */
  datatype Event =
    | Allocated(id: nat)
    | Constructed(id: nat, handler: Handler)
    | MovedOut(id: nat)
    | Destroyed(id: nat)
    | Freed(id: nat)
    | Invoked(id: nat, handler: Handler, args: nat)

  /** The events about one piece of storage, in order. */
  function Trace(log: seq<Event>, id: nat): seq<Event> {
    if log == [] then []
    else
      var n := |log| - 1;
      Trace(log[..n], id) + if log[n].id == id then [log[n]] else []
  }

  lemma TraceOfAppend(log: seq<Event>, e: Event, id: nat)
    ensures Trace(log + [e], id) == Trace(log, id) + if e.id == id then [e] else []
  {
    assert (log + [e])[..|log|] == log;
  }

  lemma {:induction false} TraceOfConcat(log: seq<Event>, more: seq<Event>, id: nat)
    ensures Trace(log + more, id) == Trace(log, id) + Trace(more, id)
  {
    if more == [] {
      assert log + more == log;
    } else {
      var n := |more| - 1;
      assert log + more == (log + more[..n]) + [more[n]];
      TraceOfAppend(log + more[..n], more[n], id);
      TraceOfConcat(log, more[..n], id);
    }
  }

  /** The life of storage that is in use. */
  predicate Alive(life: seq<Event>, id: nat, h: Handler) {
    life == [Allocated(id), Constructed(id, h)]
  }

  /** The only lives that storage can have had: its construction threw; it was destroyed; or its handler
      was moved out and, after the storage had been destroyed and freed, invoked. */
  predicate Complete(life: seq<Event>, id: nat) {
    || life == [Allocated(id), Freed(id)]
    || (|life| == 4 && life[1].Constructed? && Alive(life[..2], id, life[1].handler) && life[2..] == [Destroyed(id), Freed(id)])
    || (|life| == 6 && life[1].Constructed? && Alive(life[..2], id, life[1].handler)
        && life[2..5] == [MovedOut(id), Destroyed(id), Freed(id)]
        && life[5].Invoked? && life[5].id == id && life[5].handler == life[1].handler)
  }

  datatype What = Construction | Destruction | Release | Invocation

  predicate Is(e: Event, what: What) {
    match what
    case Construction => e.Constructed?
    case Destruction => e.Destroyed?
    case Release => e.Freed?
    case Invocation => e.Invoked?
  }

  /** How often something happened to one piece of storage. */
  function Count(log: seq<Event>, what: What, id: nat): nat {
    if log == [] then 0
    else
      var e := log[|log| - 1];
      Count(log[..|log| - 1], what, id) + if Is(e, what) && e.id == id then 1 else 0
  }

  lemma CountOfAppend(log: seq<Event>, e: Event, what: What, id: nat)
    ensures Count(log + [e], what, id) == Count(log, what, id) + if Is(e, what) && e.id == id then 1 else 0
  {
    assert (log + [e])[..|log|] == log;
  }

  lemma CountInTraceStep(log: seq<Event>, e: Event, trace: seq<Event>, what: What, id: nat)
    requires Count(log, what, id) == Count(trace, what, id)
    ensures Count(log + [e], what, id) == Count(trace + (if e.id == id then [e] else []), what, id)
  {
    CountOfAppend(log, e, what, id);
    if e.id == id {
      CountOfAppend(trace, e, what, id);
    } else {
      assert trace + [] == trace;
    }
  }

  /** Counting in the log or in the trace is the same. */
  lemma {:induction false} CountInTrace(log: seq<Event>, what: What, id: nat)
    ensures Count(log, what, id) == Count(Trace(log, id), what, id)
  {
    if log != [] {
      var init, e := log[..|log| - 1], log[|log| - 1];
      CountInTrace(init, what, id);
      CountInTraceStep(init, e, Trace(init, id), what, id);
      assert log == init + [e];
    }
  }

  lemma {:induction false} CountOfConcat(log: seq<Event>, more: seq<Event>, what: What, id: nat)
    ensures Count(log + more, what, id) == Count(log, what, id) + Count(more, what, id)
  {
    if more == [] {
      assert log + more == log;
    } else {
      var init, e := more[..|more| - 1], more[|more| - 1];
      assert more == init + [e] && log + more == (log + init) + [e];
      CountOfAppend(log + init, e, what, id);
      CountOfAppend(init, e, what, id);
      CountOfConcat(log, init, what, id);
    }
  }

  /** The invocations of handlers, in order, with their arguments. */
  function Invocations(log: seq<Event>): seq<(Handler, nat)> {
    if log == [] then []
    else
      var e := log[|log| - 1];
      Invocations(log[..|log| - 1]) + if e.Invoked? then [(e.handler, e.args)] else []
  }

  lemma InvocationsOfAppend(log: seq<Event>, e: Event)
    ensures Invocations(log + [e]) == Invocations(log) + if e.Invoked? then [(e.handler, e.args)] else []
  {
    assert (log + [e])[..|log|] == log;
  }

  lemma {:induction false} NothingInvoked(log: seq<Event>, more: seq<Event>)
    requires forall i :: 0 <= i < |more| ==> !more[i].Invoked?
    ensures Invocations(log + more) == Invocations(log)
  {
    if more == [] {
      assert log + more == log;
    } else {
      var n := |more| - 1;
      assert log + more == (log + more[..n]) + [more[n]];
      InvocationsOfAppend(log + more[..n], more[n]);
      NothingInvoked(log, more[..n]);
    }
  }

  lemma InvokedOnce(log: seq<Event>, more: seq<Event>)
    requires forall i :: 0 <= i < |more| - 1 ==> !more[i].Invoked?
    ensures Invocations(log + more)
         == Invocations(log)
            + if more != [] && more[|more| - 1].Invoked? then [(more[|more| - 1].handler, more[|more| - 1].args)] else []
  {
    if more == [] {
      assert log + more == log;
    } else {
      var n := |more| - 1;
      assert log + more == (log + more[..n]) + [more[n]];
      InvocationsOfAppend(log + more[..n], more[n]);
      NothingInvoked(log, more[..n]);
    }
  }

  /** Storage whose life is complete was freed exactly once, destroyed exactly as often as it was
      constructed, which is at most once, and its handler was invoked at most once. */
  lemma CompleteLifeCounts(log: seq<Event>, id: nat)
    requires Complete(Trace(log, id), id)
    ensures Count(log, Release, id) == 1
    ensures Count(log, Destruction, id) == Count(log, Construction, id) <= 1
    ensures Count(log, Invocation, id) <= 1
  {
    forall w: What
      ensures Count(log, w, id) == CountInLife(Trace(log, id), w)
    {
      CountInTrace(log, w, id);
      CountOfLife(Trace(log, id), w, id);
    }
  }

  /** The counts of the three complete lives. */
  function CountInLife(life: seq<Event>, what: What): nat {
    match what
    case Release => 1
    case Invocation => if |life| == 6 then 1 else 0
    case _ => if |life| == 2 then 0 else 1
  }

  lemma CountOfLife(life: seq<Event>, what: What, id: nat)
    requires Complete(life, id)
    ensures Count(life, what, id) == CountInLife(life, what)
  {
    CountOfPair(life[..2], what, id);
    assert life == life[..2] + life[2..];
    CountOfConcat(life[..2], life[2..], what, id);
    if |life| == 4 {
      CountOfPair(life[2..], what, id);
    } else if |life| == 6 {
      assert life[2] == life[2..5][0] && life[3] == life[2..5][1] && life[4] == life[2..5][2];
      var tail := life[2..];
      CountOfPair(tail[..2], what, id);
      CountOfPair(tail[2..], what, id);
      assert tail == tail[..2] + tail[2..];
      CountOfConcat(tail[..2], tail[2..], what, id);
    }
  }

  lemma CountOfPair(es: seq<Event>, what: What, id: nat)
    requires |es| == 2 && es[0].id == es[1].id == id
    ensures Count(es, what, id) == (if Is(es[0], what) then 1 else 0) + (if Is(es[1], what) then 1 else 0)
  {
    CountOfAppend([], es[0], what, id);
    CountOfAppend([] + [es[0]], es[1], what, id);
    assert es == ([] + [es[0]]) + [es[1]];
  }

  lemma TraceOfPair(es: seq<Event>, id: nat)
    requires |es| == 2 && es[0].id == es[1].id
    ensures Trace(es, id) == if es[0].id == id then es else []
  {
    assert es == ([] + [es[0]]) + [es[1]];
    TraceOfAppend([], es[0], id);
    TraceOfAppend([] + [es[0]], es[1], id);
  }

  lemma TraceOfFour(es: seq<Event>, id: nat)
    requires |es| == 4 && es[0].id == es[1].id == es[2].id == es[3].id
    ensures Trace(es, id) == if es[0].id == id then es else []
  {
    assert es == es[..2] + es[2..];
    TraceOfPair(es[..2], id);
    TraceOfPair(es[2..], id);
    TraceOfConcat(es[..2], es[2..], id);
  }

  /** The history of one piece of storage, given the storage in use and the next free identity. */
  ghost predicate LifeOk(impls: map<nat, Handler>, next: nat, log: seq<Event>, id: nat) {
    var life := Trace(log, id);
    if id in impls then id < next && Alive(life, id, impls[id])
    else if id < next then Complete(life, id)
    else life == []
  }

  ghost predicate HistoryOk(impls: map<nat, Handler>, next: nat, log: seq<Event>) {
    forall id :: LifeOk(impls, next, log, id)
  }

  lemma CreateKeepsHistory(impls: map<nat, Handler>, next: nat, log: seq<Event>, h: Handler)
    requires HistoryOk(impls, next, log)
    ensures HistoryOk(impls[next := h], next + 1, log + [Allocated(next), Constructed(next, h)])
  {
    var impls', next', more := impls[next := h], next + 1, [Allocated(next), Constructed(next, h)];
    forall i: nat
      ensures LifeOk(impls', next', log + more, i)
    {
      assert LifeOk(impls, next, log, i);
      TraceOfConcat(log, more, i);
      TraceOfPair(more, i);
    }
  }

  lemma FailedCreateKeepsHistory(impls: map<nat, Handler>, next: nat, log: seq<Event>)
    requires HistoryOk(impls, next, log)
    ensures HistoryOk(impls, next + 1, log + [Allocated(next), Freed(next)])
  {
    var next', more := next + 1, [Allocated(next), Freed(next)];
    forall i: nat
      ensures LifeOk(impls, next', log + more, i)
    {
      assert LifeOk(impls, next, log, i);
      TraceOfConcat(log, more, i);
      TraceOfPair(more, i);
    }
  }

  lemma DestroyKeepsHistory(impls: map<nat, Handler>, next: nat, log: seq<Event>, id: nat)
    requires HistoryOk(impls, next, log) && id in impls
    ensures HistoryOk(impls - {id}, next, log + [Destroyed(id), Freed(id)])
  {
    var more := [Destroyed(id), Freed(id)];
    forall i: nat
      ensures LifeOk(impls - {id}, next, log + more, i)
    {
      assert LifeOk(impls, next, log, i);
      TraceOfConcat(log, more, i);
      TraceOfPair(more, i);
    }
  }

  lemma CallKeepsHistory(impls: map<nat, Handler>, next: nat, log: seq<Event>, id: nat, args: nat)
    requires HistoryOk(impls, next, log) && id in impls
    ensures HistoryOk(impls - {id}, next, log + [MovedOut(id), Destroyed(id), Freed(id), Invoked(id, impls[id], args)])
  {
    var more := [MovedOut(id), Destroyed(id), Freed(id), Invoked(id, impls[id], args)];
    forall i: nat
      ensures LifeOk(impls - {id}, next, log + more, i)
    {
      assert LifeOk(impls, next, log, i);
      TraceOfConcat(log, more, i);
      TraceOfFour(more, i);
    }
  }

  /** The heap of handler storage. A piece of storage is in use, with a handler constructed in it, as
      long as it is a key of impls. */
  class Arena {
    var impls: map<nat, Handler>
    var next: nat
    ghost var log: seq<Event>

    ghost predicate Valid()
      reads this
    {
      HistoryOk(impls, next, log)
    }

    constructor ()
      ensures Valid() && impls == map[] && log == []
    {
      impls, next, log := map[], 0, [];
    }

    /** any_completion_handler_impl::create. If the construction throws, the uninitialised storage is
        freed and nothing else remains. */
    method Create(h: Handler, throws: bool) returns (id: Option<nat>)
      requires Valid()
      modifies this
      ensures Valid() && next == old(next) + 1 && old(next) !in old(impls)
      ensures if throws then
                && id == None && impls == old(impls)
                && log == old(log) + [Allocated(old(next)), Freed(old(next))]
              else
                && id == Some(old(next)) && impls == old(impls)[old(next) := h]
                && log == old(log) + [Allocated(old(next)), Constructed(old(next), h)]
    {
      CreateKeepsHistory(impls, next, log, h);
      FailedCreateKeepsHistory(impls, next, log);
      assert LifeOk(impls, next, log, next);
      log := log + [Allocated(next)];
      if throws {
        log := log + [Freed(next)];
        id := None;
      } else {
        impls := impls[next := h];
        log := log + [Constructed(next, h)];
        id := Some(next);
      }
      assert log == old(log) + [Allocated(next), if throws then Freed(next) else Constructed(next, h)];
      next := next + 1;
    }

    /** any_completion_handler_impl<Handler>::destroy, reached by a downcast to the type asType. The
        downcast is right only if that is the type the storage was created with. */
    method Destroy(id: nat, asType: TypeId)
      requires Valid() && id in impls && impls[id].typeId == asType
      modifies this`impls, this`log
      ensures Valid()
      ensures impls == old(impls) - {id}
      ensures log == old(log) + [Destroyed(id), Freed(id)]
    {
      DestroyKeepsHistory(impls, next, log, id);
      impls := impls - {id};
      log := log + [Destroyed(id), Freed(id)];
    }

    /** any_completion_handler_impl<Handler>::call: the handler is moved to the stack, the storage is
        destroyed and freed, and only then the handler is invoked. If the move throws, the storage is
        destroyed and freed all the same. */
    method Call(id: nat, asType: TypeId, args: nat, moveThrows: bool) returns (invoked: bool)
      requires Valid() && id in impls && impls[id].typeId == asType
      modifies this`impls, this`log
      ensures Valid() && invoked == !moveThrows
      ensures impls == old(impls) - {id}
      ensures log == old(log) + if moveThrows then [Destroyed(id), Freed(id)]
                                else [MovedOut(id), Destroyed(id), Freed(id), Invoked(id, old(impls[id]), args)]
    {
      if moveThrows {
        Destroy(id, asType);
        return false;
      }
      CallKeepsHistory(impls, next, log, id, args);
      var handler := impls[id];
      log := log + [MovedOut(id)];
      impls := impls - {id};
      log := log + [Destroyed(id), Freed(id)];
      log := log + [Invoked(id, handler, args)];
      assert log == old(log) + [MovedOut(id), Destroyed(id), Freed(id), Invoked(id, handler, args)];
      invoked := true;
    }
  }
}

/** The wrapper itself: a pointer to the storage and a pointer to the function table that knows the type
    of the handler in it. */
module AnyCompletionHandlers {
  import opened AsioTypes
  import opened HandlerStorage

  /** any_completion_handler_fn_table: the handler type that each of its functions casts to. */
  datatype FnTable = FnTable(destroyFn: TypeId, executorFn: TypeId, immediateExecutorFn: TypeId,
                             allocateFn: TypeId, deallocateFn: TypeId, callFn: TypeId)

  /** any_completion_handler_fn_table_instance<Handler>::value. */
  function TableFor(t: TypeId): FnTable {
    FnTable(t, t, t, t, t, t)
  }

  class AnyCompletionHandler {
    var fnTable: Option<FnTable>
    var impl: Option<nat>

    /** Whether an association lookup, which asks only for a table, finds storage to ask. */
    predicate LookupDefined()
      reads this
    {
      fnTable.Some? ==> impl.Some?
    }

    constructor Empty()
      ensures fnTable == None && impl == None
    {
      fnTable, impl := None, None;
    }

    /** The move constructor. */
    constructor Move(other: AnyCompletionHandler)
      modifies other
      ensures fnTable == old(other.fnTable) && impl == old(other.impl)
      ensures other.fnTable == None && other.impl == None
    {
      fnTable, impl := other.fnTable, other.impl;
      new;
      other.fnTable, other.impl := None, None;
    }

    constructor FromParts(table: FnTable, id: nat)
      ensures fnTable == Some(table) && impl == Some(id)
    {
      fnTable, impl := Some(table), Some(id);
    }

    method Swap(other: AnyCompletionHandler)
      modifies this, other
      ensures fnTable == old(other.fnTable) && impl == old(other.impl)
      ensures other.fnTable == old(fnTable) && other.impl == old(impl)
    {
      fnTable, other.fnTable := other.fnTable, fnTable;
      impl, other.impl := other.impl, impl;
    }
  }

  /** The ownership invariant of a set of wrappers: every wrapper with storage has the table of the
      handler type in it, no storage has two owners, and all storage in use has one. */
  ghost predicate Owned(arena: Arena, ws: set<AnyCompletionHandler>)
    reads arena, ws
  {
    && arena.Valid()
    && (forall w :: w in ws && w.impl.Some? ==>
          && w.impl.value in arena.impls
          && w.fnTable == Some(TableFor(arena.impls[w.impl.value].typeId)))
    && (forall w, u :: w in ws && u in ws && w != u && w.impl.Some? ==> w.impl != u.impl)
    && (forall id :: id in arena.impls ==> exists w :: w in ws && w.impl == Some(id))
  }

  function Without(impls: map<nat, Handler>, id: Option<nat>): map<nat, Handler> {
    if id.Some? then impls - {id.value} else impls
  }

  /** So every function of the table of a wrapper with storage casts that storage to the type it has. */
  lemma DowncastsAreRight(arena: Arena, ws: set<AnyCompletionHandler>, w: AnyCompletionHandler)
    requires Owned(arena, ws) && w in ws && w.impl.Some?
    ensures w.impl.value in arena.impls && w.fnTable.Some?
    ensures var (t, table) := (arena.impls[w.impl.value].typeId, w.fnTable.value);
            && table.destroyFn == t && table.callFn == t
            && table.executorFn == t && table.immediateExecutorFn == t
            && table.allocateFn == t && table.deallocateFn == t
  {
  }

  /** The events of the destructor of a wrapper with this storage. */
  function DestructorEvents(impl: Option<nat>): seq<Event> {
    if impl.Some? then [Destroyed(impl.value), Freed(impl.value)] else []
  }

  /** The constructor from a handler. If it throws there is no wrapper and nothing has leaked. */
  method Create(arena: Arena, h: Handler, throws: bool, ghost ws: set<AnyCompletionHandler>)
    returns (w: AnyCompletionHandler?)
    requires Owned(arena, ws)
    modifies arena
    ensures old(arena.next) !in old(arena.impls)
    ensures if throws then
              && w == null && Owned(arena, ws) && arena.impls == old(arena.impls)
              && arena.log == old(arena.log) + [Allocated(old(arena.next)), Freed(old(arena.next))]
            else
              && w != null && fresh(w) && Owned(arena, ws + {w})
              && w.impl == Some(old(arena.next)) && arena.impls == old(arena.impls)[old(arena.next) := h]
              && arena.log == old(arena.log) + [Allocated(old(arena.next)), Constructed(old(arena.next), h)]
  {
    var table := TableFor(h.typeId);
    var id := arena.Create(h, throws);
    if id == None {
      return null;
    }
    w := new AnyCompletionHandler.FromParts(table, id.value);
    forall i | i in arena.impls
      ensures exists u :: u in ws + {w} && u.impl == Some(i)
    {
      if i != id.value {
        var u :| u in ws && u.impl == Some(i);
        assert u in ws + {w};
      } else {
        assert w in ws + {w};
      }
    }
  }

  /** The destructor. */
  method Destruct(arena: Arena, w: AnyCompletionHandler, ghost ws: set<AnyCompletionHandler>)
    requires Owned(arena, ws) && w in ws
    modifies arena
    ensures Owned(arena, ws - {w})
    ensures arena.impls == Without(old(arena.impls), w.impl)
    ensures arena.log == old(arena.log) + DestructorEvents(w.impl)
  {
    if w.impl.Some? {
      arena.Destroy(w.impl.value, w.fnTable.value.destroyFn);
    }
    forall i | i in arena.impls
      ensures exists u :: u in ws - {w} && u.impl == Some(i)
    {
      var u :| u in ws && u.impl == Some(i);
      assert u in ws - {w};
    }
  }

  /** The move constructor, in a set of wrappers. */
  method MoveConstruct(arena: Arena, other: AnyCompletionHandler, ghost ws: set<AnyCompletionHandler>)
    returns (w: AnyCompletionHandler)
    requires Owned(arena, ws) && other in ws
    modifies other
    ensures fresh(w) && Owned(arena, ws + {w})
    ensures w.fnTable == old(other.fnTable) && w.impl == old(other.impl)
    ensures other.fnTable == None && other.impl == None
  {
    w := new AnyCompletionHandler.Move(other);
    forall i | i in arena.impls
      ensures exists u :: u in ws + {w} && u.impl == Some(i)
    {
      var u :| u in ws && old(u.impl) == Some(i);
      assert (if u == other then w else u) in ws + {w};
    }
  }

  /** swap, in a set of wrappers. */
  method SwapIn(arena: Arena, a: AnyCompletionHandler, b: AnyCompletionHandler, ghost ws: set<AnyCompletionHandler>)
    requires Owned(arena, ws) && a in ws && b in ws
    modifies a, b
    ensures Owned(arena, ws)
    ensures a.fnTable == old(b.fnTable) && a.impl == old(b.impl)
    ensures b.fnTable == old(a.fnTable) && b.impl == old(a.impl)
  {
    a.Swap(b);
    forall i | i in arena.impls
      ensures exists u :: u in ws && u.impl == Some(i)
    {
      var u :| u in ws && old(u.impl) == Some(i);
      assert (if u == a then b else if u == b then a else u) in ws;
    }
  }

  /** Move assignment: a temporary takes the state of other, swaps with w, and is destroyed. The handler
      that w had is destroyed; assigning a wrapper to itself changes nothing. */
  method MoveAssign(arena: Arena, w: AnyCompletionHandler, other: AnyCompletionHandler, ghost ws: set<AnyCompletionHandler>)
    requires Owned(arena, ws) && w in ws && other in ws
    modifies arena, w, other
    ensures Owned(arena, ws)
    ensures w.fnTable == old(other.fnTable) && w.impl == old(other.impl)
    ensures other != w ==> other.fnTable == None && other.impl == None
    ensures arena.log == old(arena.log) + (if other == w then [] else DestructorEvents(old(w.impl)))
    ensures arena.impls == if other == w then old(arena.impls) else Without(old(arena.impls), old(w.impl))
  {
    var temporary := MoveConstruct(arena, other, ws);
    SwapIn(arena, temporary, w, ws + {temporary});
    Destruct(arena, temporary, ws + {temporary});
    assert (ws + {temporary}) - {temporary} == ws;
  }

  /** Assignment of nullptr. */
  method NullAssign(arena: Arena, w: AnyCompletionHandler, ghost ws: set<AnyCompletionHandler>)
    requires Owned(arena, ws) && w in ws
    modifies arena, w
    ensures Owned(arena, ws)
    ensures w.fnTable == None && w.impl == None
    ensures arena.log == old(arena.log) + DestructorEvents(old(w.impl))
    ensures arena.impls == Without(old(arena.impls), old(w.impl))
  {
    var temporary := new AnyCompletionHandler.Empty();
    assert Owned(arena, ws + {temporary}) by {
      forall i | i in arena.impls
        ensures exists u :: u in ws + {temporary} && u.impl == Some(i)
      {
        var u :| u in ws && u.impl == Some(i);
        assert u in ws + {temporary};
      }
    }
    SwapIn(arena, temporary, w, ws + {temporary});
    Destruct(arena, temporary, ws + {temporary});
    assert (ws + {temporary}) - {temporary} == ws;
  }

  datatype CallResult = Called | HandlerMoveThrew | BadFunctionCall

  /** operator(): the wrapper gives up its storage before the call, but keeps its table. */
  method Invoke(arena: Arena, w: AnyCompletionHandler, args: nat, moveThrows: bool, ghost ws: set<AnyCompletionHandler>)
    returns (r: CallResult)
    requires Owned(arena, ws) && w in ws
    modifies arena, w
    ensures Owned(arena, ws)
    ensures w.impl == None && w.fnTable == old(w.fnTable)
    ensures r == BadFunctionCall <==> old(w.impl) == None
    ensures r == BadFunctionCall ==> arena.log == old(arena.log) && arena.impls == old(arena.impls)
    ensures r != BadFunctionCall ==>
              && !w.LookupDefined()
              && (r == HandlerMoveThrew <==> moveThrows)
              && var id := old(w.impl).value;
                 arena.impls == old(arena.impls) - {id}
                 && arena.log == old(arena.log) + if moveThrows then [Destroyed(id), Freed(id)]
                      else [MovedOut(id), Destroyed(id), Freed(id), Invoked(id, old(arena.impls[id]), args)]
  {
    if w.impl == None {
      return BadFunctionCall;
    }
    var id := w.impl.value;
    w.impl := None;
    var invoked := arena.Call(id, w.fnTable.value.callFn, args, moveThrows);
    forall i | i in arena.impls
      ensures exists u :: u in ws && u.impl == Some(i)
    {
      var u :| u in ws && old(u.impl) == Some(i);
      assert u != w;
    }
    r := if invoked then Called else HandlerMoveThrew;
  }

  /** When the last wrapper is gone, no storage is left, and everything that was ever allocated was freed
      exactly once, destroyed if and only if a handler had been constructed in it, and invoked at most
      once. */
  lemma NothingIsLeaked(arena: Arena, id: nat)
    requires Owned(arena, {}) && id < arena.next
    ensures arena.impls == map[]
    ensures Complete(Trace(arena.log, id), id)
    ensures Count(arena.log, Release, id) == 1
    ensures Count(arena.log, Destruction, id) == Count(arena.log, Construction, id) <= 1
    ensures Count(arena.log, Invocation, id) <= 1
  {
    assert LifeOk(arena.impls, arena.next, arena.log, id);
    assert arena.impls.Keys == {};
    CompleteLifeCounts(arena.log, id);
  }

  /** What a program can do with its wrappers, which it refers to by their positions. */
  datatype Op =
    | Make(h: Handler, throws: bool)
    | MoveNew(i: nat)
    | AssignMove(to: nat, from: nat)
    | AssignNull(i: nat)
    | Exchange(i: nat, j: nat)
    | Call(i: nat, args: nat, moveThrows: bool)
    | Delete(i: nat)

  function Elements(pool: seq<AnyCompletionHandler>): set<AnyCompletionHandler> {
    set w | w in pool
  }

  ghost predicate Distinct(pool: seq<AnyCompletionHandler>) {
    forall i, j :: 0 <= i < j < |pool| ==> pool[i] != pool[j]
  }

  predicate InPool(op: Op, n: nat) {
    match op
    case Make(_, _) => true
    case AssignMove(to, from) => to < n && from < n
    case Exchange(i, j) => i < n && j < n
    case MoveNew(i) => i < n
    case AssignNull(i) => i < n
    case Call(i, _, _) => i < n
    case Delete(i) => i < n
  }

  /** The two pointers of a wrapper: whether it has a table, and its storage. */
  datatype Slot = Slot(tabled: bool, impl: Option<nat>)

  /** The pointers of each wrapper of a pool. */
  ghost predicate SlotsAre(pool: seq<AnyCompletionHandler>, slots: seq<Slot>)
    reads Elements(pool)
  {
    && |slots| == |pool|
    && forall i :: 0 <= i < |pool| ==> pool[i].impl == slots[i].impl && pool[i].fnTable.Some? == slots[i].tabled
  }

  /** Storage comes with a table; none is named twice, and all of it is in use. */
  ghost predicate Apart(impls: map<nat, Handler>, slots: seq<Slot>) {
    && (forall i :: 0 <= i < |slots| && slots[i].impl.Some? ==> slots[i].tabled && slots[i].impl.value in impls)
    && (forall i, j :: 0 <= i < j < |slots| && slots[i].impl.Some? ==> slots[i].impl != slots[j].impl)
  }

  /** What a wrapper is to its users: empty, the holder of a handler, or spent by a call. */
  datatype Content = Empty | Holds(h: Handler) | Spent

  function ContentOf(impls: map<nat, Handler>, slot: Slot): Content {
    if slot.impl.Some? && slot.impl.value in impls then Holds(impls[slot.impl.value])
    else if slot.tabled then Spent
    else Empty
  }

  function Contents(impls: map<nat, Handler>, slots: seq<Slot>): (values: seq<Content>)
    ensures |values| == |slots| && forall i :: 0 <= i < |slots| ==> values[i] == ContentOf(impls, slots[i])
  {
    seq(|slots|, i requires 0 <= i < |slots| => ContentOf(impls, slots[i]))
  }

  const NONE: Slot := Slot(false, None)

  /** The pointers of the wrappers after an operation that made new storage, if it made any. */
  function Rearranged(slots: seq<Slot>, op: Op, made: nat): seq<Slot>
    requires InPool(op, |slots|)
  {
    match op
    case Make(_, throws) => if throws then slots else slots + [Slot(true, Some(made))]
    case MoveNew(i) => slots[i := NONE] + [slots[i]]
    case AssignMove(to, from) => if to == from then slots else slots[to := slots[from]][from := NONE]
    case AssignNull(i) => slots[i := NONE]
    case Exchange(i, j) => slots[i := slots[j]][j := slots[i]]
    case Call(i, _, _) => slots[i := slots[i].(impl := None)]
    case Delete(i) => slots[..i] + slots[i + 1..]
  }

  /** The storage in use after it. */
  function Remaining(impls: map<nat, Handler>, slots: seq<Slot>, op: Op, made: nat): map<nat, Handler>
    requires InPool(op, |slots|)
  {
    match op
    case Make(h, throws) => if throws then impls else impls[made := h]
    case AssignMove(to, from) => if to == from then impls else Without(impls, slots[to].impl)
    case AssignNull(i) => Without(impls, slots[i].impl)
    case Call(i, _, _) => Without(impls, slots[i].impl)
    case Delete(i) => Without(impls, slots[i].impl)
    case _ => impls
  }

  /** What an operation would do to wrappers that were plain values, without pointers and tables. */
  function Apply(values: seq<Content>, op: Op): seq<Content> {
    if !InPool(op, |values|) then values
    else match op
      case Make(h, throws) => if throws then values else values + [Holds(h)]
      case MoveNew(i) => values[i := Empty] + [values[i]]
      case AssignMove(to, from) => if to == from then values else values[to := values[from]][from := Empty]
      case AssignNull(i) => values[i := Empty]
      case Exchange(i, j) => values[i := values[j]][j := values[i]]
      case Call(i, _, _) => if values[i].Holds? then values[i := Spent] else values
      case Delete(i) => values[..i] + values[i + 1..]
  }

  /** The invocation that an operation makes. */
  function Invokes(values: seq<Content>, op: Op): seq<(Handler, nat)> {
    if op.Call? && op.i < |values| && values[op.i].Holds? && !op.moveThrows then [(values[op.i].h, op.args)] else []
  }

  /** The laws of the values. A move leaves nothing behind and takes everything along; moving a wrapper to
      itself does nothing; a swap is its own inverse; an assignment of nothing empties; a call spends a
      handler and nothing else, and invokes it unless its move throws; and no operation touches another
      wrapper. */
  lemma LawsOfValues(values: seq<Content>, op: Op)
    requires InPool(op, |values|)
    ensures var r := Apply(values, op);
            match op
            case Make(h, throws) => r == values + if throws then [] else [Holds(h)]
            case MoveNew(i) => |r| == |values| + 1 && r[|values|] == values[i] && r[i] == Empty && Alike(values, r, {i})
            case AssignMove(to, from) =>
              && r[to] == values[from] && (to != from ==> r[from] == Empty)
              && |r| == |values| && Alike(values, r, {to, from})
            case AssignNull(i) => r[i] == Empty && |r| == |values| && Alike(values, r, {i})
            case Exchange(i, j) =>
              && r[i] == values[j] && r[j] == values[i] && |r| == |values| && Alike(values, r, {i, j})
              && Apply(r, op) == values
            case Call(i, _, _) =>
              && (if values[i].Holds? then r[i] == Spent else r[i] == values[i])
              && |r| == |values| && Alike(values, r, {i})
            case Delete(i) =>
              && |r| == |values| - 1 && Alike(values[..i], r[..i], {}) && Alike(values[i + 1..], r[i..], {})
    ensures match op
            case Call(i, args, moveThrows) =>
              Invokes(values, op) == if values[i].Holds? && !moveThrows then [(values[i].h, args)] else []
            case _ => Invokes(values, op) == []
  {
  }

  /** The same values up to the length of the first, apart from the places that are excepted. */
  predicate Alike(before: seq<Content>, after: seq<Content>, except: set<int>) {
    |before| <= |after| && forall k :: 0 <= k < |before| && k !in except ==> after[k] == before[k]
  }

  function ApplyAll(ops: seq<Op>): seq<Content> {
    if ops == [] then [] else Apply(ApplyAll(ops[..|ops| - 1]), ops[|ops| - 1])
  }

  /** The invocations that a program makes. */
  function InvokesAll(ops: seq<Op>): seq<(Handler, nat)> {
    if ops == [] then []
    else
      var n := |ops| - 1;
      InvokesAll(ops[..n]) + Invokes(ApplyAll(ops[..n]), ops[n])
  }

  lemma AllOfAppend(ops: seq<Op>, n: nat)
    requires n < |ops|
    ensures ApplyAll(ops[..n + 1]) == Apply(ApplyAll(ops[..n]), ops[n])
    ensures InvokesAll(ops[..n + 1]) == InvokesAll(ops[..n]) + Invokes(ApplyAll(ops[..n]), ops[n])
  {
    assert ops[..n + 1][..n] == ops[..n];
  }

  /** On the storage, every operation has the effect that it would have on plain values. */
  lemma ActsOnContents(impls: map<nat, Handler>, slots: seq<Slot>, op: Op, made: nat)
    requires Apart(impls, slots) && InPool(op, |slots|) && (op.Make? ==> made !in impls)
    ensures Contents(Remaining(impls, slots, op, made), Rearranged(slots, op, made)) == Apply(Contents(impls, slots), op)
  {
    var impls', slots' := Remaining(impls, slots, op, made), Rearranged(slots, op, made);
    var values' := Apply(Contents(impls, slots), op);
    forall k | 0 <= k < |slots'|
      ensures ContentOf(impls', slots'[k]) == values'[k]
    {
    }
  }

  lemma OwnersAreApart(arena: Arena, pool: seq<AnyCompletionHandler>, slots: seq<Slot>)
    requires Distinct(pool) && Owned(arena, Elements(pool)) && SlotsAre(pool, slots)
    ensures Apart(arena.impls, slots)
  {
    assert forall i :: 0 <= i < |pool| ==> pool[i] in Elements(pool);
  }

  lemma ElementsAfterDelete(pool: seq<AnyCompletionHandler>, i: nat)
    requires Distinct(pool) && i < |pool|
    ensures Distinct(pool[..i] + pool[i + 1..])
    ensures Elements(pool[..i] + pool[i + 1..]) == Elements(pool) - {pool[i]}
  {
    assert pool == pool[..i] + [pool[i]] + pool[i + 1..];
  }

  lemma SlotsAfterDelete(pool: seq<AnyCompletionHandler>, i: nat, slots: seq<Slot>)
    requires i < |pool| && SlotsAre(pool, slots)
    ensures SlotsAre(pool[..i] + pool[i + 1..], slots[..i] + slots[i + 1..])
  {
  }

  lemma ElementsAfterAppend(pool: seq<AnyCompletionHandler>, w: AnyCompletionHandler)
    requires Distinct(pool) && w !in pool
    ensures Distinct(pool + [w]) && Elements(pool + [w]) == Elements(pool) + {w}
  {
  }

  lemma SlotsAfterAppend(pool: seq<AnyCompletionHandler>, w: AnyCompletionHandler, slots: seq<Slot>, slot: Slot)
    requires SlotsAre(pool, slots) && w.impl == slot.impl && w.fnTable.Some? == slot.tabled
    ensures SlotsAre(pool + [w], slots + [slot])
  {
  }

  lemma OthersDiffer(pool: seq<AnyCompletionHandler>, i: nat)
    requires Distinct(pool) && i < |pool|
    ensures forall k :: 0 <= k < |pool| && k != i ==> pool[k] != pool[i]
  {
  }

  lemma DestructionInvokesNothing(log: seq<Event>, impl: Option<nat>)
    ensures Invocations(log + DestructorEvents(impl)) == Invocations(log)
  {
    NothingInvoked(log, DestructorEvents(impl));
  }

  method StepMake(arena: Arena, pool: seq<AnyCompletionHandler>, h: Handler, throws: bool, ghost slots: seq<Slot>)
    returns (pool': seq<AnyCompletionHandler>)
    requires Distinct(pool) && Owned(arena, Elements(pool)) && SlotsAre(pool, slots)
    modifies arena
    ensures Distinct(pool') && Owned(arena, Elements(pool'))
    ensures SlotsAre(pool', Rearranged(slots, Make(h, throws), old(arena.next)))
    ensures old(arena.next) !in old(arena.impls)
    ensures arena.impls == Remaining(old(arena.impls), slots, Make(h, throws), old(arena.next))
    ensures forall w :: w in pool' ==> w in pool || fresh(w)
    ensures Invocations(arena.log) == Invocations(old(arena.log))
  {
    var w := Create(arena, h, throws, Elements(pool));
    pool' := pool;
    if w != null {
      pool' := pool + [w];
      ElementsAfterAppend(pool, w);
      SlotsAfterAppend(pool, w, slots, Slot(true, Some(old(arena.next))));
    }
    NothingInvoked(old(arena.log), arena.log[|old(arena.log)|..]);
  }

  method StepMove(arena: Arena, pool: seq<AnyCompletionHandler>, i: nat, ghost slots: seq<Slot>)
    returns (pool': seq<AnyCompletionHandler>)
    requires Distinct(pool) && Owned(arena, Elements(pool)) && SlotsAre(pool, slots) && i < |pool|
    modifies pool[i]
    ensures Distinct(pool') && Owned(arena, Elements(pool'))
    ensures SlotsAre(pool', Rearranged(slots, MoveNew(i), 0))
    ensures forall w :: w in pool' ==> w in pool || fresh(w)
  {
    var w := MoveConstruct(arena, pool[i], Elements(pool));
    pool' := pool + [w];
    ElementsAfterAppend(pool, w);
  }

  method StepDelete(arena: Arena, pool: seq<AnyCompletionHandler>, i: nat, ghost slots: seq<Slot>)
    returns (pool': seq<AnyCompletionHandler>)
    requires Distinct(pool) && Owned(arena, Elements(pool)) && SlotsAre(pool, slots) && i < |pool|
    modifies arena
    ensures Distinct(pool') && Owned(arena, Elements(pool'))
    ensures SlotsAre(pool', Rearranged(slots, Delete(i), 0))
    ensures arena.impls == Remaining(old(arena.impls), slots, Delete(i), 0)
    ensures pool' == pool[..i] + pool[i + 1..]
    ensures Invocations(arena.log) == Invocations(old(arena.log))
  {
    DestructionInvokesNothing(arena.log, pool[i].impl);
    Destruct(arena, pool[i], Elements(pool));
    pool' := pool[..i] + pool[i + 1..];
    ElementsAfterDelete(pool, i);
    SlotsAfterDelete(pool, i, slots);
  }

  /** The operations that change the number of wrappers. */
  method StepResizing(arena: Arena, pool: seq<AnyCompletionHandler>, op: Op, ghost slots: seq<Slot>)
    returns (pool': seq<AnyCompletionHandler>)
    requires Distinct(pool) && Owned(arena, Elements(pool)) && SlotsAre(pool, slots) && InPool(op, |pool|)
    requires op.Make? || op.MoveNew? || op.Delete?
    modifies arena, Elements(pool)
    ensures Distinct(pool') && Owned(arena, Elements(pool'))
    ensures SlotsAre(pool', Rearranged(slots, op, old(arena.next)))
    ensures op.Make? ==> old(arena.next) !in old(arena.impls)
    ensures arena.impls == Remaining(old(arena.impls), slots, op, old(arena.next))
    ensures forall w :: w in pool' ==> w in pool || fresh(w)
    ensures Invocations(arena.log) == Invocations(old(arena.log))
  {
    match op
    case Make(h, throws) => pool' := StepMake(arena, pool, h, throws, slots);
    case MoveNew(i) => pool' := StepMove(arena, pool, i, slots);
    case Delete(i) => pool' := StepDelete(arena, pool, i, slots);
  }

  method StepAssignMove(arena: Arena, pool: seq<AnyCompletionHandler>, to: nat, from: nat, ghost slots: seq<Slot>)
    requires Distinct(pool) && Owned(arena, Elements(pool)) && SlotsAre(pool, slots) && to < |pool| && from < |pool|
    modifies arena, pool[to], pool[from]
    ensures Owned(arena, Elements(pool))
    ensures SlotsAre(pool, Rearranged(slots, AssignMove(to, from), 0))
    ensures arena.impls == Remaining(old(arena.impls), slots, AssignMove(to, from), 0)
    ensures Invocations(arena.log) == Invocations(old(arena.log))
  {
    DestructionInvokesNothing(arena.log, pool[to].impl);
    NothingInvoked(arena.log, []);
    OthersDiffer(pool, to);
    OthersDiffer(pool, from);
    MoveAssign(arena, pool[to], pool[from], Elements(pool));
    assert SlotsAre(pool, Rearranged(slots, AssignMove(to, from), 0));
  }

  method StepAssignNull(arena: Arena, pool: seq<AnyCompletionHandler>, i: nat, ghost slots: seq<Slot>)
    requires Distinct(pool) && Owned(arena, Elements(pool)) && SlotsAre(pool, slots) && i < |pool|
    modifies arena, pool[i]
    ensures Owned(arena, Elements(pool))
    ensures SlotsAre(pool, Rearranged(slots, AssignNull(i), 0))
    ensures arena.impls == Remaining(old(arena.impls), slots, AssignNull(i), 0)
    ensures Invocations(arena.log) == Invocations(old(arena.log))
  {
    DestructionInvokesNothing(arena.log, pool[i].impl);
    OthersDiffer(pool, i);
    NullAssign(arena, pool[i], Elements(pool));
  }

  method StepCall(arena: Arena, pool: seq<AnyCompletionHandler>, i: nat, args: nat, moveThrows: bool, ghost slots: seq<Slot>)
    requires Distinct(pool) && Owned(arena, Elements(pool)) && SlotsAre(pool, slots) && i < |pool|
    modifies arena, pool[i]
    ensures Owned(arena, Elements(pool))
    ensures SlotsAre(pool, Rearranged(slots, Call(i, args, moveThrows), 0))
    ensures arena.impls == Remaining(old(arena.impls), slots, Call(i, args, moveThrows), 0)
    ensures Invocations(arena.log)
         == Invocations(old(arena.log)) + Invokes(Contents(old(arena.impls), slots), Call(i, args, moveThrows))
  {
    assert pool[i] in Elements(pool);
    ghost var log := arena.log;
    var r := Invoke(arena, pool[i], args, moveThrows, Elements(pool));
    InvokedOnce(log, arena.log[|log|..]);
    assert arena.log == log + arena.log[|log|..];
  }

  /** The operations on existing wrappers. */
  method StepInPlace(arena: Arena, pool: seq<AnyCompletionHandler>, op: Op, ghost slots: seq<Slot>)
    requires Distinct(pool) && Owned(arena, Elements(pool)) && SlotsAre(pool, slots) && InPool(op, |pool|)
    requires op.AssignMove? || op.AssignNull? || op.Exchange? || op.Call?
    modifies arena, Elements(pool)
    ensures Owned(arena, Elements(pool))
    ensures SlotsAre(pool, Rearranged(slots, op, 0))
    ensures arena.impls == Remaining(old(arena.impls), slots, op, 0)
    ensures Invocations(arena.log) == Invocations(old(arena.log)) + Invokes(Contents(old(arena.impls), slots), op)
  {
    match op
    case AssignMove(to, from) => StepAssignMove(arena, pool, to, from, slots);
    case AssignNull(i) => StepAssignNull(arena, pool, i, slots);
    case Exchange(i, j) => SwapIn(arena, pool[i], pool[j], Elements(pool));
    case Call(i, args, moveThrows) => StepCall(arena, pool, i, args, moveThrows, slots);
  }

  /** One operation of a program. */
  method Step(arena: Arena, pool: seq<AnyCompletionHandler>, op: Op, ghost slots: seq<Slot>)
    returns (pool': seq<AnyCompletionHandler>, ghost slots': seq<Slot>)
    requires Distinct(pool) && Owned(arena, Elements(pool)) && SlotsAre(pool, slots) && InPool(op, |pool|)
    modifies arena, Elements(pool)
    ensures Distinct(pool') && Owned(arena, Elements(pool')) && SlotsAre(pool', slots')
    ensures forall j :: 0 <= j < |pool'| ==> (pool'[j].LookupDefined() <==> Contents(arena.impls, slots')[j] != Spent)
    ensures Contents(arena.impls, slots') == Apply(Contents(old(arena.impls), slots), op)
    ensures Invocations(arena.log) == Invocations(old(arena.log)) + Invokes(Contents(old(arena.impls), slots), op)
    ensures forall w :: w in pool' ==> w in pool || fresh(w)
  {
    OwnersAreApart(arena, pool, slots);
    ghost var impls, made := arena.impls, arena.next;
    if op.Make? || op.MoveNew? || op.Delete? {
      pool' := StepResizing(arena, pool, op, slots);
    } else {
      StepInPlace(arena, pool, op, slots);
      pool' := pool;
    }
    slots' := Rearranged(slots, op, made);
    ActsOnContents(impls, slots, op, made);
    LookupsOf(arena, pool', slots');
  }

  /** A lookup on a wrapper is in order exactly if the wrapper is not spent. */
  lemma LookupsOf(arena: Arena, pool: seq<AnyCompletionHandler>, slots: seq<Slot>)
    requires Distinct(pool) && Owned(arena, Elements(pool)) && SlotsAre(pool, slots)
    ensures forall i :: 0 <= i < |pool| ==> (pool[i].LookupDefined() <==> Contents(arena.impls, slots)[i] != Spent)
  {
    OwnersAreApart(arena, pool, slots);
  }

  /** Only calls make wrappers spent. */
  lemma {:induction false} SpentOnlyByCalls(ops: seq<Op>)
    requires forall i :: 0 <= i < |ops| ==> !ops[i].Call?
    ensures forall i :: 0 <= i < |ApplyAll(ops)| ==> ApplyAll(ops)[i] != Spent
  {
    if ops != [] {
      SpentOnlyByCalls(ops[..|ops| - 1]);
    }
  }

  /** Any program: whatever it does with any number of wrappers, they end as they would if they were plain
      values, exactly those handlers are invoked that would be, in the same order and with the same
      arguments, and a lookup on a wrapper finds storage exactly if that value is not spent. */
  method RunOps(ops: seq<Op>) returns (arena: Arena, pool: seq<AnyCompletionHandler>, ghost slots: seq<Slot>)
    ensures fresh(arena) && forall w :: w in pool ==> fresh(w)
    ensures Distinct(pool) && Owned(arena, Elements(pool)) && SlotsAre(pool, slots)
    ensures Contents(arena.impls, slots) == ApplyAll(ops)
    ensures Invocations(arena.log) == InvokesAll(ops)
    ensures |pool| == |ApplyAll(ops)|
    ensures forall i :: 0 <= i < |pool| ==> (pool[i].LookupDefined() <==> ApplyAll(ops)[i] != Spent)
  {
    arena := new Arena();
    pool, slots := [], [];
    for i := 0 to |ops|
      invariant Distinct(pool) && Owned(arena, Elements(pool)) && fresh(arena) && SlotsAre(pool, slots)
      invariant forall w :: w in pool ==> fresh(w)
      invariant Contents(arena.impls, slots) == ApplyAll(ops[..i]) && Invocations(arena.log) == InvokesAll(ops[..i])
    {
      AllOfAppend(ops, i);
      if InPool(ops[i], |pool|) {
        pool, slots := Step(arena, pool, ops[i], slots);
      }
    }
    assert ops[..|ops|] == ops;
    LookupsOf(arena, pool, slots);
  }

  /** Being called is not the condition: a wrapper that is moved from a called one was never called and has a
      table without storage, while the called one has lost its table. */
  method CalledThenMoved(h: Handler, args: nat) returns (w: AnyCompletionHandler, u: AnyCompletionHandler)
    ensures w.LookupDefined() && !u.LookupDefined()
  {
    var ops := [Make(h, false), Call(0, args, false), MoveNew(0)];
    assert ops[..1][..0] == [] && ops[..2][..1] == ops[..1] && ops[..2] == [ops[0], ops[1]];
    assert ApplyAll(ops[..1]) == [Holds(h)];
    assert ApplyAll(ops[..2]) == [Spent];
    assert ApplyAll(ops) == [Empty, Spent];
    var arena, pool;
    ghost var slots;
    arena, pool, slots := RunOps(ops);
    w, u := pool[0], pool[1];
  }

  /** Any program to its end: once the wrappers that are left have been destroyed, every piece of storage has
      had a complete life. So it has been freed exactly once, and before its handler was invoked; every
      handler that was constructed has been destroyed exactly once; and none has been invoked twice. */
  method RunProgram(ops: seq<Op>) returns (arena: Arena)
    ensures fresh(arena) && arena.impls == map[]
    ensures Invocations(arena.log) == InvokesAll(ops)
    ensures forall id :: 0 <= id < arena.next ==>
              && Complete(Trace(arena.log, id), id)
              && Count(arena.log, Release, id) == 1
              && Count(arena.log, Destruction, id) == Count(arena.log, Construction, id) <= 1
              && Count(arena.log, Invocation, id) <= 1
  {
    var pool;
    ghost var slots;
    arena, pool, slots := RunOps(ops);
    DestroyAll(arena, pool, slots);
    forall id | 0 <= id < arena.next
      ensures Complete(Trace(arena.log, id), id)
      ensures Count(arena.log, Release, id) == 1
      ensures Count(arena.log, Destruction, id) == Count(arena.log, Construction, id) <= 1
      ensures Count(arena.log, Invocation, id) <= 1
    {
      NothingIsLeaked(arena, id);
    }
    assert arena.impls.Keys == {};
  }

  /** The end of the scope of the wrappers that are left. */
  method DestroyAll(arena: Arena, pool: seq<AnyCompletionHandler>, ghost slots: seq<Slot>)
    requires Distinct(pool) && Owned(arena, Elements(pool)) && SlotsAre(pool, slots)
    modifies arena
    ensures Owned(arena, {}) && Invocations(arena.log) == Invocations(old(arena.log))
  {
    var rest := pool;
    ghost var left := slots;
    while rest != []
      invariant Distinct(rest) && Owned(arena, Elements(rest)) && SlotsAre(rest, left)
      invariant Invocations(arena.log) == Invocations(old(arena.log))
      decreases |rest|
    {
      rest := StepDelete(arena, rest, 0, left);
      left := Rearranged(left, Delete(0), 0);
    }
    assert Elements(rest) == {};
  }
}
