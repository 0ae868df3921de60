/** Associators, binders and async_initiate: how a nest of binders around a completion handler answers
    the four association lookups, and how initiation takes the nest apart and rebuilds it. */
module Binders {
  import opened AsioTypes

  /** The four associator templates. */
  datatype Kind = Allocator | CancellationSlot | Executor | ImmediateExecutor

  /** An associated object: its identity, and for executors whether blocking.never holds. */
  datatype Assoc = Assoc(id: nat, neverBlocks: bool)

  /** A class type without binders: own has the kinds for which it declares a nested type and a
      getter. */
  datatype HandlerObject = HandlerObject(id: nat, own: map<Kind, Assoc>)

  /** What ends a nest: a completion handler, or a token whose async_result makes one from it. */
  datatype Base = Handler(h: HandlerObject) | OtherToken(own: map<Kind, Assoc>, makes: HandlerObject)

  /** A completion token: allocator_binder and its three siblings, std::reference_wrapper, or a
      base. */
  datatype Token =
    | Bind(kind: Kind, value: Assoc, target: Token)
    | Ref(referent: Token)
    | Plain(base: Base)

  function Own(b: Base): map<Kind, Assoc> {
    if b.Handler? then b.h.own else b.own
  }

  /** has_allocator_type and its siblings. */
  predicate HasNestedType(k: Kind, t: Token) {
    match t
    case Bind(kind, _, _) => kind == k
    case Ref(_) => false
    case Plain(b) => k in Own(b)
  }

  /** Whether associator<associated_k, T, D> has a nested type: only its binder specialisations do. */
  predicate HasAssociator(t: Token) {
    t.Bind?
  }

  /** default_immediate_executor::get: the executor with blocking.never required. */
  function RequireNever(e: Assoc): Assoc {
    e.(neverBlocks := true)
  }

  /** The generic case of a lookup: the candidate, which for the immediate executor is
      transformed. */
  function Default(k: Kind, candidate: Assoc): Assoc {
    if k == ImmediateExecutor then RequireNever(candidate) else candidate
  }

  /** associated_k<T, D>::get(t, candidate), by the specialisation that the template arguments
      select: the binder of the same kind, the reference wrapper, and for every other type the own
      association, the associator, or the default, in this order. */
  function Get(k: Kind, t: Token, candidate: Assoc): Assoc {
    if t.Bind? && t.kind == k then t.value
    else if t.Ref? then Get(k, t.referent, candidate)
    else if HasNestedType(k, t) then Own(t.base)[k]
    else if HasAssociator(t) then Get(k, t.target, candidate)
    else Default(k, candidate)
  }

  /** Whether associated_k<T, D> has the nested type asio_associated_..._is_unspecialised. It is
      inherited through associators and copied by the reference wrappers' forwarding base. */
  predicate Unspecialised(k: Kind, t: Token) {
    if t.Bind? && t.kind == k then false
    else if t.Ref? then Unspecialised(k, t.referent)
    else if HasNestedType(k, t) then false
    else if HasAssociator(t) then Unspecialised(k, t.target)
    else true
  }

  /** One level of a nest. */
  datatype Layer = BindLayer(kind: Kind, value: Assoc) | RefLayer

  function Nest(layers: seq<Layer>, base: Base): Token {
    if layers == [] then Plain(base)
    else
      var inner := Nest(layers[1..], base);
      if layers[0].RefLayer? then Ref(inner) else Bind(layers[0].kind, layers[0].value, inner)
  }

  function Layers(t: Token): seq<Layer> {
    match t
    case Bind(k, v, target) => [BindLayer(k, v)] + Layers(target)
    case Ref(u) => [RefLayer] + Layers(u)
    case Plain(_) => []
  }

  function BaseOf(t: Token): Base {
    match t
    case Bind(_, _, target) => BaseOf(target)
    case Ref(u) => BaseOf(u)
    case Plain(b) => b
  }

  /** Tokens are exactly the nests: taking one apart and putting it together are inverse. */
  lemma {:induction false} NestOfLayers(t: Token)
    ensures Nest(Layers(t), BaseOf(t)) == t
  {
    match t
    case Bind(_, _, target) => NestOfLayers(target);
    case Ref(u) => NestOfLayers(u);
    case Plain(_) =>
  }

  lemma {:induction false} LayersOfNest(layers: seq<Layer>, base: Base)
    ensures Layers(Nest(layers, base)) == layers && BaseOf(Nest(layers, base)) == base
  {
    if layers != [] {
      LayersOfNest(layers[1..], base);
    }
  }

  predicate Binds(l: Layer, k: Kind) {
    l.BindLayer? && l.kind == k
  }

  /** The outermost binder of the kind that is looked up wins, whatever surrounds it. */
  lemma {:induction false} OutermostBinderWins(k: Kind, layers: seq<Layer>, base: Base, i: nat, candidate: Assoc)
    requires i < |layers| && Binds(layers[i], k)
    requires forall j :: 0 <= j < i ==> !Binds(layers[j], k)
    ensures Get(k, Nest(layers, base), candidate) == layers[i].value
    ensures !Unspecialised(k, Nest(layers, base))
  {
    if i > 0 {
      OutermostBinderWins(k, layers[1..], base, i - 1, candidate);
    }
  }

  /** Without such a binder, the base's own association is found, and failing that the default; the
      marker is visible exactly in the last case. */
  lemma {:induction false} NoBinderFallsThrough(k: Kind, layers: seq<Layer>, base: Base, candidate: Assoc)
    requires forall j :: 0 <= j < |layers| ==> !Binds(layers[j], k)
    ensures Get(k, Nest(layers, base), candidate)
         == if k in Own(base) then Own(base)[k] else Default(k, candidate)
    ensures Unspecialised(k, Nest(layers, base)) <==> k !in Own(base)
  {
    if layers != [] {
      assert !Binds(layers[0], k);
      NoBinderFallsThrough(k, layers[1..], base, candidate);
    }
  }

  /** What the default is: always the candidate itself, except that the immediate executor found this way
      never blocks. An own association is that of the handler or of the token that ends the nest. */
  lemma FallsThroughTo(k: Kind, layers: seq<Layer>, base: Base, candidate: Assoc)
    requires forall j :: 0 <= j < |layers| ==> !Binds(layers[j], k)
    ensures var found := Get(k, Nest(layers, base), candidate);
            match base
            case Handler(h) => k in h.own ==> found == h.own[k]
            case OtherToken(own, _) => k in own ==> found == own[k]
    ensures var found := Get(k, Nest(layers, base), candidate);
            k !in Own(base) ==>
              && found.id == candidate.id
              && (k == ImmediateExecutor ==> found.neverBlocks)
              && (k != ImmediateExecutor ==> found == candidate)
    ensures k !in Own(base) <==> match base case Handler(h) => k !in h.own case OtherToken(own, _) => k !in own
  {
    NoBinderFallsThrough(k, layers, base, candidate);
  }

  /** The layers that matter to a lookup. */
  function Only(k: Kind, layers: seq<Layer>): seq<Layer> {
    if layers == [] then []
    else (if Binds(layers[0], k) then [layers[0]] else []) + Only(k, layers[1..])
  }

  /** A lookup sees the binders of its own kind, in their order, and nothing else: binders of another
      kind and reference wrappers at any depth change neither its result nor the marker. */
  lemma {:induction false} OnlyOwnKindMatters(k: Kind, layers: seq<Layer>, base: Base, candidate: Assoc)
    ensures Get(k, Nest(layers, base), candidate) == Get(k, Nest(Only(k, layers), base), candidate)
    ensures Unspecialised(k, Nest(layers, base)) <==> Unspecialised(k, Nest(Only(k, layers), base))
  {
    if layers != [] {
      OnlyOwnKindMatters(k, layers[1..], base, candidate);
      if Binds(layers[0], k) {
        OutermostBinderWins(k, layers, base, 0, candidate);
        OutermostBinderWins(k, Only(k, layers), base, 0, candidate);
      } else {
        assert Only(k, layers) == Only(k, layers[1..]);
      }
    }
  }

  lemma OnlyOfCons(k: Kind, l: Layer, layers: seq<Layer>)
    ensures Only(k, [l] + layers) == (if Binds(l, k) then [l] else []) + Only(k, layers)
  {
    assert ([l] + layers)[1..] == layers;
  }

  lemma {:induction false} OnlyOfConcat(k: Kind, a: seq<Layer>, b: seq<Layer>)
    ensures Only(k, a + b) == Only(k, a) + Only(k, b)
  {
    if a == [] {
      assert a + b == b;
    } else {
      var first, rest, last := if Binds(a[0], k) then [a[0]] else [], Only(k, a[1..]), Only(k, b);
      calc {
        Only(k, a + b);
      ==  { assert a + b == [a[0]] + (a[1..] + b); }
        Only(k, [a[0]] + (a[1..] + b));
      ==  { OnlyOfCons(k, a[0], a[1..] + b); }
        first + Only(k, a[1..] + b);
      ==  { OnlyOfConcat(k, a[1..], b); }
        first + (rest + last);
      ==
        (first + rest) + last;
      ==
        Only(k, a) + last;
      }
    }
  }

  /** Whether exchanging two adjacent layers is invisible to all four lookups, in every surrounding
      nest. */
  ghost predicate Commute(x: Layer, y: Layer) {
    forall k, before, after, base, c ::
      Get(k, Nest(before + ([x, y] + after), base), c) == Get(k, Nest(before + ([y, x] + after), base), c)
  }

  /** Two adjacent layers commute exactly when they do not bind different values of one kind. */
  lemma AdjacentLayersCommute(x: Layer, y: Layer)
    ensures Commute(x, y) <==> !(x.BindLayer? && y.BindLayer? && x.kind == y.kind && x.value != y.value)
  {
    if x.BindLayer? && y.BindLayer? && x.kind == y.kind && x.value != y.value {
      var none, b, c := [], Handler(HandlerObject(0, map[])), Assoc(0, false);
      OutermostBinderWins(x.kind, none + ([x, y] + none), b, 0, c);
      OutermostBinderWins(x.kind, none + ([y, x] + none), b, 0, c);
    } else {
      forall k, before, after, base, c
        ensures Get(k, Nest(before + ([x, y] + after), base), c) == Get(k, Nest(before + ([y, x] + after), base), c)
      {
        SwapIsInvisible(k, before, x, y, after, base, c);
      }
    }
  }

  lemma SwapIsInvisible(k: Kind, before: seq<Layer>, x: Layer, y: Layer, after: seq<Layer>, base: Base, c: Assoc)
    requires !(x.BindLayer? && y.BindLayer? && x.kind == y.kind && x.value != y.value)
    ensures Get(k, Nest(before + ([x, y] + after), base), c) == Get(k, Nest(before + ([y, x] + after), base), c)
  {
    OnlyOfConcat(k, before, [x, y] + after);
    OnlyOfConcat(k, before, [y, x] + after);
    OnlyOfConcat(k, [x, y], after);
    OnlyOfConcat(k, [y, x], after);
    OnlyOfPair(k, x, y);
    OnlyOfPair(k, y, x);
    assert Only(k, [x, y]) == Only(k, [y, x]);
    OnlyOwnKindMatters(k, before + ([x, y] + after), base, c);
    OnlyOwnKindMatters(k, before + ([y, x] + after), base, c);
  }

  lemma OnlyOfPair(k: Kind, x: Layer, y: Layer)
    ensures Only(k, [x, y]) == (if Binds(x, k) then [x] else []) + (if Binds(y, k) then [y] else [])
  {
    assert [x, y][1..] == [y];
    assert Only(k, [y]) == if Binds(y, k) then [y] else [];
  }

  // --- Initiation ---

  /** async_result<T, Signature>::completion_handler_type: the binder around the target's completion
      handler type. A reference wrapper is a completion handler itself. */
  function CompletionHandler(t: Token): Token {
    match t
    case Bind(k, v, target) => Bind(k, v, CompletionHandler(target))
    case Ref(_) => t
    case Plain(Handler(_)) => t
    case Plain(OtherToken(_, made)) => Plain(Handler(made))
  }

  /** init_wrapper: an initiation that puts the binder back around the handler that it is given. */
  function InitWrapper<A, R>(k: Kind, v: Assoc, initiation: (Token, A) -> R): (Token, A) -> R {
    (handler: Token, args: A) => initiation(Bind(k, v, handler), args)
  }

  /** async_initiate, for any initiation function, arguments and result. A binder's async_result
      initiates its target with the wrapped initiation; completion_handler_async_result hands the
      token to the initiation; for a token without an initiate function the completion handler is
      made first. */
  function AsyncInitiate<A, R>(initiation: (Token, A) -> R, t: Token, args: A): R
    decreases t
  {
    match t
    case Bind(k, v, target) => AsyncInitiate(InitWrapper(k, v, initiation), target, args)
    case Ref(_) => initiation(t, args)
    case Plain(Handler(_)) => initiation(t, args)
    case Plain(OtherToken(_, made)) => initiation(Plain(Handler(made)), args)
  }

  /** The wrappers that initiation collects on its way in rebuild the nest in its order: the original
      initiation is called once, with the arguments unchanged, and with a handler that is structurally
      the declared completion handler of the token. */
  lemma {:induction false} InitiationRebuildsTheNest<A, R>(initiation: (Token, A) -> R, t: Token, args: A)
    ensures AsyncInitiate(initiation, t, args) == initiation(CompletionHandler(t), args)
    decreases t
  {
    match t
    case Bind(k, v, target) => InitiationRebuildsTheNest(InitWrapper(k, v, initiation), target, args);
    case Ref(_) =>
    case Plain(_) =>
  }

  /** The delivered handler has the layers of the token, with the same values and in the same order. At its
      end is what ends the token, or the handler that is made from it, if nothing but binders leads there:
      a reference wrapper is a handler and is delivered as it is. */
  lemma {:induction false} DeliveredNest(t: Token)
    ensures Layers(CompletionHandler(t)) == Layers(t)
    ensures BaseOf(CompletionHandler(t))
         == if BaseOf(t).OtherToken? && RefLayer !in Layers(t) then Handler(BaseOf(t).makes) else BaseOf(t)
  {
    match t
    case Bind(k, v, target) =>
      DeliveredNest(target);
      assert RefLayer in Layers(t) <==> RefLayer in Layers(target);
    case Ref(u) => assert Layers(t)[0] == RefLayer;
    case Plain(_) =>
  }

  /** In particular a handler, however it is bound, arrives as it was passed. */
  lemma {:induction false} HandlersArriveUnchanged(layers: seq<Layer>, h: HandlerObject)
    ensures CompletionHandler(Nest(layers, Handler(h))) == Nest(layers, Handler(h))
  {
    if layers != [] {
      HandlersArriveUnchanged(layers[1..], h);
    }
  }

  /** Whatever the token, every association made by a binder survives initiation: the delivered handler
      answers as the token does, unless the lookup ends at a token that is replaced by the handler made
      from it. */
  lemma {:induction false} InitiationKeepsAssociations(k: Kind, t: Token, c: Assoc)
    requires (exists l :: l in Layers(t) && Binds(l, k)) || BaseOf(t).Handler?
    ensures Get(k, CompletionHandler(t), c) == Get(k, t, c)
    ensures Unspecialised(k, CompletionHandler(t)) <==> Unspecialised(k, t)
  {
    if t.Bind? && t.kind != k {
      if !BaseOf(t).Handler? {
        var l :| l in Layers(t) && Binds(l, k);
        assert l in Layers(t.target);
      }
      InitiationKeepsAssociations(k, t.target, c);
    }
  }
}
