/**
 Goroutine ancestry and the inheritance of traces (pkg/instrumentors/gmap/gmap.go). The timed caches are
 plain maps, and random span ids are parameters.
 */
module GoroutineMap {
  import opened Machine

  type Goid = u64
  type Parents = map<Goid, Goid>

  /** A trace id and a span id. */
  datatype EBPFSpanContext = EBPFSpanContext(traceId: nat, spanId: nat)

  type Spans = map<Goid, EBPFSpanContext>

  const NO_CONTEXT: EBPFSpanContext := EBPFSpanContext(0, 0)

  const MAX_RETRY: nat := 100

  // ---------- The walk along the parent links ----------

  /** The three results of getAncestorSc: the span context, whether one was found, whether to try again. */
  datatype Walked = Walked(sc: EBPFSpanContext, ok: bool, retry: bool)

  /** One turn of the loop: it is done, or goes on from some goroutine. */
  datatype Turn = Done(walked: Walked) | GoOn(goid: Goid)

  function WalkTurn(parents: Parents, spans: Spans, goid: Goid): Turn {
    if goid !in parents then Done(Walked(NO_CONTEXT, false, goid == 1))
    else
      var p := parents[goid];
      if p !in spans then GoOn(p)
      else if p == 1 then GoOn(goid)
      else Done(Walked(spans[p], true, false))
  }

  /** What at most n turns of the loop return, if they return. */
  function WalkFor(parents: Parents, spans: Spans, goid: Goid, n: nat): Option<Walked>
    decreases n
  {
    if n == 0 then None
    else
      match WalkTurn(parents, spans, goid)
      case Done(w) => Some(w)
      case GoOn(next) => WalkFor(parents, spans, next, n - 1)
  }

  ghost predicate Terminates(parents: Parents, spans: Spans, goid: Goid) {
    exists n :: WalkFor(parents, spans, goid, n).Some?
  }

  /** Goroutines are numbered in the order of their creation. */
  ghost predicate ParentsBelow(parents: Parents) {
    forall g <- parents :: parents[g] < g
  }

  /** The nearest proper ancestor that has a span. */
  function NearestTracked(parents: Parents, spans: Spans, goid: Goid): (r: Option<Goid>)
    requires ParentsBelow(parents)
    ensures r.Some? ==> r.value in spans && r.value < goid
    decreases goid
  {
    if goid !in parents then None
    else if parents[goid] in spans then Some(parents[goid])
    else NearestTracked(parents, spans, parents[goid])
  }

  /** The first goroutine of the chain, as far as links are known. */
  function Root(parents: Parents, goid: Goid): Goid
    requires ParentsBelow(parents)
    decreases goid
  {
    if goid !in parents then goid else Root(parents, parents[goid])
  }

  /** What the walk is meant to return. */
  function Expected(parents: Parents, spans: Spans, goid: Goid): Walked
    requires ParentsBelow(parents)
  {
    match NearestTracked(parents, spans, goid)
    case Some(a) => Walked(spans[a], true, false)
    case None => Walked(NO_CONTEXT, false, Root(parents, goid) == 1)
  }

  /** However many turns are allowed, the walk returns nothing else. */
  lemma {:induction false} WalkReturnsExpected(parents: Parents, spans: Spans, goid: Goid, n: nat)
    requires ParentsBelow(parents) && WalkFor(parents, spans, goid, n).Some?
    ensures NearestTracked(parents, spans, goid) != Some(1)
    ensures WalkFor(parents, spans, goid, n).value == Expected(parents, spans, goid)
    decreases n
  {
    match WalkTurn(parents, spans, goid)
    case Done(_) =>
    case GoOn(next) => WalkReturnsExpected(parents, spans, next, n - 1);
  }

  lemma {:induction false} WalkTerminates(parents: Parents, spans: Spans, goid: Goid) returns (n: nat)
    requires ParentsBelow(parents) && NearestTracked(parents, spans, goid) != Some(1)
    ensures n <= goid + 1 && WalkFor(parents, spans, goid, n).Some?
    decreases goid
  {
    match WalkTurn(parents, spans, goid)
    case Done(_) => n := 1;
    case GoOn(next) =>
      n := WalkTerminates(parents, spans, next);
      n := n + 1;
  }

  /** The walk comes to an end exactly when the nearest tracked proper ancestor is not goroutine 1. */
  lemma TerminatesIff(parents: Parents, spans: Spans, goid: Goid)
    requires ParentsBelow(parents)
    ensures Terminates(parents, spans, goid) <==> NearestTracked(parents, spans, goid) != Some(1)
  {
    if NearestTracked(parents, spans, goid) != Some(1) {
      var n := WalkTerminates(parents, spans, goid);
    }
    if n :| WalkFor(parents, spans, goid, n).Some? {
      WalkReturnsExpected(parents, spans, goid, n);
    }
  }

  // ---------- The maps in place ----------

  class Event {
    const key: Goid
    var sc: EBPFSpanContext
    var psc: EBPFSpanContext

    constructor (key: Goid, sc: EBPFSpanContext)
      ensures this.key == key && this.sc == sc && psc == NO_CONTEXT
    {
      this.key, this.sc, psc := key, sc, NO_CONTEXT;
    }
  }

  class Span {
    var spanContext: EBPFSpanContext
    var parentSpanContext: EBPFSpanContext

    constructor (sc: EBPFSpanContext)
      ensures spanContext == sc && parentSpanContext == NO_CONTEXT
    {
      spanContext, parentSpanContext := sc, NO_CONTEXT;
    }
  }

  /** The span context a goroutine is registered with. */
  function Inherited(parents: Parents, spans: Spans, goid: Goid, sc: EBPFSpanContext, newSpanId: nat): EBPFSpanContext
    requires ParentsBelow(parents)
  {
    match NearestTracked(parents, spans, goid)
    case Some(a) => EBPFSpanContext(spans[a].traceId, newSpanId)
    case None => sc
  }

  /** goId2Sc after RegisterSpan. */
  function Registered(parents: Parents, spans: Spans, goid: Goid, sc: EBPFSpanContext, newSpanId: nat,
                      replace: bool): Spans
    requires ParentsBelow(parents)
  {
    if goid in spans then
      if replace then spans[goid := sc] else spans
    else
      spans[goid := Inherited(parents, spans, goid, sc, newSpanId)]
  }

  class Maps {
    var goId2PGoId: Parents
    var goId2Sc: Spans

    constructor ()
      ensures goId2PGoId == map[] && goId2Sc == map[]
    {
      goId2PGoId, goId2Sc := map[], map[];
    }

    function View(): State
      reads this
    {
      State(goId2PGoId, goId2Sc)
    }

    method SetGoId2PGoId(key: Goid, value: Goid)
      modifies this`goId2PGoId
      ensures goId2PGoId == old(goId2PGoId)[key := value]
      ensures ParentsBelow(old(goId2PGoId)) ==> View() == Step(old(View()), Link(key, value))
    {
      goId2PGoId := goId2PGoId[key := value];
    }

    /** getAncestorSc; the source's loop does not end where this precondition fails. */
    method WalkToAncestor(start: Goid) returns (w: Walked)
      requires ParentsBelow(goId2PGoId) && NearestTracked(goId2PGoId, goId2Sc, start) != Some(1)
      ensures w == Expected(goId2PGoId, goId2Sc, start)
    {
      var goid := start;
      while true
        invariant NearestTracked(goId2PGoId, goId2Sc, goid) == NearestTracked(goId2PGoId, goId2Sc, start)
        invariant Root(goId2PGoId, goid) == Root(goId2PGoId, start)
        decreases goid
      {
        if goid !in goId2PGoId {
          return Walked(NO_CONTEXT, false, goid == 1);
        }
        var pgoid := goId2PGoId[goid];
        if pgoid !in goId2Sc {
          goid := pgoid;
          continue;
        }
        return Walked(goId2Sc[pgoid], true, false);
      }
    }

    /** GetAncestorSc: a walk that ended at goroutine 1 is repeated, as its links may not be known yet. */
    method GetAncestorSc(goid: Goid) returns (sc: EBPFSpanContext, ok: bool, ghost walks: nat)
      requires ParentsBelow(goId2PGoId) && NearestTracked(goId2PGoId, goId2Sc, goid) != Some(1)
      ensures ok <==> NearestTracked(goId2PGoId, goId2Sc, goid).Some?
      ensures sc == if ok then goId2Sc[NearestTracked(goId2PGoId, goId2Sc, goid).value] else NO_CONTEXT
      ensures walks == if !ok && Root(goId2PGoId, goid) == 1 then 100 else 1
    {
      walks := 0;
      for i := 0 to MAX_RETRY
        invariant i > 0 ==> Expected(goId2PGoId, goId2Sc, goid) == Walked(NO_CONTEXT, false, true)
        invariant walks == i
      {
        var w := WalkToAncestor(goid);
        walks := walks + 1;
        if !w.retry {
          return w.sc, w.ok, walks;
        }
      }
      return NO_CONTEXT, false, walks;
    }

    method RegisterSpan(event: Event, replace: bool, newSpanId: nat)
      requires ParentsBelow(goId2PGoId)
      requires event.key !in goId2Sc ==> NearestTracked(goId2PGoId, goId2Sc, event.key) != Some(1)
      modifies this`goId2Sc, event
      ensures View() == Step(old(View()), Register(event.key, old(event.sc), newSpanId, replace))
      ensures goId2PGoId == old(goId2PGoId) && goId2Sc.Keys == old(goId2Sc).Keys + {event.key}
      ensures forall g <- old(goId2Sc) :: g != event.key ==> goId2Sc[g] == old(goId2Sc)[g]
      ensures goId2Sc[event.key] ==
              if event.key in old(goId2Sc) then (if replace then old(event.sc) else old(goId2Sc)[event.key])
              else match NearestTracked(goId2PGoId, old(goId2Sc), event.key)
                   case Some(a) => EBPFSpanContext(old(goId2Sc)[a].traceId, newSpanId)
                   case None => old(event.sc)
      ensures event.sc == if event.key in old(goId2Sc) then old(event.sc) else goId2Sc[event.key]
      ensures event.psc ==
              if event.key !in old(goId2Sc) && NearestTracked(goId2PGoId, old(goId2Sc), event.key).Some?
              then old(goId2Sc)[NearestTracked(goId2PGoId, old(goId2Sc), event.key).value]
              else old(event.psc)
    {
      var goid := event.key;
      if goid in goId2Sc {
        if replace {
          goId2Sc := goId2Sc[goid := event.sc];
        }
      } else {
        var psc, ok, _ := GetAncestorSc(goid);
        if ok {
          event.psc := psc;
          event.sc := event.sc.(traceId := event.psc.traceId);
          event.sc := event.sc.(spanId := newSpanId);
        }
        goId2Sc := goId2Sc[goid := event.sc];
      }
    }

    method MustEnrichSpan(event: Span, goid: Goid)
      modifies event
      ensures goid in goId2Sc && old(event.spanContext).spanId != goId2Sc[goid].spanId ==>
              && event.spanContext == EBPFSpanContext(goId2Sc[goid].traceId, old(event.spanContext).spanId)
              && event.parentSpanContext == goId2Sc[goid]
      ensures !(goid in goId2Sc && old(event.spanContext).spanId != goId2Sc[goid].spanId) ==>
              && event.spanContext == old(event.spanContext)
              && event.parentSpanContext == old(event.parentSpanContext)
    {
      var currentSc := event.spanContext;
      for i := 0 to MAX_RETRY
        invariant i > 0 ==> goid !in goId2Sc
        invariant event.spanContext == old(event.spanContext)
        invariant event.parentSpanContext == old(event.parentSpanContext)
      {
        if goid in goId2Sc {
          var sc := goId2Sc[goid];
          if currentSc.spanId != sc.spanId {
            currentSc := currentSc.(traceId := sc.traceId);
            event.spanContext := currentSc;
            event.parentSpanContext := sc;
          }
          return;
        }
      }
    }
  }

  // ---------- Runs ----------

  datatype State = State(parents: Parents, spans: Spans)

  datatype Op =
    | Link(child: Goid, parent: Goid)
    | Register(goid: Goid, sc: EBPFSpanContext, newSpanId: nat, replace: bool)

  function Step(s: State, op: Op): State
    requires ParentsBelow(s.parents)
  {
    match op
    case Link(child, parent) => s.(parents := s.parents[child := parent])
    case Register(goid, sc, newSpanId, replace) =>
      s.(spans := Registered(s.parents, s.spans, goid, sc, newSpanId, replace))
  }

  /** a is goid or an ancestor of it. */
  predicate OnChain(parents: Parents, a: Goid, goid: Goid)
    requires ParentsBelow(parents)
    decreases goid
  {
    a == goid || (goid in parents && OnChain(parents, a, parents[goid]))
  }

  /** The new context is in the trace of the nearest tracked ancestor and of the tracked goroutines right below. */
  ghost predicate ReplacementFits(s: State, goid: Goid, sc: EBPFSpanContext)
    requires ParentsBelow(s.parents)
  {
    && (NearestTracked(s.parents, s.spans, goid).Some? ==>
          s.spans[NearestTracked(s.parents, s.spans, goid).value].traceId == sc.traceId)
    && forall g <- s.spans :: NearestTracked(s.parents, s.spans, g) == Some(goid) ==> s.spans[g].traceId == sc.traceId
  }

  /**
   A link is to an older goroutine, and nothing at or below the child has a span yet. A goroutine registers
   before those below it, and is registered again only with a context that fits.
   */
  ghost predicate Legal(s: State, op: Op)
    requires ParentsBelow(s.parents)
  {
    match op
    case Link(child, parent) => parent < child && forall g <- s.spans :: !OnChain(s.parents, child, g)
    case Register(goid, sc, _, replace) =>
      goid != 1 &&
      if goid in s.spans then replace ==> ReplacementFits(s, goid, sc)
      else forall g <- s.spans :: !OnChain(s.parents, goid, g)
  }

  ghost predicate LegalRun(s: State, ops: seq<Op>)
    decreases |ops|
  {
    ops == [] ||
    (ParentsBelow(s.parents) && Legal(s, ops[0]) && LegalRun(Step(s, ops[0]), ops[1..]))
  }

  function Run(s: State, ops: seq<Op>): State
    requires LegalRun(s, ops)
    decreases |ops|
  {
    if ops == [] then s else Run(Step(s, ops[0]), ops[1..])
  }

  /** Every tracked goroutine belongs to the trace of its nearest tracked proper ancestor. */
  ghost predicate TracesInherited(s: State)
    requires ParentsBelow(s.parents)
  {
    forall g <- s.spans :: NearestTracked(s.parents, s.spans, g).Some? ==>
      s.spans[g].traceId == s.spans[NearestTracked(s.parents, s.spans, g).value].traceId
  }

  ghost predicate Inv(s: State) {
    ParentsBelow(s.parents) && 1 !in s.spans && TracesInherited(s)
  }

  /** A link above other goroutines only does not change what they inherit. */
  lemma {:induction false} LinkElsewhere(s: State, child: Goid, parent: Goid, g: Goid)
    requires ParentsBelow(s.parents) && parent < child && !OnChain(s.parents, child, g)
    ensures ParentsBelow(s.parents[child := parent])
    ensures NearestTracked(s.parents[child := parent], s.spans, g) == NearestTracked(s.parents, s.spans, g)
    decreases g
  {
    if g in s.parents && s.parents[g] !in s.spans {
      LinkElsewhere(s, child, parent, s.parents[g]);
    }
  }

  /** A new span is only seen by the goroutines below it. */
  lemma {:induction false} RegisterElsewhere(s: State, goid: Goid, sc: EBPFSpanContext, g: Goid)
    requires ParentsBelow(s.parents)
    ensures NearestTracked(s.parents, s.spans[goid := sc], g) == NearestTracked(s.parents, s.spans, g)
            || (NearestTracked(s.parents, s.spans[goid := sc], g) == Some(goid) && goid < g
              && OnChain(s.parents, goid, g))
    decreases g
  {
    if g in s.parents && s.parents[g] !in s.spans && s.parents[g] != goid {
      RegisterElsewhere(s, goid, sc, s.parents[g]);
    }
  }

  /**
   Once goroutine 1 has a span, a walk from a goroutine it started never comes to an end: from empty maps, a link
   from 2 to 1 and the registration of 1 are enough.
   */
  lemma WalkCanSpin(sc: EBPFSpanContext, newSpanId: nat, replace: bool)
    ensures var s := Step(State(map[], map[]), Link(2, 1));
            var t := Step(s, Register(1, sc, newSpanId, replace));
            t.parents == map[2 := 1] && t.spans == map[1 := sc] && !Terminates(t.parents, t.spans, 2)
  {
    var parents, spans := map[2 := 1], map[1 := sc];
    assert NearestTracked(parents, map[], 1) == None;
    assert NearestTracked(parents, spans, 2) == Some(1);
    TerminatesIff(parents, spans, 2);
  }

  /**
   What a registration does, with and without replacing: a goroutine without a span gets the trace of its nearest
   tracked ancestor and the new span id, or else the context it came with; one that has a span keeps it, or gets
   that context when replacing. Nothing else changes.
   */
  lemma RegistrationEffect(s: State, goid: Goid, sc: EBPFSpanContext, newSpanId: nat, replace: bool)
    requires ParentsBelow(s.parents)
    ensures var t := Step(s, Register(goid, sc, newSpanId, replace));
            && t.parents == s.parents && t.spans.Keys == s.spans.Keys + {goid}
            && (forall g <- s.spans :: g != goid ==> t.spans[g] == s.spans[g])
            && t.spans[goid] ==
               if goid in s.spans then (if replace then sc else s.spans[goid])
               else match NearestTracked(s.parents, s.spans, goid)
                    case Some(a) => EBPFSpanContext(s.spans[a].traceId, newSpanId)
                    case None => sc
  {
  }

  /** Who is nearest depends only on which goroutines are tracked. */
  lemma {:induction false} NearestOfTracked(parents: Parents, spans: Spans, others: Spans, g: Goid)
    requires ParentsBelow(parents) && spans.Keys == others.Keys
    ensures NearestTracked(parents, spans, g) == NearestTracked(parents, others, g)
    decreases g
  {
    if g in parents && parents[g] !in spans {
      NearestOfTracked(parents, spans, others, parents[g]);
    }
  }

  /** Replacing the context of a tracked goroutine keeps the traces inherited exactly when the new one fits. */
  lemma ReplacementKeepsTracesIff(s: State, goid: Goid, sc: EBPFSpanContext, newSpanId: nat)
    requires ParentsBelow(s.parents) && TracesInherited(s) && goid in s.spans
    ensures TracesInherited(Step(s, Register(goid, sc, newSpanId, true))) <==> ReplacementFits(s, goid, sc)
  {
    var t := Step(s, Register(goid, sc, newSpanId, true));
    forall g ensures NearestTracked(t.parents, t.spans, g) == NearestTracked(s.parents, s.spans, g) {
      NearestOfTracked(s.parents, t.spans, s.spans, g);
    }
  }

  /**
   A server span that starts a trace of its own on a goroutine that had inherited one: goroutine 3 is a child of
   2, both are in trace 1 after registering, and 3 registers again in trace 2.
   */
  lemma ReplacementBreaksTraces()
    ensures var first := EBPFSpanContext(1, 1);
            var ops := [Link(3, 2), Register(2, first, 0, true), Register(3, EBPFSpanContext(2, 2), 3, true)];
            && LegalRun(State(map[], map[]), ops)
            && var s := Run(State(map[], map[]), ops);
            && s.spans == map[2 := first, 3 := EBPFSpanContext(1, 3)] && Inv(s)
            && !TracesInherited(Step(s, Register(3, EBPFSpanContext(2, 4), 0, true)))
  {
    var s0 := State(map[], map[]);
    var first := EBPFSpanContext(1, 1);
    var a, b, c := Link(3, 2), Register(2, first, 0, true), Register(3, EBPFSpanContext(2, 2), 3, true);
    var s1 := State(map[3 := 2], map[]);
    var s2 := State(map[3 := 2], map[2 := first]);
    var s3 := State(map[3 := 2], map[2 := first, 3 := EBPFSpanContext(1, 3)]);
    assert Step(s0, a) == s1 && Step(s1, b) == s2 && Step(s2, c) == s3;
    assert [a, b, c][1..] == [b, c] && [b, c][1..] == [c] && [c][1..] == [];
    assert Legal(s0, a) && Legal(s1, b) && Legal(s2, c);
    hide Step, Legal;
    assert LegalRun(s3, []) && Run(s3, []) == s3;
    assert LegalRun(s2, [c]) && Run(s2, [c]) == s3;
    assert LegalRun(s1, [b, c]) && Run(s1, [b, c]) == s3;
    assert LegalRun(s0, [a, b, c]) && Run(s0, [a, b, c]) == s3;
    assert NearestTracked(s3.parents, s3.spans, 3) == Some(2);
    ReplacementKeepsTracesIff(s3, 3, EBPFSpanContext(2, 4), 0);
  }

  lemma StepInv(s: State, op: Op)
    requires Inv(s) && Legal(s, op)
    ensures Inv(Step(s, op))
  {
    var t := Step(s, op);
    match op
    case Link(child, parent) =>
      forall g <- t.spans
        ensures NearestTracked(t.parents, t.spans, g) == NearestTracked(s.parents, s.spans, g)
      {
        LinkElsewhere(s, child, parent, g);
      }
    case Register(goid, sc, newSpanId, replace) =>
      if goid in s.spans {
        ReplacementKeepsTracesIff(s, goid, sc, newSpanId);
      } else {
        forall g <- t.spans
          ensures NearestTracked(t.parents, t.spans, g) == NearestTracked(s.parents, s.spans, g)
        {
          RegisterElsewhere(s, goid, t.spans[goid], g);
        }
      }
  }

  /** In every legal run traces are inherited, and every walk a registration makes comes to an end. */
  lemma {:induction false} RunInv(s: State, ops: seq<Op>)
    requires Inv(s) && LegalRun(s, ops)
    ensures Inv(Run(s, ops))
    ensures forall g :: Terminates(Run(s, ops).parents, Run(s, ops).spans, g)
    decreases |ops|
  {
    if ops == [] {
      forall g ensures Terminates(s.parents, s.spans, g) {
        TerminatesIff(s.parents, s.spans, g);
      }
    } else {
      StepInv(s, ops[0]);
      RunInv(Step(s, ops[0]), ops[1..]);
    }
  }

  /** So all tracked goroutines along a chain of ancestors belong to one trace. */
  lemma {:induction false} ChainSharesTrace(s: State, a: Goid, g: Goid)
    requires Inv(s) && a in s.spans && g in s.spans && OnChain(s.parents, a, g)
    ensures s.spans[a].traceId == s.spans[g].traceId
    decreases g
  {
    if a != g {
      NearestOnWay(s, a, g);
      ChainSharesTrace(s, a, NearestTracked(s.parents, s.spans, g).value);
    }
  }

  /** A tracked proper ancestor is the nearest one or an ancestor of it. */
  lemma {:induction false} NearestOnWay(s: State, a: Goid, g: Goid)
    requires ParentsBelow(s.parents) && a in s.spans && a != g && OnChain(s.parents, a, g)
    ensures NearestTracked(s.parents, s.spans, g).Some?
    ensures OnChain(s.parents, a, NearestTracked(s.parents, s.spans, g).value)
    decreases g
  {
    if s.parents[g] !in s.spans {
      NearestOnWay(s, a, s.parents[g]);
    }
  }

  /**
   Whatever the order of registration, a registration keeps the traces inherited exactly when every tracked
   goroutine that now has the new one as its nearest tracked ancestor is already in the trace it was given.
   */
  lemma RegistrationKeepsTracesIff(s: State, goid: Goid, sc: EBPFSpanContext, newSpanId: nat, replace: bool)
    requires Inv(s) && goid != 1 && goid !in s.spans
    ensures var t := Step(s, Register(goid, sc, newSpanId, replace));
            TracesInherited(t) <==>
            forall g <- s.spans :: NearestTracked(t.parents, t.spans, g) == Some(goid) ==>
              s.spans[g].traceId == t.spans[goid].traceId
  {
    var t := Step(s, Register(goid, sc, newSpanId, replace));
    forall g <- t.spans
      ensures NearestTracked(t.parents, t.spans, g) == NearestTracked(s.parents, s.spans, g)
              || (NearestTracked(t.parents, t.spans, g) == Some(goid) && goid < g)
    {
      RegisterElsewhere(s, goid, t.spans[goid], g);
    }
  }
}
