/**
 The delayed event queue of pkg/instrumentors/utils/priority_queue.go: events wait for a fixed time after
 they arrive, so that events that arrive late can still be dispatched in the order of their priority.

 The clock is a parameter of every step. The queue's lock makes Push, Register, Unregister and one turn of
 Run's loop atomic, so a run is a sequence of such steps.
 */
module DelayQueue {
  import opened Machine
  import opened EventHeap

  /** delayDuration without its sign, and the bound on the queue (0: no bound). */
  datatype Config = Config(delay: u64, maxSize: u64)

  /**
   The queue and what has happened to it. `dispatched` is in the order of dispatch; `misordered` counts the
   events dispatched after one of higher priority number, for which an error is logged.
   */
  datatype State = State(
    queued: multiset<Event>, handlers: set<string>, previous: u64,
    accepted: multiset<Event>, handled: multiset<Event>, dropped: multiset<Event>,
    dispatched: seq<Event>, misordered: nat)

  datatype Step =
    | Push(value: int, priority: u64, iType: string, now: u64)
    | Register(iType: string, now: u64)
    | Unregister(iType: string, now: u64)
    | Turn(now: u64)

  const EMPTY: State :=
    State(multiset{}, {}, 0, multiset{}, multiset{}, multiset{}, [], 0)

  /** Go's conversion of a uint64 to int. */
  function AsInt(x: u64): int {
    if x < 0x8000_0000_0000_0000 then x else x - TWO_64
  }

  predicate Full(cfg: Config, size: nat) {
    cfg.maxSize != 0 && size >= AsInt(cfg.maxSize)
  }

  /** Events that arrived after this moment still have to wait. */
  function Threshold(cfg: Config, now: u64): u64 {
    Sub64(now, cfg.delay)
  }

  function Take(s: State, e: Event): State {
    var t := s.(queued := s.queued - multiset{e}, previous := e.priority, dispatched := s.dispatched + [e],
                misordered := s.misordered + if e.priority < s.previous then 1 else 0);
    if e.iType in s.handlers then t.(handled := t.handled + multiset{e}) else t.(dropped := t.dropped + multiset{e})
  }

  ghost predicate IsHead(s: State, e: Event) {
    e in s.queued && forall f :: f in s.queued ==> e.priority <= f.priority
  }

  /** The possible effects of a step; among events of least priority the heap may pick any. */
  ghost predicate Next(cfg: Config, s: State, step: Step, t: State) {
    match step
    case Push(value, priority, iType, now) =>
      var e := Event(value, iType, now, priority);
      t == if Full(cfg, |s.queued|) then s
           else s.(queued := s.queued + multiset{e}, accepted := s.accepted + multiset{e})
    case Register(iType, _) => t == s.(handlers := s.handlers + {iType})
    case Unregister(iType, _) => t == s.(handlers := s.handlers - {iType})
    case Turn(now) =>
      if s.queued == multiset{} then t == s
      else exists e :: IsHead(s, e) && t == if e.arriveAt > Threshold(cfg, now) then s else Take(s, e)
  }

  // ---------- The queue in place ----------

  class EventPriorityQueue {
    const queue: PriorityQueue
    const cfg: Config
    var handlerMap: set<string>  // the types that have a handler
    var previousPriority: u64  // local to Run in the source

    ghost var accepted: multiset<Event>
    ghost var handled: multiset<Event>
    ghost var dropped: multiset<Event>
    ghost var dispatched: seq<Event>
    ghost var misordered: nat

    constructor (cfg: Config)
      ensures this.cfg == cfg && Valid() && View() == EMPTY && fresh(queue)
    {
      queue := new PriorityQueue();
      this.cfg := cfg;
      handlerMap, previousPriority := {}, 0;
      accepted, handled, dropped, dispatched, misordered := multiset{}, multiset{}, multiset{}, [], 0;
      new;
      assert Events(queue.items) == [];
    }

    ghost predicate Valid()
      reads this, queue, queue.items
    {
      Indexed(queue.items) && HeapOrder(queue.items)
    }

    ghost function View(): State
      reads this, queue
    {
      State(multiset(Events(queue.items)), handlerMap, previousPriority, accepted, handled, dropped, dispatched,
            misordered)
    }

    method Push(value: int, priority: u64, iType: string, now: u64)
      requires Valid()
      modifies this, queue, queue.items
      ensures Valid() && Next(cfg, old(View()), Step.Push(value, priority, iType, now), View())
      ensures forall x <- queue.items :: x in old(queue.items) || fresh(x)
    {
      if cfg.maxSize != 0 && queue.Len() >= AsInt(cfg.maxSize) {
        return;
      }
      var item := new Item(value, iType, now, priority);
      queue.HeapPush(item);
      accepted := accepted + multiset{item.Evt()};
    }

    method Register(iType: string, now: u64)
      requires Valid()
      modifies this
      ensures Valid() && Next(cfg, old(View()), Step.Register(iType, now), View())
    {
      handlerMap := handlerMap + {iType};
    }

    method Unregister(iType: string, now: u64)
      requires Valid()
      modifies this
      ensures Valid() && Next(cfg, old(View()), Step.Unregister(iType, now), View())
    {
      handlerMap := handlerMap - {iType};
    }

    /** One turn of the loop in Run. */
    method Turn(now: u64)
      requires Valid()
      modifies this, queue, queue.items
      ensures Valid() && Next(cfg, old(View()), Step.Turn(now), View())
      ensures forall x <- queue.items :: x in old(queue.items)
    {
      hide Events, Next, IsHead, Take, Indexed, HeapOrder, Threshold;
      ghost var before := View();
      ghost var items := queue.items;
      if queue.Len() == 0 {
        EmptyTurn(cfg, before, now, items);
        return;
      }
      var event := queue.HeapPop();
      HeadOfItems(items, event, before);
      TurnAs(cfg, before, now, event.Evt());
      assert forall k :: 0 <= k < |queue.items| ==> queue.items[k] in items;
      if event.arriveAt > Threshold(cfg, now) {
        queue.HeapPush(event);
        assert View() == before;
        return;
      }
      Dispatch(event);
      TakeIs(before, event.Evt(), View());
    }

    /** The rest of a turn, for an event that has waited long enough. */
    method Dispatch(event: Item)
      modifies this
      ensures handlerMap == old(handlerMap) && accepted == old(accepted) && previousPriority == event.priority
      ensures dispatched == old(dispatched) + [event.Evt()]
      ensures misordered == old(misordered) + if event.priority < old(previousPriority) then 1 else 0
      ensures handled == old(handled) + if event.iType in handlerMap then multiset{event.Evt()} else multiset{}
      ensures dropped == old(dropped) + if event.iType in handlerMap then multiset{} else multiset{event.Evt()}
    {
      if event.priority < previousPriority {
        misordered := misordered + 1;
      }
      previousPriority := event.priority;
      dispatched := dispatched + [event.Evt()];
      if event.iType !in handlerMap {
        dropped := dropped + multiset{event.Evt()};
        return;
      }
      handled := handled + multiset{event.Evt()};
    }
  }

  /** Take from the fields the queue keeps. */
  lemma TakeIs(s: State, e: Event, t: State)
    requires s.queued == t.queued + multiset{e} && t.handlers == s.handlers && t.accepted == s.accepted
    requires t.previous == e.priority && t.dispatched == s.dispatched + [e]
    requires t.misordered == s.misordered + if e.priority < s.previous then 1 else 0
    requires t.handled == s.handled + if e.iType in s.handlers then multiset{e} else multiset{}
    requires t.dropped == s.dropped + if e.iType in s.handlers then multiset{} else multiset{e}
    ensures t == Take(s, e)
  {
    TakeFields(s, e);
    hide Take;
    assert s.queued - multiset{e} == t.queued;
  }

  lemma TakeOrder(s: State, e: Event)
    ensures Take(s, e).previous == e.priority && Take(s, e).accepted == s.accepted
    ensures Take(s, e).misordered == s.misordered + if e.priority < s.previous then 1 else 0
  {
  }

  lemma EmptyTurn(cfg: Config, s: State, now: u64, items: seq<Item>)
    requires items == [] && s.queued == multiset(Events(items))
    ensures Next(cfg, s, Turn(now), s)
  {
    assert Events(items) == [];
  }

  lemma HeadOfItems(items: seq<Item>, item: Item, s: State)
    requires item in items && forall x <- items :: item.priority <= x.priority
    requires s.queued == multiset(Events(items))
    ensures IsHead(s, item.Evt())
  {
    var i :| 0 <= i < |items| && items[i] == item;
    assert Events(items)[i] == item.Evt();
    forall f | f in s.queued ensures item.priority <= f.priority {
      var k :| 0 <= k < |items| && f == Events(items)[k];
      assert items[k] in items;
    }
  }

  lemma TurnAs(cfg: Config, s: State, now: u64, e: Event)
    requires IsHead(s, e)
    ensures Next(cfg, s, Turn(now), if e.arriveAt > Threshold(cfg, now) then s else Take(s, e))
  {
  }

  lemma TakeFields(s: State, e: Event)
    ensures var known := e.iType in s.handlers;
            Take(s, e) == State(
              s.queued - multiset{e}, s.handlers, e.priority, s.accepted,
              s.handled + (if known then multiset{e} else multiset{}),
              s.dropped + (if known then multiset{} else multiset{e}),
              s.dispatched + [e], s.misordered + if e.priority < s.previous then 1 else 0)
  {
    assert s.handled + multiset{} == s.handled && s.dropped + multiset{} == s.dropped;
  }

  // ---------- Runs ----------

  /** From the empty queue the steps can lead to s. */
  ghost predicate Reaches(cfg: Config, steps: seq<Step>, s: State)
    decreases |steps|
  {
    if steps == [] then
      s == EMPTY
    else
      var n := |steps| - 1;
      var before, step := steps[..n], steps[n];
      exists prev :: Reaches(cfg, before, prev) && Next(cfg, prev, step, s)
  }

  /** The three things a turn can do: find the queue empty, put the head back, or dispatch it. */
  lemma TurnCases(cfg: Config, s: State, now: u64, t: State) returns (e: Event)
    requires Next(cfg, s, Turn(now), t)
    ensures t == s || (IsHead(s, e) && e.arriveAt <= Threshold(cfg, now) && t == Take(s, e))
    ensures t == s ==> s.queued == multiset{} || (IsHead(s, e) && e.arriveAt > Threshold(cfg, now))
  {
    if s.queued != multiset{} {
      e :| IsHead(s, e) && t == if e.arriveAt > Threshold(cfg, now) then s else Take(s, e);
      assert t != s <== e.arriveAt <= Threshold(cfg, now) by {
        assert |Take(s, e).dispatched| == |s.dispatched| + 1;
      }
    } else {
      e := Event(0, "", 0, 0);
    }
  }

  lemma TakeConserves(s: State, e: Event)
    requires e in s.queued
    ensures var t := Take(s, e);
            && t.accepted == s.accepted && t.handled + t.dropped == s.handled + s.dropped + multiset{e}
            && t.queued + multiset{e} == s.queued && |t.queued| < |s.queued|
            && multiset(t.dispatched) == multiset(s.dispatched) + multiset{e}
  {
  }

  /** The clock never goes back, and shows at least one delay since its epoch. */
  ghost predicate ClockOk(cfg: Config, steps: seq<Step>) {
    && (forall i, j :: 0 <= i < j < |steps| ==> steps[i].now <= steps[j].now)
    && (forall i :: 0 <= i < |steps| ==> cfg.delay <= steps[i].now)
  }

  // ---------- Conservation and bounds ----------

  /** Nothing is lost or duplicated: every accepted event is handled, dropped or still queued. */
  lemma {:induction false} Conservation(cfg: Config, steps: seq<Step>, s: State)
    requires Reaches(cfg, steps, s)
    ensures s.accepted == s.handled + s.dropped + s.queued
    ensures multiset(s.dispatched) == s.handled + s.dropped
    decreases |steps|
  {
    if steps != [] {
      var step := steps[|steps| - 1];
      var prev :| Reaches(cfg, steps[..|steps| - 1], prev) && Next(cfg, prev, step, s);
      Conservation(cfg, steps[..|steps| - 1], prev);
      if step.Turn? {
        var e := TurnCases(cfg, prev, step.now, s);
        hide Take, Next, IsHead;
        if s != prev {
          TakeConserves(prev, e);
        }
      }
    }
  }

  /** A nonzero bound on the queue is never exceeded. */
  lemma {:induction false} SizeBounded(cfg: Config, steps: seq<Step>, s: State)
    requires Reaches(cfg, steps, s) && cfg.maxSize != 0
    ensures |s.queued| <= cfg.maxSize
    decreases |steps|
  {
    if steps != [] {
      var step := steps[|steps| - 1];
      var prev :| Reaches(cfg, steps[..|steps| - 1], prev) && Next(cfg, prev, step, s);
      SizeBounded(cfg, steps[..|steps| - 1], prev);
      if step.Turn? {
        var e := TurnCases(cfg, prev, step.now, s);
        hide Take, Next;
        if s != prev {
          TakeConserves(prev, e);
        }
      }
    }
  }

  lemma ThresholdExact(cfg: Config, now: u64)
    ensures Threshold(cfg, now) == if cfg.delay <= now then now - cfg.delay else now - cfg.delay + TWO_64
  {
    if cfg.delay <= now {
      RemainderUnique(now - cfg.delay, TWO_64, 0, now - cfg.delay);
    } else {
      RemainderUnique(now - cfg.delay, TWO_64, -1, now - cfg.delay + TWO_64);
    }
  }

  /**
   A turn dispatches at most one event, a head of the queue, and only once its delay has passed (provided the
   clock shows at least one delay); and if the delay has passed for everything queued it does dispatch one.
   */
  lemma DispatchAfterDelay(cfg: Config, s: State, now: u64, t: State) returns (e: Event)
    requires Next(cfg, s, Turn(now), t)
    ensures t == s || (IsHead(s, e) && t == Take(s, e) && (e.arriveAt + cfg.delay <= now || now < cfg.delay))
    ensures cfg.delay <= now && s.queued != multiset{} && (forall f :: f in s.queued ==> f.arriveAt + cfg.delay <= now)
            ==> t != s
    ensures t != s ==>
            && t.handled == s.handled + (if e.iType in s.handlers then multiset{e} else multiset{})
            && t.dropped == s.dropped + (if e.iType in s.handlers then multiset{} else multiset{e})
  {
    hide Take, Next, Threshold;
    e := TurnCases(cfg, s, now, t);
    ThresholdExact(cfg, now);
    TakeFields(s, e);
  }

  /**
   A pushed event is accepted exactly when there is no bound or the queue is below it; a bound of 2^63 or more
   is a negative number after the conversion to int, and nothing is ever accepted.
   */
  lemma AcceptedIffRoom(cfg: Config, s: State, value: int, priority: u64, iType: string, now: u64, t: State)
    requires Next(cfg, s, Push(value, priority, iType, now), t)
    ensures var e := Event(value, iType, now, priority);
            if cfg.maxSize == 0 || |s.queued| < cfg.maxSize < 0x8000_0000_0000_0000 then
              t.accepted == s.accepted + multiset{e} && t.queued == s.queued + multiset{e}
            else
              t == s
  {
  }

  // ---------- What is logged ----------

  /** How often an event has a lower priority number than the one before it. */
  function Inversions(events: seq<Event>): nat {
    if |events| <= 1 then 0
    else
      var n := |events| - 1;
      Inversions(events[..n]) + if events[n].priority < events[n - 1].priority then 1 else 0
  }

  function LastPriority(events: seq<Event>): u64 {
    if events == [] then 0 else events[|events| - 1].priority
  }

  lemma OneMoreDispatched(events: seq<Event>, e: Event)
    ensures Inversions(events + [e]) == Inversions(events) + if e.priority < LastPriority(events) then 1 else 0
    ensures LastPriority(events + [e]) == e.priority
  {
    assert (events + [e])[..|events|] == events;
  }

  lemma StepLogged(cfg: Config, s: State, step: Step, t: State)
    requires Next(cfg, s, step, t)
    requires s.misordered == Inversions(s.dispatched) && s.previous == LastPriority(s.dispatched)
    ensures t.misordered == Inversions(t.dispatched) && t.previous == LastPriority(t.dispatched)
  {
    hide Inversions, LastPriority;
    if step.Turn? {
      var e := TurnCases(cfg, s, step.now, t);
      hide Next, Take;
      if t != s {
        TakeFields(s, e);
        OneMoreDispatched(s.dispatched, e);
      }
    }
  }

  /** In any run an error is logged once for every event dispatched right after one of higher priority number. */
  lemma {:induction false} LoggedAreInversions(cfg: Config, steps: seq<Step>, s: State)
    requires Reaches(cfg, steps, s)
    ensures s.misordered == Inversions(s.dispatched) && s.previous == LastPriority(s.dispatched)
    decreases |steps|
  {
    if steps != [] {
      var n := |steps| - 1;
      var prev :| Reaches(cfg, steps[..n], prev) && Next(cfg, prev, steps[n], s);
      hide Next;
      LoggedAreInversions(cfg, steps[..n], prev);
      StepLogged(cfg, prev, steps[n], s);
    }
  }

  // ---------- Handlers ----------

  /** Step i registers the type, and none after it unregisters it. */
  ghost predicate RegisteredAt(steps: seq<Step>, i: int, iType: string) {
    && 0 <= i < |steps| && steps[i].Register? && steps[i].iType == iType
    && forall j :: i < j < |steps| ==> !(steps[j].Unregister? && steps[j].iType == iType)
  }

  /** The last of the steps that register or unregister the type registers it. */
  ghost predicate LastRegistered(steps: seq<Step>, iType: string) {
    exists i :: RegisteredAt(steps, i, iType)
  }

  lemma RegisteredOneMore(steps: seq<Step>, iType: string)
    requires steps != []
    ensures var n := |steps| - 1;
            LastRegistered(steps, iType) <==>
            || (steps[n].Register? && steps[n].iType == iType)
            || (LastRegistered(steps[..n], iType) && !(steps[n].Unregister? && steps[n].iType == iType))
  {
    var n := |steps| - 1;
    var init := steps[..n];
    assert forall k :: 0 <= k < n ==> init[k] == steps[k];
    if i :| RegisteredAt(steps, i, iType) {
      assert i < n ==> RegisteredAt(init, i, iType);
    }
    if steps[n].Register? && steps[n].iType == iType {
      assert RegisteredAt(steps, n, iType);
    } else if i :| RegisteredAt(init, i, iType) {
      assert !(steps[n].Unregister? && steps[n].iType == iType) ==> RegisteredAt(steps, i, iType);
    }
  }

  /** After any run the types that have a handler are those registered and not unregistered since. */
  lemma {:induction false} HandlersIff(cfg: Config, steps: seq<Step>, s: State, iType: string)
    requires Reaches(cfg, steps, s)
    ensures iType in s.handlers <==> LastRegistered(steps, iType)
    decreases |steps|
  {
    if steps != [] {
      var n := |steps| - 1;
      var prev :| Reaches(cfg, steps[..n], prev) && Next(cfg, prev, steps[n], s);
      hide Next, LastRegistered;
      HandlersIff(cfg, steps[..n], prev, iType);
      StepHandlers(cfg, prev, steps[n], s, iType);
      RegisteredOneMore(steps, iType);
    }
  }

  lemma StepHandlers(cfg: Config, s: State, step: Step, t: State, iType: string)
    requires Next(cfg, s, step, t)
    ensures iType in t.handlers <==>
            || (step.Register? && step.iType == iType)
            || (iType in s.handlers && !(step.Unregister? && step.iType == iType))
  {
    if step.Turn? {
      var e := TurnCases(cfg, s, step.now, t);
      TakeFields(s, e);
    }
  }

  /** In any run a turn hands the event it dispatches to a handler exactly when the type is registered then. */
  lemma DispatchedToHandler(cfg: Config, steps: seq<Step>, s: State, now: u64, t: State) returns (e: Event)
    requires Reaches(cfg, steps, s) && Next(cfg, s, Turn(now), t)
    ensures t != s ==>
            && IsHead(s, e) && t.dispatched == s.dispatched + [e]
            && t.handled == s.handled + (if LastRegistered(steps, e.iType) then multiset{e} else multiset{})
            && t.dropped == s.dropped + (if LastRegistered(steps, e.iType) then multiset{} else multiset{e})
  {
    e := DispatchAfterDelay(cfg, s, now, t);
    HandlersIff(cfg, steps, s, e.iType);
    TakeFields(s, e);
    hide Take, Next, Reaches, LastRegistered, IsHead;
  }

  // ---------- Order ----------

  /** Every event is pushed between c and c + jitter after the moment its priority names. */
  ghost predicate Lateness(steps: seq<Step>, c: int, jitter: nat) {
    forall i :: 0 <= i < |steps| && steps[i].Push? ==> c <= steps[i].now - steps[i].priority <= c + jitter
  }

  ghost predicate Sorted(events: seq<Event>) {
    forall i, j :: 0 <= i < j < |events| ==> events[i].priority <= events[j].priority
  }

  function LastClock(steps: seq<Step>): u64 {
    if steps == [] then 0 else steps[|steps| - 1].now
  }

  /** Nothing queued, and nothing that can still arrive, belongs before what has been dispatched. */
  ghost predicate InOrder(cfg: Config, s: State, c: int, clock: u64) {
    && s.misordered == 0
    && Sorted(s.dispatched)
    && (forall e :: e in s.queued ==> c <= e.arriveAt - e.priority && s.previous <= e.priority)
    && (forall e <- s.dispatched :: e.priority <= s.previous)
    && (s.previous == 0 || s.previous + c + cfg.delay <= clock)
  }

  /** Dispatching the head keeps the order. */
  lemma InOrderTake(cfg: Config, s: State, e: Event, c: int, clock: u64, now: u64)
    requires InOrder(cfg, s, c, clock) && IsHead(s, e) && e.arriveAt + cfg.delay <= now
    ensures InOrder(cfg, Take(s, e), c, now)
  {
    TakeFields(s, e);
    hide Take;
    var t := Take(s, e);
    forall f | f in t.queued ensures c <= f.arriveAt - f.priority && t.previous <= f.priority {
      assert f in s.queued;
    }
    assert Sorted(t.dispatched) by {
      forall i | 0 <= i < |s.dispatched| ensures t.dispatched[i].priority <= e.priority {
        assert s.dispatched[i] in s.dispatched;
      }
    }
  }

  /** An event that is not too late belongs after everything dispatched. */
  lemma InOrderPush(cfg: Config, s: State, e: Event, c: int, clock: u64)
    requires InOrder(cfg, s, c, clock) && clock <= e.arriveAt && c <= e.arriveAt - e.priority <= c + cfg.delay
    ensures InOrder(cfg, s.(queued := s.queued + multiset{e}, accepted := s.accepted + multiset{e}), c, e.arriveAt)
  {
    var queued := s.queued + multiset{e};
    forall f | f in queued ensures c <= f.arriveAt - f.priority && s.previous <= f.priority {
      assert f == e || f in s.queued;
    }
  }

  lemma InOrderStep(cfg: Config, s: State, step: Step, t: State, c: int, clock: u64)
    requires InOrder(cfg, s, c, clock) && Next(cfg, s, step, t)
    requires clock <= step.now && cfg.delay <= step.now
    requires step.Push? ==> c <= step.now - step.priority <= c + cfg.delay
    ensures InOrder(cfg, t, c, step.now)
  {
    match step
    case Push(value, priority, iType, now) =>
      InOrderPush(cfg, s, Event(value, iType, now, priority), c, clock);
    case Turn(now) =>
      var e := DispatchAfterDelay(cfg, s, now, t);
      hide Next, Take;
      if t != s {
        InOrderTake(cfg, s, e, c, clock, now);
      }
    case _ =>
  }

  lemma {:induction false} InOrderRun(cfg: Config, steps: seq<Step>, s: State, c: int)
    requires Reaches(cfg, steps, s) && ClockOk(cfg, steps) && Lateness(steps, c, cfg.delay)
    ensures InOrder(cfg, s, c, LastClock(steps))
    decreases |steps|
  {
    if steps != [] {
      var n := |steps| - 1;
      var prev :| Reaches(cfg, steps[..n], prev) && Next(cfg, prev, steps[n], s);
      InOrderRun(cfg, steps[..n], prev, c);
      InOrderStep(cfg, prev, steps[n], s, c, LastClock(steps[..n]));
    }
  }

  /** No run whose events are at most `jitter` apart in lateness dispatches an event out of order. */
  ghost predicate AlwaysInOrder(cfg: Config, c: int, jitter: nat) {
    forall steps, s :: Reaches(cfg, steps, s) && ClockOk(cfg, steps) && Lateness(steps, c, jitter) ==>
      s.misordered == 0 && Sorted(s.dispatched)
  }

  lemma PushOne(cfg: Config, s: State, e: Event)
    requires s.queued == multiset{} && !Full(cfg, 0)
    ensures var t := s.(queued := multiset{e}, accepted := s.accepted + multiset{e});
            Next(cfg, s, Push(e.value, e.priority, e.iType, e.arriveAt), t) && IsHead(t, e)
  {
    assert s.queued + multiset{e} == multiset{e};
  }

  lemma TakeOne(cfg: Config, s: State, e: Event, now: u64)
    requires s.queued == multiset{e} && e.arriveAt + cfg.delay <= now
    ensures Next(cfg, s, Turn(now), Take(s, e)) && Take(s, e).queued == multiset{}
  {
    assert IsHead(s, e);
    ThresholdExact(cfg, now);
    TurnAs(cfg, s, now, e);
  }

  /** Push e, let it go at t1, push f, let it go at t2. */
  function OneAfterTheOther(e: Event, f: Event, t1: u64, t2: u64): seq<Step> {
    [Push(e.value, e.priority, e.iType, e.arriveAt), Turn(t1), Push(f.value, f.priority, f.iType, f.arriveAt), Turn(t2)]
  }

  /** The first event is dispatched before the second arrives, and then the second is. */
  lemma TwoEvents(cfg: Config, e: Event, f: Event, t1: u64, t2: u64) returns (s: State)
    requires !Full(cfg, 0) && e.arriveAt + cfg.delay <= t1 && f.arriveAt + cfg.delay <= t2
    ensures Reaches(cfg, OneAfterTheOther(e, f, t1, t2), s)
    ensures s.misordered == if f.priority < e.priority then 1 else 0
  {
    hide Take, Reaches;
    var a, b, g, h := Push(e.value, e.priority, e.iType, e.arriveAt), Turn(t1),
                      Push(f.value, f.priority, f.iType, f.arriveAt), Turn(t2);
    PushOne(cfg, EMPTY, e);
    var s1 := EMPTY.(queued := multiset{e}, accepted := EMPTY.accepted + multiset{e});
    TakeOne(cfg, s1, e, t1);
    var s2 := Take(s1, e);
    TakeOrder(s1, e);
    PushOne(cfg, s2, f);
    var s3 := s2.(queued := multiset{f}, accepted := s2.accepted + multiset{f});
    TakeOne(cfg, s3, f, t2);
    s := Take(s3, f);
    TakeOrder(s3, f);
    Start(cfg);
    hide Next, IsHead;
    TwoSteps(cfg, [], EMPTY, a, s1, b, s2);
    TwoSteps(cfg, [] + [a, b], s2, g, s3, h, s);
    assert [] + [a, b] + [g, h] == [a, b, g, h];
  }

  lemma Start(cfg: Config)
    ensures Reaches(cfg, [], EMPTY)
  {
  }

  lemma TwoSteps(cfg: Config, steps: seq<Step>, s0: State, a: Step, s1: State, b: Step, s2: State)
    requires Reaches(cfg, steps, s0) && Next(cfg, s0, a, s1) && Next(cfg, s1, b, s2)
    ensures Reaches(cfg, steps + [a, b], s2)
  {
    hide Next, Reaches;
    Extend(cfg, steps, s0, a, s1);
    Extend(cfg, steps + [a], s1, b, s2);
    assert steps + [a] + [b] == steps + [a, b];
  }

  /** Two events, the second later than the delay allows for: the first is gone when the second arrives. */
  lemma LateEventOvertaken(cfg: Config, c: int, jitter: nat) returns (steps: seq<Step>, s: State)
    requires cfg.delay < jitter && !Full(cfg, 0)
    requires -0x1000_0000_0000_0000 < c && c + jitter < 0x1000_0000_0000_0000
    ensures Reaches(cfg, steps, s) && ClockOk(cfg, steps) && Lateness(steps, c, jitter)
    ensures s.misordered == 1
  {
    var t := cfg.delay + jitter + Max(c, 0);
    steps, s := LateAt(cfg, c, jitter, t, t - c, t + cfg.delay - c - jitter);
  }

  lemma LateAt(cfg: Config, c: int, jitter: nat, t: u64, p: u64, q: u64) returns (steps: seq<Step>, s: State)
    requires !Full(cfg, 0) && t + 2 * cfg.delay < TWO_64 && cfg.delay <= t && q < p
    requires t - p == c && t + cfg.delay - q == c + jitter
    ensures Reaches(cfg, steps, s) && ClockOk(cfg, steps) && Lateness(steps, c, jitter) && s.misordered == 1
  {
    hide Reaches, ClockOk, Lateness, OneAfterTheOther;
    var t1, t2 := t + cfg.delay, t + 2 * cfg.delay;
    var e, f := Event(0, "", t, p), Event(0, "", t1, q);
    s := TwoEvents(cfg, e, f, t1, t2);
    steps := OneAfterTheOther(e, f, t1, t2);
    TwoEventsLate(cfg, c, jitter, e, f);
  }

  lemma TwoEventsLate(cfg: Config, c: int, jitter: nat, e: Event, f: Event)
    requires f.arriveAt == e.arriveAt + cfg.delay && f.arriveAt + cfg.delay < TWO_64 && cfg.delay <= e.arriveAt
    requires e.arriveAt - e.priority == c && f.arriveAt - f.priority == c + jitter
    ensures var steps := OneAfterTheOther(e, f, f.arriveAt, f.arriveAt + cfg.delay);
            ClockOk(cfg, steps) && Lateness(steps, c, jitter)
  {
  }

  lemma Extend(cfg: Config, steps: seq<Step>, s: State, step: Step, t: State)
    requires Reaches(cfg, steps, s) && Next(cfg, s, step, t)
    ensures Reaches(cfg, steps + [step], t)
  {
    var all := steps + [step];
    assert all[..|all| - 1] == steps && all[|all| - 1] == step;
  }

  /**
   The queue restores the order of priorities in every run in which events arrive with a lateness between c
   and c + jitter exactly when the delay is at least the jitter.
   */
  lemma InOrderIffDelayCoversJitter(cfg: Config, c: int, jitter: nat)
    requires !Full(cfg, 0)
    requires -0x1000_0000_0000_0000 < c && c + jitter < 0x1000_0000_0000_0000
    ensures AlwaysInOrder(cfg, c, jitter) <==> jitter <= cfg.delay
  {
    if jitter <= cfg.delay {
      forall steps, s | Reaches(cfg, steps, s) && ClockOk(cfg, steps) && Lateness(steps, c, jitter)
        ensures s.misordered == 0 && Sorted(s.dispatched)
      {
        InOrderRun(cfg, steps, s, c);
      }
    } else {
      var steps, s := LateEventOvertaken(cfg, c, jitter);
    }
  }
}
