/** How long an event can stay in the queue of pkg/instrumentors/utils/priority_queue.go. */
module QueueProgress {
  import opened Machine
  import opened EventHeap
  import opened DelayQueue

  /** The steps can lead from s to t. */
  ghost predicate Leads(cfg: Config, s: State, steps: seq<Step>, t: State)
    decreases |steps|
  {
    if steps == [] then s == t
    else exists next :: Next(cfg, s, steps[0], next) && Leads(cfg, next, steps[1..], t)
  }

  function Turns(steps: seq<Step>): nat {
    if steps == [] then 0 else (if steps[0].Turn? then 1 else 0) + Turns(steps[1..])
  }

  // ---------- Draining ----------

  /** The steps are turns, all made after the delay of everything queued is over. */
  ghost predicate DueTurns(cfg: Config, queued: multiset<Event>, steps: seq<Step>) {
    forall i :: 0 <= i < |steps| ==>
      && steps[i].Turn? && cfg.delay <= steps[i].now
      && forall f :: f in queued ==> f.arriveAt + cfg.delay <= steps[i].now
  }

  lemma DueTurn(cfg: Config, s: State, now: u64, t: State)
    requires Next(cfg, s, Turn(now), t) && cfg.delay <= now
    requires forall f :: f in s.queued ==> f.arriveAt + cfg.delay <= now
    ensures t.queued <= s.queued && |t.queued| == if s.queued == multiset{} then 0 else |s.queued| - 1
    ensures multiset(t.dispatched) + t.queued == multiset(s.dispatched) + s.queued
  {
    var e := DispatchAfterDelay(cfg, s, now, t);
    assert s.queued == multiset{} ==> t == s;
    hide Next, Take;
    if s.queued != multiset{} {
      assert t != s;
      assert e in s.queued;
      TakeConserves(s, e);
      assert |t.queued + multiset{e}| == |s.queued|;
    }
  }

  /**
   Once everything queued is due, each turn takes one event off, so k turns empty a queue of k events, and what
   was queued has then been dispatched.
   */
  lemma {:induction false} DueTurnsDrain(cfg: Config, s: State, steps: seq<Step>, t: State)
    requires Leads(cfg, s, steps, t) && DueTurns(cfg, s.queued, steps)
    ensures |t.queued| == if |steps| <= |s.queued| then |s.queued| - |steps| else 0
    ensures multiset(t.dispatched) + t.queued == multiset(s.dispatched) + s.queued
    decreases |steps|
  {
    if steps != [] {
      var next :| Next(cfg, s, steps[0], next) && Leads(cfg, next, steps[1..], t);
      hide Next, Take;
      DueTurn(cfg, s, steps[0].now, next);
      DueTurnsDrain(cfg, next, steps[1..], t);
    }
  }

  // ---------- Waiting ----------

  /** The events that can be dispatched before one of this priority. */
  ghost function AheadOf(q: multiset<Event>, priority: int): (r: multiset<Event>)
    ensures forall f :: r[f] == if f.priority <= priority then q[f] else 0
    decreases |q|
  {
    if q == multiset{} then multiset{}
    else
      var f :| f in q;
      AheadOf(q - multiset{f}, priority) + if f.priority <= priority then multiset{f} else multiset{}
  }

  /** Everything queued came between c and c + jitter after the moment its priority names. */
  ghost predicate QueuedLate(queued: multiset<Event>, c: int, jitter: nat) {
    forall f :: f in queued ==> c <= f.arriveAt - f.priority <= c + jitter
  }

  lemma StepQueuedLate(cfg: Config, s: State, step: Step, t: State, c: int, jitter: nat)
    requires Next(cfg, s, step, t) && QueuedLate(s.queued, c, jitter)
    requires step.Push? ==> c <= step.now - step.priority <= c + jitter
    ensures QueuedLate(t.queued, c, jitter)
  {
    if step.Turn? {
      var e := TurnCases(cfg, s, step.now, t);
      forall f | f in t.queued ensures f in s.queued {
        TakeFields(s, e);
      }
    }
  }

  lemma {:induction false} RunQueuedLate(cfg: Config, steps: seq<Step>, s: State, c: int, jitter: nat)
    requires Reaches(cfg, steps, s) && Lateness(steps, c, jitter)
    ensures QueuedLate(s.queued, c, jitter)
    decreases |steps|
  {
    if steps != [] {
      var n := |steps| - 1;
      var prev :| Reaches(cfg, steps[..n], prev) && Next(cfg, prev, steps[n], s);
      RunQueuedLate(cfg, steps[..n], prev, c, jitter);
      hide Next, Reaches;
      StepQueuedLate(cfg, prev, steps[n], s, c, jitter);
    }
  }

  /** The clock has passed the moment from which nothing older than e can still arrive or still has to wait. */
  ghost predicate PastWaiting(cfg: Config, e: Event, jitter: nat, now: u64) {
    e.arriveAt + jitter + cfg.delay <= now && e.arriveAt + jitter < now
  }

  /** A turn past the wait of e takes one event that is ahead of it. */
  lemma TurnAhead(cfg: Config, s: State, now: u64, t: State, e: Event, c: int, jitter: nat)
    requires Next(cfg, s, Turn(now), t) && QueuedLate(s.queued, c, jitter) && c <= e.arriveAt - e.priority <= c + jitter
    requires PastWaiting(cfg, e, jitter, now)
    ensures e !in s.queued ==> e !in t.queued
    ensures e in s.queued ==> |AheadOf(t.queued, e.priority)| == |AheadOf(s.queued, e.priority)| - 1
  {
    var h := TurnCases(cfg, s, now, t);
    ThresholdExact(cfg, now);
    hide Next, Take, Threshold, AheadOf;
    if t == s {
      assert e in s.queued ==> h.arriveAt + cfg.delay <= now;
    } else {
      TakeConserves(s, h);
      assert forall f :: t.queued[f] + multiset{h}[f] == s.queued[f];
      if e in s.queued {
        HeadAhead(s.queued, t.queued, h, e.priority);
      }
    }
  }

  lemma HeadAhead(q: multiset<Event>, r: multiset<Event>, h: Event, priority: int)
    requires q == r + multiset{h} && h.priority <= priority
    ensures |AheadOf(r, priority)| == |AheadOf(q, priority)| - 1
  {
    hide AheadOf;
    assert AheadOf(q, priority) == AheadOf(r, priority) + multiset{h};
  }

  /** One step past the wait of e: only turns change which events are ahead of it. */
  lemma StepAhead(cfg: Config, s: State, step: Step, t: State, e: Event, c: int, jitter: nat)
    requires Next(cfg, s, step, t) && QueuedLate(s.queued, c, jitter) && c <= e.arriveAt - e.priority <= c + jitter
    requires step.Push? ==> c <= step.now - step.priority <= c + jitter
    requires PastWaiting(cfg, e, jitter, step.now)
    ensures e !in s.queued ==> e !in t.queued
    ensures e in s.queued ==>
            |AheadOf(t.queued, e.priority)| == |AheadOf(s.queued, e.priority)| - if step.Turn? then 1 else 0
  {
    if step.Turn? {
      TurnAhead(cfg, s, step.now, t, e, c, jitter);
    } else {
      var g := NoTurn(cfg, s, step, t);
      hide AheadOf, Next;
      if t.queued != s.queued {
        BehindNotAhead(s.queued, g, e.priority);
      }
    }
  }

  lemma NoTurn(cfg: Config, s: State, step: Step, t: State) returns (g: Event)
    requires Next(cfg, s, step, t) && !step.Turn?
    ensures t.queued == s.queued ||
            (step.Push? && g.arriveAt == step.now && g.priority == step.priority && t.queued == s.queued + multiset{g})
  {
    g := if step.Push? then Event(step.value, step.iType, step.now, step.priority) else Event(0, "", 0, 0);
  }

  lemma BehindNotAhead(q: multiset<Event>, g: Event, priority: int)
    requires g.priority > priority
    ensures AheadOf(q + multiset{g}, priority) == AheadOf(q, priority)
  {
    hide AheadOf;
  }

  /**
   Past its wait an event is gone after as many turns as there are events ahead of it, whatever else is pushed
   in the meantime: events still to come belong behind it, and none of those ahead holds it up.
   */
  lemma {:induction false} GoneAfterThoseAhead(cfg: Config, s: State, steps: seq<Step>, t: State, e: Event, c: int,
                                               jitter: nat)
    requires Leads(cfg, s, steps, t) && Lateness(steps, c, jitter)
    requires QueuedLate(s.queued, c, jitter) && c <= e.arriveAt - e.priority <= c + jitter
    requires forall i :: 0 <= i < |steps| ==> PastWaiting(cfg, e, jitter, steps[i].now)
    requires e !in s.queued || Turns(steps) >= |AheadOf(s.queued, e.priority)|
    ensures e !in t.queued
    decreases |steps|
  {
    if steps == [] {
      assert e in s.queued ==> AheadOf(s.queued, e.priority)[e] > 0;
    } else {
      var step := steps[0];
      var next :| Next(cfg, s, step, next) && Leads(cfg, next, steps[1..], t);
      hide Next, PastWaiting, AheadOf;
      StepAhead(cfg, s, step, next, e, c, jitter);
      StepQueuedLate(cfg, s, step, next, c, jitter);
      GoneAfterThoseAhead(cfg, next, steps[1..], t, e, c, jitter);
    }
  }

  /** What is queued leaves only by being dispatched. */
  lemma {:induction false} NothingLeaves(cfg: Config, s: State, steps: seq<Step>, t: State)
    requires Leads(cfg, s, steps, t)
    ensures multiset(s.dispatched) + s.queued <= multiset(t.dispatched) + t.queued
    decreases |steps|
  {
    if steps != [] {
      var next :| Next(cfg, s, steps[0], next) && Leads(cfg, next, steps[1..], t);
      NothingLeaves(cfg, next, steps[1..], t);
      StepLeavesNothing(cfg, s, steps[0], next);
    }
  }

  lemma StepLeavesNothing(cfg: Config, s: State, step: Step, t: State)
    requires Next(cfg, s, step, t)
    ensures multiset(s.dispatched) + s.queued <= multiset(t.dispatched) + t.queued
  {
    if step.Turn? {
      var e := TurnCases(cfg, s, step.now, t);
      hide Next, Take;
      if t != s {
        TakeConserves(s, e);
      }
    }
  }

  /**
   In every run whose events have a lateness between c and c + jitter, an event waits at most its delay and the
   jitter, and then at most for as many turns as there are events queued that belong before it.
   */
  lemma WaitIsBounded(cfg: Config, before: seq<Step>, s: State, after: seq<Step>, t: State, e: Event, c: int,
                      jitter: nat)
    requires Reaches(cfg, before, s) && Leads(cfg, s, after, t)
    requires Lateness(before, c, jitter) && Lateness(after, c, jitter) && e in s.queued
    requires forall i :: 0 <= i < |after| ==> PastWaiting(cfg, e, jitter, after[i].now)
    requires Turns(after) >= |AheadOf(s.queued, e.priority)|
    ensures e !in t.queued && e in t.dispatched
  {
    RunQueuedLate(cfg, before, s, c, jitter);
    hide Reaches, Leads, Lateness, PastWaiting, AheadOf;
    NothingLeaves(cfg, s, after, t);
    assert e in multiset(t.dispatched) + t.queued;
    GoneAfterThoseAhead(cfg, s, after, t, e, c, jitter);
  }
}
