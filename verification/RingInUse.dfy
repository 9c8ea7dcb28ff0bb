/**
 Both ends of the ring of internal/include/libbpf/xsk.h at work on one shared memory, with callers that keep to
 the rules: every call on the objects is a step of the runs that XskRing is about.
 */
module RingInUse {
  import opened Machine
  import opened XskRing

  lemma ReachesOneMore<T(!new)>(first: System<T>, ops: seq<Op<T>>, s: System<T>, op: Op<T>)
    requires Reaches(first, ops, s) && SlotsInRange(s) && Legal(s, op)
    ensures Reaches(first, ops + [op], Step(s, op)) && SlotsInRange(Step(s, op))
  {
    StepKeepsSlots(s, op);
    var all := ops + [op];
    assert all[..|all| - 1] == ops && all[|all| - 1] == op;
  }

  /** The two ends, and what their callers have done so far. */
  class Ring<T(!new)> {
    const shared: Shared<T>
    const prod: XskRingProd<T>
    const cons: XskRingCons<T>

    ghost const first: System<T>
    ghost var calls: seq<Op<T>>
    ghost var owed: nat
    ghost var held: nat
    ghost var sent: seq<T>
    ghost var got: seq<T>

    constructor (slots: array<T>, size: u32, mask: u32, start: u32)
      requires PowerOfTwoSize(size, mask) && slots.Length == size
      ensures Valid() && View() == Init(size, mask, start, slots[..]) && first == View()
      ensures shared.slots == slots && fresh(shared) && fresh(prod) && fresh(cons)
    {
      var memory := new Shared(slots, start);
      shared := memory;
      prod := new XskRingProd(memory, size, mask);
      cons := new XskRingCons(memory, size, mask);
      first := Init(size, mask, start, slots[..]);
      calls, owed, held, sent, got := [], 0, 0, [], [];
      new;
      forall x ensures Slot(mask, x) < size {
        SlotInRange(size, mask, x);
      }
    }

    ghost function View(): System<T>
      reads this, shared, shared.slots, prod, cons
    {
      System(prod.size, prod.mask, prod.View(), cons.View(), shared.producer, shared.consumer, shared.slots[..],
             owed, held, sent, got)
    }

    /** The objects belong together, and their state is that of the run of the calls made so far. */
    ghost predicate Valid()
      reads this, shared, shared.slots, prod, cons
    {
      && prod.shared == shared && cons.shared == shared && cons.size == prod.size && cons.mask == prod.mask
      && PowerOfTwoSize(prod.size, prod.mask) && shared.slots.Length == prod.size
      && (exists start: u32, slots: seq<T> :: |slots| == prod.size && first == Init(prod.size, prod.mask, start, slots))
      && SlotsInRange(View()) && Reaches(first, calls, View())
    }

    lemma ValidReachable()
      requires Valid()
      ensures Reachable(prod.size, View())
    {
      var start: u32, slots: seq<T> :| |slots| == prod.size && first == Init(prod.size, prod.mask, start, slots);
      hide Reaches;
      assert PowerOfTwoSize(prod.size, prod.mask) && Reaches(Init(prod.size, prod.mask, start, slots), calls, View());
    }

    /** What the producer has put into the entries it reserved and has not submitted. */
    ghost function Written(): seq<T>
      requires Valid()
      reads this, shared, shared.slots, prod, cons
    {
      Pending(View())
    }

    /** xsk_ring_prod__reserve: the whole batch when there is room for it, and nothing otherwise. */
    method Reserve(nb: u32) returns (n: u32, idx: u32)
      requires Valid()
      modifies this, prod
      ensures Valid() && View() == Step(old(View()), Op.Reserve(nb)) && owed == old(owed) + n
      ensures n == if nb <= prod.size - (|sent| + old(owed) - |got|) then nb else 0
      ensures Written()[..old(owed)] == old(Written())
    {
      hide Reaches, Reachable, PowerOfTwoSize, Init, And, Wrap32, Pending;
      ghost var before := View();
      ValidReachable();
      ReserveIsExact(prod.size, before, nb);
      ReachesOneMore(first, calls, before, Op.Reserve(nb));
      SubmitsWhatWasWritten(prod.size, before, Op.Reserve(nb));
      n, idx := prod.Reserve(nb);
      owed := owed + n;
      calls := calls + [Op.Reserve(nb)];
    }

    /** Fill the k-th reserved entry through the pointer to its slot. */
    method Write(k: u32, v: T)
      requires Valid() && k < owed
      modifies this, shared.slots
      ensures Valid() && View() == Step(old(View()), Op.Write(k, v))
      ensures Written() == old(Written())[k := v]
    {
      hide Reaches, Reachable, PowerOfTwoSize, Init, And, Wrap32, Pending;
      ghost var before := View();
      ValidReachable();
      ReachesOneMore(first, calls, before, Op.Write(k, v));
      SubmitsWhatWasWritten(prod.size, before, Op.Write(k, v));
      SlotOfWrapped(prod.mask, shared.producer + k);
      prod.Write(Add32(shared.producer, k), v);
      calls := calls + [Op.Write(k, v)];
    }

    /** xsk_ring_prod__submit */
    method Submit(nb: u32)
      requires Valid() && nb <= owed
      modifies this, shared
      ensures Valid() && View() == Step(old(View()), Op.Submit(nb))
      ensures sent == old(sent) + old(Written())[..nb] && Written() == old(Written())[nb..]
    {
      hide Reaches, Reachable, PowerOfTwoSize, Init, And, Wrap32, Pending;
      ghost var before := View();
      ValidReachable();
      ReachesOneMore(first, calls, before, Op.Submit(nb));
      SubmitsWhatWasWritten(prod.size, before, Op.Submit(nb));
      prod.Submit(nb);
      owed, sent := owed - nb, sent + Contents(before, before.producer, nb);
      calls := calls + [Op.Submit(nb)];
    }

    /** xsk_ring_cons__peek: entries that were submitted, and some whenever there are any. */
    method Peek(nb: u32) returns (n: u32, idx: u32)
      requires Valid()
      modifies this, cons
      ensures Valid() && View() == Step(old(View()), Op.Peek(nb)) && held == old(held) + n
      ensures n <= nb && |got| + held <= |sent| && (n > 0 <==> nb > 0 && |got| + old(held) < |sent|)
    {
      hide Reaches, Reachable, PowerOfTwoSize, Init, And, Wrap32, Pending;
      ghost var before := View();
      ValidReachable();
      PeekIsExact(prod.size, before, nb);
      ReachesOneMore(first, calls, before, Op.Peek(nb));
      n, idx := cons.Peek(nb);
      held := held + n;
      calls := calls + [Op.Peek(nb)];
    }

    /** Load the k-th peeked entry through the pointer to its slot: what was submitted at that position. */
    method Read(k: u32) returns (v: T)
      requires Valid() && k < held
      ensures |got| + k < |sent| && v == sent[|got| + k]
    {
      hide Reaches, Reachable, PowerOfTwoSize, Init, And, Wrap32, Pending;
      ValidReachable();
      HeldEntriesAreSubmitted(prod.size, View());
      SlotOfWrapped(prod.mask, shared.consumer + k);
      assert Contents(View(), shared.consumer, held)[k] == sent[|got|..|got| + held][k];
      v := cons.Read(Add32(shared.consumer, k));
    }

    /** xsk_ring_cons__cancel */
    method Cancel(nb: u32)
      requires Valid() && nb <= held
      modifies this, cons
      ensures Valid() && View() == Step(old(View()), Op.Cancel(nb))
    {
      hide Reaches, Reachable, PowerOfTwoSize, Init, And, Wrap32, Pending;
      ghost var before := View();
      ValidReachable();
      ReachesOneMore(first, calls, before, Op.Cancel(nb));
      cons.Cancel(nb);
      held := held - nb;
      calls := calls + [Op.Cancel(nb)];
    }

    /** xsk_ring_cons__release: the next submitted entries, in order. */
    method Release(nb: u32)
      requires Valid() && nb <= held
      modifies this, shared
      ensures Valid() && View() == Step(old(View()), Op.Release(nb))
      ensures |old(got)| + nb <= |sent| && got == old(got) + sent[|old(got)|..|old(got)| + nb]
    {
      hide Reaches, Reachable, PowerOfTwoSize, Init, And, Wrap32, Pending;
      ghost var before := View();
      ValidReachable();
      ReachesOneMore(first, calls, before, Op.Release(nb));
      ReleasedIsPrefixOfSubmitted(prod.size, before);
      cons.Release(nb);
      held, got := held - nb, got + Contents(before, before.consumer, nb);
      calls := calls + [Op.Release(nb)];
      ValidReachable();
      ReleasedIsPrefixOfSubmitted(prod.size, View());
      assert got == sent[..|got|];
    }
  }

  /** Masking a counter that was wrapped once more changes nothing. */
  lemma SlotOfWrapped(mask: u32, x: int)
    ensures Slot(mask, x) == And(Wrap32(x), mask)
  {
  }
}
