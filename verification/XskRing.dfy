/**
 The single-producer/single-consumer ring of internal/include/libbpf/xsk.h: free-running 32-bit
 counters, a stale private copy of the other end's counter on each side, batched reserve/submit and
 peek/cancel/release.

 The functions below are the C functions on values. Every one of them touches memory that the other
 end may write at most once, so a run of the two ends is a sequence of whole function calls.
 */
module XskRing {
  import opened Machine

  /** struct xsk_ring_prod without the pointers: the counters private to the producer. */
  datatype Prod = Prod(cachedProd: u32, cachedCons: u32)

  /** struct xsk_ring_cons without the pointers: the counters private to the consumer. */
  datatype Cons = Cons(cachedProd: u32, cachedCons: u32)

  function ProdNbFree(p: Prod, size: u32, consumer: u32, nb: u32): (Prod, u32) {
    var free := Sub32(p.cachedCons, p.cachedProd);
    if free >= nb then
      (p, free)
    else
      var q := p.(cachedCons := Add32(consumer, size));
      (q, Sub32(q.cachedCons, q.cachedProd))
  }

  /** The new counters, the number of entries reserved, and the index of the first. */
  function ProdReserve(p: Prod, size: u32, consumer: u32, nb: u32): (Prod, u32, u32) {
    var (q, free) := ProdNbFree(p, size, consumer, nb);
    if free < nb then (q, 0, 0) else (q.(cachedProd := Add32(q.cachedProd, nb)), nb, q.cachedProd)
  }

  function ConsNbAvail(c: Cons, producer: u32, nb: u32): (Cons, u32) {
    var entries := Sub32(c.cachedProd, c.cachedCons);
    var d := if entries == 0 then c.(cachedProd := producer) else c;
    var entries' := Sub32(d.cachedProd, d.cachedCons);
    (d, if entries' > nb then nb else entries')
  }

  /** The new counters, the number of entries handed out, and the index of the first. */
  function ConsPeek(c: Cons, producer: u32, nb: u32): (Cons, u32, u32) {
    var (d, entries) := ConsNbAvail(c, producer, nb);
    if entries > 0 then (d.(cachedCons := Add32(d.cachedCons, entries)), entries, d.cachedCons) else (d, 0, 0)
  }

  function ConsCancel(c: Cons, nb: u32): Cons {
    c.(cachedCons := Sub32(c.cachedCons, nb))
  }

  // ---------- The ring in memory ----------

  /** The memory both ends see: the two published counters and the slots. */
  class Shared<T> {
    var producer: u32
    var consumer: u32
    const slots: array<T>

    constructor (slots: array<T>, start: u32)
      ensures this.slots == slots && producer == start && consumer == start
    {
      this.slots := slots;
      producer, consumer := start, start;
    }
  }

  class XskRingProd<T> {
    var cachedProd: u32
    var cachedCons: u32
    const mask: u32
    const size: u32
    const shared: Shared<T>

    constructor (shared: Shared<T>, size: u32, mask: u32)
      ensures this.shared == shared && this.size == size && this.mask == mask
      ensures View() == Prod(shared.producer, Add32(shared.consumer, size))
    {
      this.shared, this.size, this.mask := shared, size, mask;
      cachedProd := shared.producer;
      cachedCons := Add32(shared.consumer, size);
    }

    function View(): Prod
      reads this
    {
      Prod(cachedProd, cachedCons)
    }

    method NbFree(nb: u32) returns (free: u32)
      modifies this`cachedCons
      ensures (View(), free) == ProdNbFree(old(View()), size, shared.consumer, nb)
    {
      var freeEntries := Sub32(cachedCons, cachedProd);
      if freeEntries >= nb {
        return freeEntries;
      }
      cachedCons := shared.consumer;
      cachedCons := Add32(cachedCons, size);
      return Sub32(cachedCons, cachedProd);
    }

    method Reserve(nb: u32) returns (n: u32, idx: u32)
      modifies this
      ensures (View(), n, idx) == ProdReserve(old(View()), size, shared.consumer, nb)
    {
      var free := NbFree(nb);
      if free < nb {
        return 0, 0;
      }
      idx := cachedProd;
      cachedProd := Add32(cachedProd, nb);
      n := nb;
    }

    method Submit(nb: u32)
      modifies shared
      ensures shared.producer == Add32(old(shared.producer), nb) && shared.consumer == old(shared.consumer)
    {
      shared.producer := Add32(shared.producer, nb);
    }

    /** Store through the pointer that xsk_ring_prod__tx_desc returns. */
    method Write(idx: u32, v: T)
      requires And(idx, mask) < shared.slots.Length
      modifies shared.slots
      ensures shared.slots[..] == old(shared.slots[..])[And(idx, mask) := v]
    {
      shared.slots[And(idx, mask)] := v;
    }
  }

  class XskRingCons<T> {
    var cachedProd: u32
    var cachedCons: u32
    const mask: u32
    const size: u32
    const shared: Shared<T>

    constructor (shared: Shared<T>, size: u32, mask: u32)
      ensures this.shared == shared && this.size == size && this.mask == mask
      ensures View() == Cons(shared.producer, shared.consumer)
    {
      this.shared, this.size, this.mask := shared, size, mask;
      cachedProd, cachedCons := shared.producer, shared.consumer;
    }

    function View(): Cons
      reads this
    {
      Cons(cachedProd, cachedCons)
    }

    method NbAvail(nb: u32) returns (avail: u32)
      modifies this`cachedProd
      ensures (View(), avail) == ConsNbAvail(old(View()), shared.producer, nb)
    {
      var entries := Sub32(cachedProd, cachedCons);
      if entries == 0 {
        cachedProd := shared.producer;
        entries := Sub32(cachedProd, cachedCons);
      }
      return if entries > nb then nb else entries;
    }

    method Peek(nb: u32) returns (n: u32, idx: u32)
      modifies this
      ensures (View(), n, idx) == ConsPeek(old(View()), shared.producer, nb)
    {
      n := NbAvail(nb);
      idx := 0;
      if n > 0 {
        idx := cachedCons;
        cachedCons := Add32(cachedCons, n);
      }
    }

    method Cancel(nb: u32)
      modifies this
      ensures View() == ConsCancel(old(View()), nb)
    {
      cachedCons := Sub32(cachedCons, nb);
    }

    method Release(nb: u32)
      modifies shared
      ensures shared.consumer == Add32(old(shared.consumer), nb) && shared.producer == old(shared.producer)
    {
      shared.consumer := Add32(shared.consumer, nb);
    }

    /** Load through the pointer that xsk_ring_cons__rx_desc returns. */
    method Read(idx: u32) returns (v: T)
      requires And(idx, mask) < shared.slots.Length
      ensures v == shared.slots[And(idx, mask)]
    {
      v := shared.slots[And(idx, mask)];
    }
  }

  // ---------- Runs of the two ends ----------

  /**
   Both ends and what their callers know: `owed` entries are reserved but not yet submitted, `held`
   entries are peeked but neither cancelled nor released, `sent` is what the slots held when they were
   submitted and `got` what they held when they were released.
   */
  datatype System<T> = System(
    size: u32, mask: u32, prod: Prod, cons: Cons, producer: u32, consumer: u32, slots: seq<T>,
    owed: nat, held: nat, sent: seq<T>, got: seq<T>)

  datatype Op<T> =
    | Reserve(nb: u32)
    | Write(k: nat, v: T)  // fill the k-th entry reserved and not yet submitted
    | Submit(nb: u32)
    | Peek(nb: u32)
    | Cancel(nb: u32)
    | Release(nb: u32)

  /** The sizes the kernel accepts: powers of two, so that the mask selects the low bits. */
  ghost predicate PowerOfTwoSize(size: u32, mask: u32) {
    mask == size - 1 && exists k: nat :: k < 32 && size == Pow2(k)
  }

  /** A fresh ring. The published counters start anywhere; the producer's copy is `size` ahead. */
  function Init<T>(size: u32, mask: u32, start: u32, slots: seq<T>): System<T> {
    System(size, mask, Prod(start, Add32(start, size)), Cons(start, start), start, start, slots, 0, 0, [], [])
  }

  /** The slot of the entry at position x, once the counter has been wrapped and masked. */
  function Slot(mask: u32, x: int): nat {
    And(Wrap32(x), mask)
  }

  /** The contents of n consecutive slots, the first one at index idx. */
  function Contents<T>(s: System<T>, idx: u32, n: nat): (r: seq<T>)
    requires forall x :: Slot(s.mask, x) < |s.slots|
    ensures |r| == n
  {
    seq(n, i requires 0 <= i < n => s.slots[Slot(s.mask, idx + i)])
  }

  ghost predicate SlotsInRange<T>(s: System<T>) {
    |s.slots| == s.size && forall x :: Slot(s.mask, x) < |s.slots|
  }

  /** What the callers owe the ring; the library checks none of it. */
  predicate Legal<T>(s: System<T>, op: Op<T>) {
    match op
    case Write(k, _) => k < s.owed
    case Submit(nb) => nb <= s.owed
    case Cancel(nb) => nb <= s.held
    case Release(nb) => nb <= s.held
    case _ => true
  }

  function Step<T>(s: System<T>, op: Op<T>): System<T>
    requires SlotsInRange(s) && Legal(s, op)
  {
    match op
    case Reserve(nb) =>
      var (p, n, _) := ProdReserve(s.prod, s.size, s.consumer, nb);
      s.(prod := p, owed := s.owed + n)
    case Write(k, v) =>
      s.(slots := s.slots[Slot(s.mask, s.producer + k) := v])
    case Submit(nb) =>
      s.(producer := Add32(s.producer, nb), owed := s.owed - nb, sent := s.sent + Contents(s, s.producer, nb))
    case Peek(nb) =>
      var (c, n, _) := ConsPeek(s.cons, s.producer, nb);
      s.(cons := c, held := s.held + n)
    case Cancel(nb) =>
      s.(cons := ConsCancel(s.cons, nb), held := s.held - nb)
    case Release(nb) =>
      s.(consumer := Add32(s.consumer, nb), held := s.held - nb, got := s.got + Contents(s, s.consumer, nb))
  }

  lemma StepKeepsSlots<T>(s: System<T>, op: Op<T>)
    requires SlotsInRange(s) && Legal(s, op)
    ensures SlotsInRange(Step(s, op)) && Step(s, op).size == s.size && Step(s, op).mask == s.mask
  {
    var t := Step(s, op);
    assert forall x :: Slot(t.mask, x) == Slot(s.mask, x);
  }

  /** s can be reached from the fresh ring by the calls in ops, each legal when it is made. */
  ghost predicate Reaches<T(!new)>(first: System<T>, ops: seq<Op<T>>, s: System<T>)
    decreases |ops|
  {
    if ops == [] then
      s == first
    else
      exists prev :: Reaches(first, ops[..|ops| - 1], prev) && SlotsInRange(prev)
                     && Legal(prev, ops[|ops| - 1]) && s == Step(prev, ops[|ops| - 1])
  }

  // ---------- The invariant behind the stale and wrapping counters ----------

  lemma Pow2Of32()
    ensures Pow2(32) == TWO_32
  {
    assert Pow2(4) == 16;
    Pow2Divides(4, 8);
    Pow2Divides(8, 16);
    Pow2Divides(16, 32);
  }

  lemma SizeDivides(size: u32, mask: u32) returns (c: int)
    requires PowerOfTwoSize(size, mask)
    ensures size >= 1 && c >= 1 && size * c == TWO_32
  {
    var k: nat :| k < 32 && size == Pow2(k);
    Pow2Divides(k, 32);
    Pow2Of32();
    c := Pow2(32 - k);
  }

  /** The slot is the position modulo the size: nothing is lost by wrapping the counter first. */
  lemma SlotIsRemainder(size: u32, mask: u32, x: int)
    requires PowerOfTwoSize(size, mask)
    ensures size >= 1 && Slot(mask, x) == x % size
  {
    var k: nat :| k < 32 && size == Pow2(k);
    AndMask(Wrap32(x), k);
    var c := SizeDivides(size, mask);
    ModOfMod(x, size, c);
  }

  lemma SlotInRange(size: u32, mask: u32, x: int)
    requires PowerOfTwoSize(size, mask)
    ensures Slot(mask, x) < size
  {
    SlotIsRemainder(size, mask, x);
  }

  /** Positions less than the size apart have different slots. */
  lemma NearbySlotsDiffer(size: u32, mask: u32, a: int, b: int)
    requires PowerOfTwoSize(size, mask) && a < b < a + size
    ensures Slot(mask, a) != Slot(mask, b)
  {
    SlotIsRemainder(size, mask, a);
    SlotIsRemainder(size, mask, b);
    NearbyRemaindersDiffer(a, b, size);
  }

  /**
   The counters as unbounded positions. `seenCons` and `seenProd` are the positions at which each end
   last read the other's counter; |got| and |sent| count the released and the submitted entries.
   */
  ghost predicate Inv<T>(s: System<T>, start: u32, seenCons: int, seenProd: int) {
    var released, submitted := start + |s.got|, start + |s.sent|;
    && PowerOfTwoSize(s.size, s.mask) && |s.slots| == s.size
    && start <= seenCons <= released
    && released + s.held <= seenProd <= submitted
    && submitted + s.owed <= seenCons + s.size
    && s.consumer == Wrap32(released) && s.producer == Wrap32(submitted)
    && s.prod == Prod(Wrap32(submitted + s.owed), Wrap32(seenCons + s.size))
    && s.cons == Cons(Wrap32(seenProd), Wrap32(released + s.held))
    && s.got == s.sent[..|s.got|]
    && forall g :: released <= g < submitted ==>
      Slot(s.mask, g) < |s.slots| && s.slots[Slot(s.mask, g)] == s.sent[g - start]
  }

  lemma InvInit<T>(size: u32, mask: u32, start: u32, slots: seq<T>)
    requires PowerOfTwoSize(size, mask) && |slots| == size
    ensures Inv(Init(size, mask, start, slots), start, start, start)
  {
  }

  lemma InvSlots<T>(s: System<T>, start: u32, seenCons: int, seenProd: int)
    requires Inv(s, start, seenCons, seenProd)
    ensures SlotsInRange(s)
  {
    forall x ensures Slot(s.mask, x) < |s.slots| {
      SlotInRange(s.size, s.mask, x);
    }
  }

  /** The positions the ends last saw of each other after one more call. */
  ghost function SeenCons<T>(s: System<T>, start: u32, seenCons: int, op: Op<T>): int {
    if op.Reserve? && Sub32(s.prod.cachedCons, s.prod.cachedProd) < op.nb then start + |s.got| else seenCons
  }

  ghost function SeenProd<T>(s: System<T>, start: u32, seenProd: int, op: Op<T>): int {
    if op.Peek? && Sub32(s.cons.cachedProd, s.cons.cachedCons) == 0 then start + |s.sent| else seenProd
  }

  lemma InvReserve<T>(s: System<T>, start: u32, seenCons: int, seenProd: int, op: Op<T>)
    requires Inv(s, start, seenCons, seenProd) && op.Reserve? && SlotsInRange(s)
    ensures Inv(Step(s, op), start, SeenCons(s, start, seenCons, op), seenProd)
    ensures var (_, n, idx) := ProdReserve(s.prod, s.size, s.consumer, op.nb);
            && n == (if op.nb <= s.size - (|s.sent| + s.owed - |s.got|) then op.nb else 0)
            && (n > 0 ==> idx == Wrap32(s.producer + s.owed))
  {
    hide Wrap32;
    var released, reserved := start + |s.got|, start + |s.sent| + s.owed;
    SubOfWrapped(seenCons + s.size, reserved);
    SubOfWrapped(released + s.size, reserved);
    AddToWrapped(released, s.size);
    AddToWrapped(reserved, op.nb);
    AddToWrapped(start + |s.sent|, s.owed);
  }

  lemma InvPeek<T>(s: System<T>, start: u32, seenCons: int, seenProd: int, op: Op<T>)
    requires Inv(s, start, seenCons, seenProd) && op.Peek? && SlotsInRange(s)
    ensures Inv(Step(s, op), start, seenCons, SeenProd(s, start, seenProd, op))
    ensures var (_, n, idx) := ConsPeek(s.cons, s.producer, op.nb);
            && (n > 0 <==> op.nb > 0 && |s.got| + s.held < |s.sent|)
            && n == Min(op.nb, SeenProd(s, start, seenProd, op) - (start + |s.got| + s.held))
            && (n > 0 ==> idx == Wrap32(s.consumer + s.held))
  {
    hide Wrap32;
    var peeked, submitted := start + |s.got| + s.held, start + |s.sent|;
    SubOfWrapped(seenProd, peeked);
    SubOfWrapped(submitted, peeked);
    AddToWrapped(peeked, Min(op.nb, SeenProd(s, start, seenProd, op) - peeked));
    AddToWrapped(start + |s.got|, s.held);
  }

  lemma InvWrite<T>(s: System<T>, start: u32, seenCons: int, seenProd: int, op: Op<T>)
    requires Inv(s, start, seenCons, seenProd) && op.Write? && SlotsInRange(s) && Legal(s, op)
    ensures Inv(Step(s, op), start, seenCons, seenProd)
  {
    hide Wrap32;
    var at := start + |s.sent| + op.k;
    AddToWrapped(start + |s.sent|, op.k);
    forall g | start + |s.got| <= g < start + |s.sent|
      ensures Slot(s.mask, g) != Slot(s.mask, at)
    {
      NearbySlotsDiffer(s.size, s.mask, g, at);
    }
  }

  lemma ContentsAt<T>(s: System<T>, start: int, n: nat)
    requires SlotsInRange(s)
    ensures forall g :: start <= g < start + n ==>
      Contents(s, Wrap32(start), n)[g - start] == s.slots[Slot(s.mask, g)]
  {
    hide Wrap32;
    forall g | start <= g < start + n
      ensures Contents(s, Wrap32(start), n)[g - start] == s.slots[Slot(s.mask, g)]
    {
      AddToWrapped(start, g - start);
    }
  }

  lemma InvSubmit<T>(s: System<T>, start: u32, seenCons: int, seenProd: int, op: Op<T>)
    requires Inv(s, start, seenCons, seenProd) && op.Submit? && SlotsInRange(s) && Legal(s, op)
    ensures Inv(Step(s, op), start, seenCons, seenProd)
  {
    hide Wrap32;
    var submitted := start + |s.sent|;
    AddToWrapped(submitted, op.nb);
    ContentsAt(s, submitted, op.nb);
  }

  lemma InvRelease<T>(s: System<T>, start: u32, seenCons: int, seenProd: int, op: Op<T>)
    requires Inv(s, start, seenCons, seenProd) && op.Release? && SlotsInRange(s) && Legal(s, op)
    ensures Inv(Step(s, op), start, seenCons, seenProd)
  {
    hide Wrap32;
    var released := start + |s.got|;
    AddToWrapped(released, op.nb);
    ContentsAt(s, released, op.nb);
    var t := Step(s, op);
    forall i | 0 <= i < |t.got| ensures t.got[i] == s.sent[i] {
      if i >= |s.got| {
        assert s.slots[Slot(s.mask, start + i)] == s.sent[i];
      }
    }
  }

  lemma InvStep<T>(s: System<T>, start: u32, seenCons: int, seenProd: int, op: Op<T>)
    requires Inv(s, start, seenCons, seenProd) && SlotsInRange(s) && Legal(s, op)
    ensures Inv(Step(s, op), start, SeenCons(s, start, seenCons, op), SeenProd(s, start, seenProd, op))
  {
    hide Wrap32, And;
    match op
    case Reserve(_) => InvReserve(s, start, seenCons, seenProd, op);
    case Write(_, _) => InvWrite(s, start, seenCons, seenProd, op);
    case Submit(_) => InvSubmit(s, start, seenCons, seenProd, op);
    case Peek(_) => InvPeek(s, start, seenCons, seenProd, op);
    case Cancel(nb) => AddToWrapped(start + |s.got| + s.held, nb);
    case Release(_) => InvRelease(s, start, seenCons, seenProd, op);
  }

  lemma {:induction false} InvReachable<T(!new)>(size: u32, mask: u32, start: u32, slots: seq<T>, ops: seq<Op<T>>,
                                          s: System<T>)
    returns (seenCons: int, seenProd: int)
    requires PowerOfTwoSize(size, mask) && |slots| == size
    requires Reaches(Init(size, mask, start, slots), ops, s)
    ensures s.size == size && s.mask == mask && Inv(s, start, seenCons, seenProd)
    decreases |ops|
  {
    var first := Init(size, mask, start, slots);
    if ops == [] {
      InvInit(size, mask, start, slots);
      seenCons, seenProd := start, start;
    } else {
      var op := ops[|ops| - 1];
      var prev :| Reaches(first, ops[..|ops| - 1], prev) && SlotsInRange(prev) && Legal(prev, op)
                  && s == Step(prev, op);
      seenCons, seenProd := InvReachable(size, mask, start, slots, ops[..|ops| - 1], prev);
      InvStep(prev, start, seenCons, seenProd, op);
      StepKeepsSlots(prev, op);
      seenCons, seenProd := SeenCons(prev, start, seenCons, op), SeenProd(prev, start, seenProd, op);
    }
  }

  // ---------- What every run guarantees ----------

  /** s is a state of some legal run of a fresh ring of the given size. */
  ghost predicate Reachable<T(!new)>(size: u32, s: System<T>) {
    exists mask: u32, start: u32, slots: seq<T>, ops: seq<Op<T>> ::
      PowerOfTwoSize(size, mask) && |slots| == size && Reaches(Init(size, mask, start, slots), ops, s)
  }

  lemma ReachableInv<T(!new)>(size: u32, s: System<T>) returns (start: u32, seenCons: int, seenProd: int)
    requires Reachable(size, s)
    ensures s.size == size && Inv(s, start, seenCons, seenProd) && SlotsInRange(s)
  {
    var mask: u32, start0: u32, slots: seq<T>, ops: seq<Op<T>> :|
      PowerOfTwoSize(size, mask) && |slots| == size && Reaches(Init(size, mask, start0, slots), ops, s);
    start := start0;
    seenCons, seenProd := InvReachable(size, mask, start, slots, ops, s);
    InvSlots(s, start, seenCons, seenProd);
  }

  /**
   What the consumer has released is a prefix, in order, of what the producer submitted, and the ring
   never holds more than `size` entries that are reserved or submitted but not yet released.
   */
  lemma ReleasedIsPrefixOfSubmitted<T(!new)>(size: u32, s: System<T>)
    requires Reachable(size, s)
    ensures s.got <= s.sent
    ensures |s.got| + s.held <= |s.sent|
    ensures |s.sent| + s.owed - |s.got| <= size
  {
    var start, seenCons, seenProd := ReachableInv(size, s);
    assert s.sent[..|s.got|] <= s.sent;
  }

  /** Every entry the consumer holds reads as the entry submitted at that position. */
  lemma HeldEntriesAreSubmitted<T(!new)>(size: u32, s: System<T>)
    requires Reachable(size, s)
    ensures SlotsInRange(s) && |s.got| + s.held <= |s.sent|
    ensures Contents(s, s.consumer, s.held) == s.sent[|s.got|..|s.got| + s.held]
  {
    hide Wrap32, And, Reaches;
    var start, seenCons, seenProd := ReachableInv(size, s);
    var released := start + |s.got|;
    ContentsAt(s, released, s.held);
    forall i | 0 <= i < s.held
      ensures Contents(s, s.consumer, s.held)[i] == s.sent[|s.got| + i]
    {
      assert s.slots[Slot(s.mask, released + i)] == s.sent[released + i - start];
    }
  }

  /** No slot the producer may write now holds an entry that is not yet released, nor any other it may write. */
  lemma WritableSlotsAreFree<T(!new)>(size: u32, s: System<T>, i: nat, j: nat)
    requires Reachable(size, s)
    requires i < j && |s.sent| - |s.got| <= j < |s.sent| - |s.got| + s.owed
    ensures Slot(s.mask, s.consumer + i) != Slot(s.mask, s.consumer + j)
    ensures Slot(s.mask, s.consumer + j) == Slot(s.mask, s.producer + (j - (|s.sent| - |s.got|)))
  {
    hide Wrap32, And, Reaches;
    var start, seenCons, seenProd := ReachableInv(size, s);
    var released := start + |s.got|;
    AddToWrapped(released, i);
    AddToWrapped(released, j);
    AddToWrapped(start + |s.sent|, j - (|s.sent| - |s.got|));
    NearbySlotsDiffer(s.size, s.mask, released + i, released + j);
  }

  /**
   Although the producer's copy of the consumer counter may be stale and every counter may have wrapped,
   a reservation succeeds exactly when there is room, and hands out the entries after those still owed.
   */
  lemma ReserveIsExact<T(!new)>(size: u32, s: System<T>, nb: u32)
    requires Reachable(size, s)
    ensures var (_, n, idx) := ProdReserve(s.prod, s.size, s.consumer, nb);
            && n == (if nb <= size - (|s.sent| + s.owed - |s.got|) then nb else 0)
            && (n > 0 ==> idx == Wrap32(s.producer + s.owed))
  {
    var start, seenCons, seenProd := ReachableInv(size, s);
    InvReserve(s, start, seenCons, seenProd, Reserve(nb));
  }

  /**
   A peek comes back empty exactly when nothing was asked for or no submitted entry is left to hand out;
   otherwise it hands out the entries right after those already held, all of them submitted. How many is exact:
   as many of those seen before as were asked for, and once these are used up of all that were submitted.
   */
  lemma PeekIsExact<T(!new)>(size: u32, s: System<T>, nb: u32)
    requires Reachable(size, s)
    ensures var (_, n, idx) := ConsPeek(s.cons, s.producer, nb);
            var seen, left := Sub32(s.cons.cachedProd, s.cons.cachedCons), |s.sent| - (|s.got| + s.held);
            && (n > 0 <==> nb > 0 && |s.got| + s.held < |s.sent|)
            && seen <= left && n == Min(nb, if seen == 0 then left else seen)
            && (n > 0 ==> idx == Wrap32(s.consumer + s.held))
  {
    hide Wrap32, And, Sub32, ConsPeek, Reaches, Reachable;
    var start, seenCons, seenProd := ReachableInv(size, s);
    InvPeek(s, start, seenCons, seenProd, Peek(nb));
    SubOfWrapped(seenProd, start + |s.got| + s.held);
  }

  // ---------- What is submitted is what was written ----------

  /** What stands in the slots of the entries reserved and not yet submitted. */
  function Pending<T>(s: System<T>): (r: seq<T>)
    requires SlotsInRange(s)
    ensures |r| == s.owed
  {
    Contents(s, s.producer, s.owed)
  }

  /**
   A write replaces exactly its own entry among those reserved, a submission appends the first of them to what was
   submitted, a reservation adds entries behind them, and no call of the consumer touches any of this.
   */
  lemma SubmitsWhatWasWritten<T(!new)>(size: u32, s: System<T>, op: Op<T>)
    requires Reachable(size, s) && SlotsInRange(s) && Legal(s, op)
    ensures var t := Step(s, op);
            && SlotsInRange(t)
            && match op
               case Reserve(_) => t.sent == s.sent && s.owed <= t.owed && Pending(t)[..s.owed] == Pending(s)
               case Write(k, v) => t.sent == s.sent && t.owed == s.owed && Pending(t) == Pending(s)[k := v]
               case Submit(nb) => t.sent == s.sent + Pending(s)[..nb] && Pending(t) == Pending(s)[nb..]
               case _ => t.sent == s.sent && t.owed == s.owed && Pending(t) == Pending(s)
  {
    hide Wrap32, And, Reaches, Reachable;
    var start, seenCons, seenProd := ReachableInv(size, s);
    StepKeepsSlots(s, op);
    match op
    case Reserve(_) => PendingAt(s, start); PendingAt(Step(s, op), start);
    case Write(_, _) => WritePending(s, op, start);
    case Submit(_) => SubmitPending(s, op, start);
    case _ =>
  }

  lemma WritePending<T>(s: System<T>, op: Op<T>, start: int)
    requires op.Write? && SlotsInRange(s) && Legal(s, op) && SlotsInRange(Step(s, op)) && PowerOfTwoSize(s.size, s.mask)
    requires s.producer == Wrap32(start + |s.sent|) && s.owed <= s.size
    ensures Pending(Step(s, op)) == Pending(s)[op.k := op.v]
  {
    var t, from := Step(s, op), start + |s.sent|;
    WriteOneSlot(s, op, from);
    PendingAt(s, start);
    PendingAt(t, start);
    hide Wrap32, And, Pending, PowerOfTwoSize, SlotsInRange;
    forall i | 0 <= i < s.owed ensures Pending(t)[i] == Pending(s)[op.k := op.v][i] {
      assert Pending(t)[from + i - from] == t.slots[Slot(s.mask, from + i)];
      assert Pending(s)[from + i - from] == s.slots[Slot(s.mask, from + i)];
    }
  }

  lemma SubmitPending<T>(s: System<T>, op: Op<T>, start: int)
    requires op.Submit? && SlotsInRange(s) && Legal(s, op) && SlotsInRange(Step(s, op))
    requires s.producer == Wrap32(start + |s.sent|)
    ensures Step(s, op).sent == s.sent + Pending(s)[..op.nb] && Pending(Step(s, op)) == Pending(s)[op.nb..]
  {
    var t, from := Step(s, op), start + |s.sent|;
    AddToWrapped(from, op.nb);
    assert t.producer == Wrap32(from + op.nb) && t.owed == s.owed - op.nb && t.slots == s.slots && t.mask == s.mask;
    assert t.sent == s.sent + Contents(s, s.producer, op.nb);
    assert Contents(s, s.producer, op.nb) == Pending(s)[..op.nb];
    hide Step, Wrap32, And, Pending, Contents, Slot, SlotsInRange;
    PendingAt(s, start);
    PendingAt(t, start);
    forall i | 0 <= i < t.owed ensures Pending(t)[i] == Pending(s)[op.nb..][i] {
      var g := from + op.nb + i;
      assert Pending(t)[g - (from + op.nb)] == t.slots[Slot(t.mask, g)];
      assert Pending(s)[g - from] == s.slots[Slot(s.mask, g)];
    }
  }

  lemma PendingAt<T>(s: System<T>, start: int)
    requires SlotsInRange(s) && s.producer == Wrap32(start + |s.sent|)
    ensures var from := start + |s.sent|;
            forall g :: from <= g < from + s.owed ==> Pending(s)[g - from] == s.slots[Slot(s.mask, g)]
  {
    hide Wrap32;
    ContentsAt(s, start + |s.sent|, s.owed);
  }

  /** Among the entries reserved, a write changes the slot of one and no other. */
  lemma WriteOneSlot<T>(s: System<T>, op: Op<T>, from: int)
    requires op.Write? && SlotsInRange(s) && Legal(s, op) && PowerOfTwoSize(s.size, s.mask)
    requires s.producer == Wrap32(from) && s.owed <= s.size
    ensures forall g :: from <= g < from + s.owed ==>
      Step(s, op).slots[Slot(s.mask, g)] == if g == from + op.k then op.v else s.slots[Slot(s.mask, g)]
  {
    hide Wrap32, And;
    var at := from + op.k;
    AddToWrapped(from, op.k);
    assert Slot(s.mask, s.producer + op.k) == Slot(s.mask, at);
    forall g | from <= g < from + s.owed && g != at
      ensures Slot(s.mask, g) != Slot(s.mask, at)
    {
      if g < at {
        NearbySlotsDiffer(s.size, s.mask, g, at);
      } else {
        NearbySlotsDiffer(s.size, s.mask, at, g);
      }
    }
  }
}
