/** What the allocator guarantees over whole runs of calls on all CPUs. */
module AllocRuns {
  import opened Machine
  import opened UserMemory
  import opened Alloc

  // ---------- Partitions ----------

  function PartStart(cfg: Config, c: nat): int
    requires cfg.totalCpus > 0
  {
    cfg.startAddr + PartitionSize(cfg) * c
  }

  function PartEnd(cfg: Config, c: nat): int
    requires cfg.totalCpus > 0
  {
    PartStart(cfg, c) + PartitionSize(cfg)
  }

  /** An area that is not at address 0 and gives every CPU room for the largest block. */
  ghost predicate Usable(cfg: Config) {
    && cfg.totalCpus > 0
    && 0 < cfg.startAddr <= cfg.endAddr
    && PartitionSize(cfg) >= MAX_BUFFER_SIZE
  }

  lemma PartitionInArea(cfg: Config, c: nat)
    requires Usable(cfg) && c < cfg.totalCpus
    ensures cfg.startAddr <= PartStart(cfg, c) < PartEnd(cfg, c) <= cfg.endAddr
  {
    var p := PartitionSize(cfg);
    var length := cfg.endAddr - cfg.startAddr;
    RemainderUnique(length, TWO_64, 0, length);
    QuotientIsDivision(length, cfg.totalCpus);
    assert p * cfg.totalCpus + length % cfg.totalCpus == length;
    MulMonotone(p, 0, c);
    MulMonotone(p, c + 1, cfg.totalCpus);
    assert p * (c + 1) == p * c + p;
  }

  lemma PartitionsOrdered(cfg: Config, c: nat, d: nat)
    requires Usable(cfg) && c < d
    ensures PartEnd(cfg, c) <= PartStart(cfg, d)
  {
    var p := PartitionSize(cfg);
    MulMonotone(p, c + 1, d);
    assert p * (c + 1) == p * c + p;
  }

  /** The size of a partition, also where the unsigned difference wraps. */
  lemma PartitionSizeIs(cfg: Config)
    requires cfg.totalCpus > 0
    ensures var length := cfg.endAddr - cfg.startAddr;
            PartitionSize(cfg) == (if length >= 0 then length else length + TWO_64) / cfg.totalCpus
  {
    var length := cfg.endAddr - cfg.startAddr;
    if length >= 0 {
      RemainderUnique(length, TWO_64, 0, length);
    } else {
      RemainderUnique(length, TWO_64, -1, length + TWO_64);
    }
    QuotientIsDivision(Sub64(cfg.endAddr, cfg.startAddr), cfg.totalCpus);
  }

  /** The partitions tile the area: from its start, without gaps, up to a rest of fewer bytes than there are CPUs. */
  lemma PartitionsTile(cfg: Config, c: nat)
    requires Usable(cfg) && c < cfg.totalCpus
    ensures PartStart(cfg, 0) == cfg.startAddr
    ensures PartEnd(cfg, c) - PartStart(cfg, c) == (cfg.endAddr - cfg.startAddr) / cfg.totalCpus
    ensures c + 1 < cfg.totalCpus ==> PartEnd(cfg, c) == PartStart(cfg, c + 1)
    ensures c + 1 == cfg.totalCpus ==> cfg.endAddr - cfg.totalCpus < PartEnd(cfg, c) <= cfg.endAddr
  {
    PartitionSizeIs(cfg);
    hide PartitionSize;
    var p, length := PartitionSize(cfg), cfg.endAddr - cfg.startAddr;
    assert p * cfg.totalCpus + length % cfg.totalCpus == length;
    assert p * (c + 1) == p * c + p;
  }

  // ---------- One call ----------

  /** The recorded end of a CPU's partition is right, and is recorded before any start is. */
  ghost predicate Consistent(cfg: Config, m: AllocMap, c: nat)
    requires WellShaped(cfg, m) && cfg.totalCpus > c
  {
    && (Lookup(m, END_INDEX, c) != 0 ==> Lookup(m, END_INDEX, c) == PartEnd(cfg, c))
    && (Lookup(m, START_INDEX, c) != 0 ==> Lookup(m, END_INDEX, c) != 0)
  }

  /** Where the next block on a CPU goes if it fits. */
  ghost function Current(cfg: Config, m: AllocMap, c: nat): int
    requires WellShaped(cfg, m) && cfg.totalCpus > c
  {
    if Lookup(m, START_INDEX, c) == 0 then PartStart(cfg, c) else Lookup(m, START_INDEX, c)
  }

  lemma AreaOfPartition(cfg: Config, c: nat)
    requires Usable(cfg) && c < cfg.totalCpus
    ensures Add64(cfg.startAddr, PartitionSize(cfg) * c) == PartStart(cfg, c)
    ensures PartStart(cfg, c) < TWO_64 && Add64(PartStart(cfg, c), PartitionSize(cfg)) == PartEnd(cfg, c)
  {
    PartitionInArea(cfg, c);
    RemainderUnique(PartStart(cfg, c), TWO_64, 0, PartStart(cfg, c));
    RemainderUnique(PartEnd(cfg, c), TWO_64, 0, PartEnd(cfg, c));
  }

  /** A request stores as many bytes as it asks for, but at least 1 and at most 1024. */
  lemma ClampedIs(size: s32)
    ensures Clamped(size) == Max(1, Min(size, 1024))
  {
  }

  /** Everything a call with data does, in terms of the CPU's current position. */
  lemma CallEffect(cfg: Config, s: State, call: Call)
    requires Usable(cfg) && Callable(cfg, s, call) && call.data.Some?
    requires Consistent(cfg, s.alloc, call.cpu)
    ensures 0 < PartEnd(cfg, call.cpu) < TWO_64 && 0 < Current(cfg, s.alloc, call.cpu) < TWO_64
    ensures var c, o, cur := call.cpu, WriteTargetData(cfg, s, call), Current(cfg, s.alloc, call.cpu);
            && o.wrapped == (Sub64(PartEnd(cfg, c), cur) < Wrap64(call.size))
            && o.target == (if o.wrapped then PartStart(cfg, c) else cur)
            && o.stored == (if call.ok then Clamped(call.size) else 0)
            && o.result == (if call.ok then o.target else 0)
            && Lookup(o.state.alloc, END_INDEX, c) == PartEnd(cfg, c)
            && Lookup(o.state.alloc, START_INDEX, c) == (if call.ok then Bump(o.target, o.stored) else o.target)
            && o.state.mem == (if call.ok then Poke(s.mem, o.target, call.data.value[..o.stored]) else s.mem)
    ensures var o := WriteTargetData(cfg, s, call);
            forall d: nat :: d < cfg.totalCpus && d != call.cpu ==>
              && Lookup(o.state.alloc, END_INDEX, d) == Lookup(s.alloc, END_INDEX, d)
              && Lookup(o.state.alloc, START_INDEX, d) == if o.wrapped then 0 else Lookup(s.alloc, START_INDEX, d)
  {
    AreaOfPartition(cfg, call.cpu);
    PartitionInArea(cfg, call.cpu);
    hide Add64, Sub64, Wrap64, Update, Delete, PartitionSize, Poke, Bump, Clamped;
  }

  lemma NoDataNoEffect(cfg: Config, s: State, call: Call)
    requires Callable(cfg, s, call) && call.data.None?
    ensures WriteTargetData(cfg, s, call) == Outcome(s, 0, false, 0, 0)
  {
  }

  lemma BumpFacts(start: u64, n: nat)
    requires start + n + 8 <= TWO_64
    ensures start + n <= Bump(start, n) < start + n + 8 && Bump(start, n) % 8 == 0
  {
    RemainderUnique(start + n, TWO_64, 0, start + n);
    var u := start + n;
    if u % 8 != 0 {
      var v := u + (8 - u % 8);
      RemainderUnique(v, TWO_64, 0, v);
      assert v == 8 * (u / 8 + 1);
    }
  }

  /** A block that ends inside an aligned area leaves the bump pointer inside it. */
  lemma BumpWithin(start: u64, n: nat, end: u64)
    requires start + n <= end && end % 8 == 0
    ensures start + n <= Bump(start, n) <= end && Bump(start, n) < start + n + 8 && Bump(start, n) % 8 == 0
  {
    RemainderUnique(start + n, TWO_64, 0, start + n);
    var u := start + n;
    if u % 8 != 0 {
      var v := u + (8 - u % 8);
      assert v == 8 * (u / 8 + 1);
      assert end == 8 * (end / 8);
      RemainderUnique(v, TWO_64, 0, v);
    }
  }

  // ---------- Runs ----------

  /** Calls the probes can make: on an existing CPU, with a large enough buffer. */
  ghost predicate CallsOk(cfg: Config, calls: seq<Call>) {
    forall i :: 0 <= i < |calls| ==>
      && calls[i].cpu < cfg.totalCpus
      && (calls[i].data.Some? ==> Clamped(calls[i].size) <= |calls[i].data.value|)
  }

  function Run(cfg: Config, s: State, calls: seq<Call>): (r: State)
    requires WellShaped(cfg, s.alloc) && CallsOk(cfg, calls)
    ensures WellShaped(cfg, r.alloc)
    decreases |calls|
  {
    if calls == [] then s else Run(cfg, WriteTargetData(cfg, s, calls[0]).state, calls[1..])
  }

  lemma {:induction false} RunConcat(cfg: Config, s: State, a: seq<Call>, b: seq<Call>)
    requires WellShaped(cfg, s.alloc) && CallsOk(cfg, a) && CallsOk(cfg, b)
    ensures CallsOk(cfg, a + b) && Run(cfg, s, a + b) == Run(cfg, Run(cfg, s, a), b)
    decreases |a|
  {
    if a == [] {
      assert a + b == b;
    } else {
      RunConcat(cfg, WriteTargetData(cfg, s, a[0]).state, a[1..], b);
      assert (a + b)[0] == a[0] && (a + b)[1..] == a[1..] + b;
    }
  }

  function Fresh(mem: Memory): State {
    State(map[], mem)
  }

  /** Every CPU's bump pointer is unset or inside its partition. */
  ghost predicate Inv(cfg: Config, s: State)
    requires cfg.totalCpus > 0
  {
    && WellShaped(cfg, s.alloc)
    && forall c: nat :: c < cfg.totalCpus ==>
      && Consistent(cfg, s.alloc, c)
      && PartStart(cfg, c) <= Current(cfg, s.alloc, c) <= PartEnd(cfg, c)
  }

  ghost predicate PartitionsAligned(cfg: Config)
    requires cfg.totalCpus > 0
  {
    forall c: nat :: c < cfg.totalCpus ==> PartEnd(cfg, c) % 8 == 0
  }

  ghost predicate Inside(cfg: Config, c: nat, o: Outcome)
    requires cfg.totalCpus > 0
  {
    o.stored > 0 ==> PartStart(cfg, c) <= o.target && o.target + o.stored <= PartEnd(cfg, c)
  }

  lemma StartsInside(cfg: Config, mem: Memory)
    requires Usable(cfg)
    ensures Inv(cfg, Fresh(mem))
  {
  }

  /** Where a block of nonzero size goes: it fits, because a request that does not fit starts over. */
  lemma TargetFits(cfg: Config, s: State, call: Call)
    requires Usable(cfg) && Inv(cfg, s) && Callable(cfg, s, call) && call.data.Some? && call.size != 0
    ensures var o := WriteTargetData(cfg, s, call);
            PartStart(cfg, call.cpu) <= o.target && o.target + Clamped(call.size) <= PartEnd(cfg, call.cpu)
  {
    hide WriteTargetData, PartStart, Poke;
    CallEffect(cfg, s, call);
    PartitionInArea(cfg, call.cpu);
    var end, cur := PartEnd(cfg, call.cpu), Current(cfg, s.alloc, call.cpu);
    RemainderUnique(end - cur, TWO_64, 0, end - cur);
    if call.size > 0 {
      RemainderUnique(call.size, TWO_64, 0, call.size);
    } else {
      RemainderUnique(call.size, TWO_64, -1, call.size + TWO_64);
    }
  }

  lemma StepInv(cfg: Config, s: State, call: Call)
    requires Usable(cfg) && PartitionsAligned(cfg) && Inv(cfg, s) && Callable(cfg, s, call) && call.size != 0
    ensures Inv(cfg, WriteTargetData(cfg, s, call).state)
    ensures Inside(cfg, call.cpu, WriteTargetData(cfg, s, call))
  {
    hide WriteTargetData, PartStart;
    if call.data.Some? {
      var o := WriteTargetData(cfg, s, call);
      CallEffect(cfg, s, call);
      TargetFits(cfg, s, call);
      BumpWithin(o.target, Clamped(call.size), PartEnd(cfg, call.cpu));
      forall c: nat | c < cfg.totalCpus
        ensures Consistent(cfg, o.state.alloc, c)
        ensures PartStart(cfg, c) <= Current(cfg, o.state.alloc, c) <= PartEnd(cfg, c)
      {
        PartitionInArea(cfg, c);
        hide Bump;
      }
    } else {
      NoDataNoEffect(cfg, s, call);
    }
  }

  // ---------- Containment ----------

  ghost predicate NoZeroSizes(calls: seq<Call>) {
    forall i :: 0 <= i < |calls| ==> calls[i].size != 0
  }

  /** Every block stored in the run lies in the partition of the CPU that stored it. */
  ghost predicate StaysInside(cfg: Config, s: State, calls: seq<Call>)
    requires WellShaped(cfg, s.alloc) && CallsOk(cfg, calls) && cfg.totalCpus > 0
    decreases |calls|
  {
    calls == [] ||
    var o := WriteTargetData(cfg, s, calls[0]);
    Inside(cfg, calls[0].cpu, o) && StaysInside(cfg, o.state, calls[1..])
  }

  lemma {:induction false} AlignedRunStaysInside(cfg: Config, s: State, calls: seq<Call>)
    requires Usable(cfg) && PartitionsAligned(cfg) && Inv(cfg, s) && CallsOk(cfg, calls) && NoZeroSizes(calls)
    ensures StaysInside(cfg, s, calls) && Inv(cfg, Run(cfg, s, calls))
    decreases |calls|
  {
    hide WriteTargetData, PartStart;
    if calls != [] {
      StepInv(cfg, s, calls[0]);
      AlignedRunStaysInside(cfg, WriteTargetData(cfg, s, calls[0]).state, calls[1..]);
    }
  }

  function Filler(n: nat): seq<byte> {
    seq(n, _ => 0)
  }

  /** A call that stores n zero bytes. */
  function Fill(c: nat, n: nat): Call
    requires n < 0x8000_0000
  {
    Call(c, Some(Filler(n)), n, true)
  }

  lemma FillInPlace(cfg: Config, s: State, c: nat, n: nat)
    requires Usable(cfg) && c < cfg.totalCpus && WellShaped(cfg, s.alloc) && Consistent(cfg, s.alloc, c)
    requires 1 <= n <= MAX_BUFFER_SIZE && Current(cfg, s.alloc, c) + n <= PartEnd(cfg, c)
    ensures Callable(cfg, s, Fill(c, n))
    ensures var o := WriteTargetData(cfg, s, Fill(c, n));
            !o.wrapped && o.target == Current(cfg, s.alloc, c) && o.stored == n
  {
    hide WriteTargetData, PartStart, Poke;
    CallEffect(cfg, s, Fill(c, n));
    var room := PartEnd(cfg, c) - Current(cfg, s.alloc, c);
    PartitionInArea(cfg, c);
    RemainderUnique(room, TWO_64, 0, room);
    RemainderUnique(n, TWO_64, 0, n);
  }

  /** Past the end of its partition the unsigned test for room always succeeds. */
  lemma FillPastEnd(cfg: Config, s: State, c: nat)
    requires Usable(cfg) && c < cfg.totalCpus && WellShaped(cfg, s.alloc) && Consistent(cfg, s.alloc, c)
    requires PartEnd(cfg, c) < Current(cfg, s.alloc, c) < PartEnd(cfg, c) + 8
    ensures Callable(cfg, s, Fill(c, 1)) && !Inside(cfg, c, WriteTargetData(cfg, s, Fill(c, 1)))
  {
    hide WriteTargetData, PartStart, Poke;
    CallEffect(cfg, s, Fill(c, 1));
    var room := PartEnd(cfg, c) - Current(cfg, s.alloc, c);
    RemainderUnique(room, TWO_64, -1, room + TWO_64);
  }

  /** If the end of a partition is not aligned, its CPU can run past it: fill it, then ask for one byte. */
  lemma {:induction false} UnalignedRunEscapes(cfg: Config, s: State, c: nat) returns (calls: seq<Call>)
    requires Usable(cfg) && cfg.endAddr + 8 <= TWO_64 && c < cfg.totalCpus && PartEnd(cfg, c) % 8 != 0
    requires WellShaped(cfg, s.alloc) && Consistent(cfg, s.alloc, c)
    requires 0 < Current(cfg, s.alloc, c) < PartEnd(cfg, c) + 8 && Current(cfg, s.alloc, c) != PartEnd(cfg, c)
    ensures CallsOk(cfg, calls) && NoZeroSizes(calls) && !StaysInside(cfg, s, calls)
    decreases PartEnd(cfg, c) + 8 - Current(cfg, s.alloc, c)
  {
    hide WriteTargetData, PartStart;
    var cur, end := Current(cfg, s.alloc, c), PartEnd(cfg, c);
    PartitionInArea(cfg, c);
    if cur > end {
      FillPastEnd(cfg, s, c);
      calls := [Fill(c, 1)];
    } else {
      var n := Min(end - cur, MAX_BUFFER_SIZE);
      var call := Fill(c, n);
      FillInPlace(cfg, s, c, n);
      CallEffect(cfg, s, call);
      BumpFacts(cur, n);
      var t := WriteTargetData(cfg, s, call).state;
      var rest := UnalignedRunEscapes(cfg, t, c);
      calls := [call] + rest;
      assert calls[1..] == rest;
    }
  }

  /** Every legal run from a fresh map keeps every block inside its CPU's partition. */
  ghost predicate AlwaysInside(cfg: Config)
    requires cfg.totalCpus > 0
  {
    forall mem: Memory, calls: seq<Call> :: CallsOk(cfg, calls) && NoZeroSizes(calls) ==>
      StaysInside(cfg, Fresh(mem), calls)
  }

  /**
   Requests of nonzero size never leave the calling CPU's partition, in any run over all CPUs, exactly
   when every partition ends at a multiple of 8.
   */
  lemma InsideIffAligned(cfg: Config)
    requires Usable(cfg) && cfg.endAddr + 8 <= TWO_64
    ensures AlwaysInside(cfg) <==> PartitionsAligned(cfg)
  {
    if PartitionsAligned(cfg) {
      forall mem: Memory, calls: seq<Call> | CallsOk(cfg, calls) && NoZeroSizes(calls)
        ensures StaysInside(cfg, Fresh(mem), calls)
      {
        StartsInside(cfg, mem);
        AlignedRunStaysInside(cfg, Fresh(mem), calls);
      }
    } else {
      var c: nat :| c < cfg.totalCpus && PartEnd(cfg, c) % 8 != 0;
      PartitionInArea(cfg, c);
      var calls := UnalignedRunEscapes(cfg, Fresh(map[]), c);
    }
  }

  /** Blocks inside the partitions of two CPUs share no byte. */
  lemma BlocksOfCpusDisjoint(cfg: Config, c: nat, d: nat, o: Outcome, p: Outcome)
    requires Usable(cfg) && c != d && c < cfg.totalCpus && d < cfg.totalCpus
    requires Inside(cfg, c, o) && Inside(cfg, d, p) && o.stored > 0 && p.stored > 0
    ensures o.target + o.stored <= p.target || p.target + p.stored <= o.target
  {
    if c < d {
      PartitionsOrdered(cfg, c, d);
    } else {
      PartitionsOrdered(cfg, d, c);
    }
  }

  /** A request of size 0 stores one byte unchecked: it leaves the partition exactly when that is full. */
  lemma ZeroSizeInsideIffRoom(cfg: Config, s: State, call: Call)
    requires Usable(cfg) && Inv(cfg, s) && Callable(cfg, s, call) && call.data.Some? && call.size == 0 && call.ok
    ensures Inside(cfg, call.cpu, WriteTargetData(cfg, s, call)) <==>
            Current(cfg, s.alloc, call.cpu) < PartEnd(cfg, call.cpu)
  {
    hide WriteTargetData, PartStart, Poke;
    CallEffect(cfg, s, call);
    PartitionInArea(cfg, call.cpu);
  }

  /** A full partition is reached by filling it; one call of size 0 then stores its byte past the end. */
  lemma {:induction false} ZeroSizeRunEscapes(cfg: Config, s: State, c: nat) returns (calls: seq<Call>)
    requires Usable(cfg) && PartitionsAligned(cfg) && Inv(cfg, s) && c < cfg.totalCpus
    ensures CallsOk(cfg, calls) && !StaysInside(cfg, s, calls)
    decreases PartEnd(cfg, c) - Current(cfg, s.alloc, c)
  {
    hide WriteTargetData, PartStart;
    var cur, end := Current(cfg, s.alloc, c), PartEnd(cfg, c);
    PartitionInArea(cfg, c);
    if cur == end {
      var call := Call(c, Some([0]), 0, true);
      ZeroSizeInsideIffRoom(cfg, s, call);
      calls := [call];
    } else {
      var n := Min(end - cur, MAX_BUFFER_SIZE);
      var call := Fill(c, n);
      FillInPlace(cfg, s, c, n);
      CallEffect(cfg, s, call);
      BumpWithin(cur, n, end);
      StepInv(cfg, s, call);
      var rest := ZeroSizeRunEscapes(cfg, WriteTargetData(cfg, s, call).state, c);
      calls := [call] + rest;
      assert calls[1..] == rest;
    }
  }

  /** With sizes of 0 allowed, no area at all keeps every run inside its partitions. */
  lemma ZeroSizesNeverInside(cfg: Config)
    requires Usable(cfg) && cfg.endAddr + 8 <= TWO_64
    ensures exists calls :: CallsOk(cfg, calls) && !StaysInside(cfg, Fresh(map[]), calls)
  {
    StartsInside(cfg, map[]);
    if PartitionsAligned(cfg) {
      var calls := ZeroSizeRunEscapes(cfg, Fresh(map[]), 0);
    } else {
      var c: nat :| c < cfg.totalCpus && PartEnd(cfg, c) % 8 != 0;
      PartitionInArea(cfg, c);
      var calls := UnalignedRunEscapes(cfg, Fresh(map[]), c);
    }
  }

  // ---------- Blocks stay untouched ----------

  /** No request of size 0, and on CPU c none above the limit, when sizes are read as unsigned numbers. */
  ghost predicate SizesFor(calls: seq<Call>, c: nat, limit: int) {
    forall i :: 0 <= i < |calls| ==> calls[i].size != 0 && (calls[i].cpu == c ==> Wrap64(calls[i].size) <= limit)
  }

  /** A number of bytes rounded up to a multiple of 8. */
  function RoundUp(n: nat): nat {
    (n + 7) / 8 * 8
  }

  /** The bytes allocated on CPU c by the calls, each block rounded up. */
  ghost function Allocated(cfg: Config, s: State, calls: seq<Call>, c: nat): nat
    requires WellShaped(cfg, s.alloc) && CallsOk(cfg, calls)
    decreases |calls|
  {
    if calls == [] then 0 else
      var o := WriteTargetData(cfg, s, calls[0]);
      (if calls[0].cpu == c then RoundUp(o.stored) else 0) + Allocated(cfg, o.state, calls[1..], c)
  }

  /** Some call on a CPU other than c starts over, which also forgets where CPU c was. */
  ghost predicate ForeignWrap(cfg: Config, s: State, calls: seq<Call>, c: nat)
    requires WellShaped(cfg, s.alloc) && CallsOk(cfg, calls)
    decreases |calls|
  {
    calls != [] &&
    var o := WriteTargetData(cfg, s, calls[0]);
    (calls[0].cpu != c && o.wrapped) || ForeignWrap(cfg, o.state, calls[1..], c)
  }

  /** The area starts at a multiple of 8 and every partition is a multiple of 8 long. */
  ghost predicate AlignedArea(cfg: Config)
    requires cfg.totalCpus > 0
  {
    cfg.startAddr % 8 == 0 && PartitionSize(cfg) % 8 == 0
  }

  lemma AlignedAreaPartitions(cfg: Config)
    requires Usable(cfg) && AlignedArea(cfg)
    ensures PartitionsAligned(cfg)
    ensures forall c: nat :: PartStart(cfg, c) % 8 == 0
  {
    forall c: nat
      ensures PartStart(cfg, c) % 8 == 0 && PartEnd(cfg, c) % 8 == 0
    {
      var q, p := cfg.startAddr / 8, PartitionSize(cfg) / 8;
      assert PartitionSize(cfg) * c == 8 * (p * c) by {
        MulAssociative(8, p, c);
      }
      RemainderUnique(PartStart(cfg, c), 8, q + p * c, 0);
      RemainderUnique(PartEnd(cfg, c), 8, q + p * c + p, 0);
    }
  }

  lemma RoundUpAligned(t: int, n: nat)
    requires t % 8 == 0
    ensures (t + RoundUp(n)) % 8 == 0 && n <= RoundUp(n) < n + 8
    ensures forall x :: x % 8 == 0 && t + n <= x < t + n + 8 ==> x == t + RoundUp(n)
  {
  }

  /** A block of n bytes at t in the partition of CPU c. */
  ghost predicate BlockOf(cfg: Config, c: nat, t: int, n: nat) {
    && c < cfg.totalCpus && t % 8 == 0 && 1 <= n <= MAX_BUFFER_SIZE
    && PartStart(cfg, c) <= t && t + RoundUp(n) <= PartEnd(cfg, c)
  }

  /**
   After `a` further bytes on its CPU, in requests up to the limit, the bump pointer is either still above the
   block, or it has started over once, and then everything between the block and the last limit - 1 bytes counts
   towards `a`.
   */
  ghost predicate Ahead(cfg: Config, s: State, c: nat, t: int, n: nat, a: nat, limit: int)
    requires WellShaped(cfg, s.alloc) && c < cfg.totalCpus
  {
    var cur, past := Lookup(s.alloc, START_INDEX, c), t + RoundUp(n);
    && cur != 0 && cur % 8 == 0
    && (cur == past + a || a >= Max(0, PartEnd(cfg, c) - (limit - 1) - past) + (cur - PartStart(cfg, c)))
  }

  /** The allocator starts over only when fewer bytes are left than the request asks for. */
  lemma WrapNearEnd(cfg: Config, s: State, call: Call)
    requires Usable(cfg) && Inv(cfg, s) && Callable(cfg, s, call) && call.data.Some? && call.size != 0
    ensures 1 <= Wrap64(call.size) && (call.size > 0 ==> Wrap64(call.size) == call.size)
    ensures WriteTargetData(cfg, s, call).wrapped <==>
            PartEnd(cfg, call.cpu) - Current(cfg, s.alloc, call.cpu) < Wrap64(call.size)
  {
    hide WriteTargetData, PartStart, Poke;
    CallEffect(cfg, s, call);
    PartitionInArea(cfg, call.cpu);
    var room := PartEnd(cfg, call.cpu) - Current(cfg, s.alloc, call.cpu);
    RemainderUnique(room, TWO_64, 0, room);
    if call.size > 0 {
      RemainderUnique(call.size, TWO_64, 0, call.size);
    } else {
      RemainderUnique(call.size, TWO_64, -1, call.size + TWO_64);
    }
  }

  /** The bump pointer from cur to next, as plain numbers: a block [t, past) is not reached in time. */
  lemma NotReachedInTime(start: int, end: int, t: int, past: int, cur: int, asked: int, limit: int, a: int, m: int)
    requires start <= t <= past <= end && past - t <= MAX_BUFFER_SIZE && 1 <= asked <= limit
    requires cur == past + a || a >= Max(0, end - (limit - 1) - past) + (cur - start)
    requires start <= cur && 0 <= a && 0 <= m && a + m <= end - start - MAX_BUFFER_SIZE - limit
    ensures var target := if end - cur < asked then start else cur;
            && (target >= past || target + m <= t)
            && (target + m == past + (a + m) || a + m >= Max(0, end - (limit - 1) - past) + (target + m - start))
  {
  }

  /** In an aligned area a call moves the bump pointer by exactly the rounded size of its block. */
  lemma OwnCallMoves(cfg: Config, s: State, call: Call)
    requires Usable(cfg) && AlignedArea(cfg) && Inv(cfg, s) && Callable(cfg, s, call) && call.data.Some?
    requires call.size != 0 && Current(cfg, s.alloc, call.cpu) % 8 == 0
    ensures 1 <= Wrap64(call.size)
    ensures var o, cur := WriteTargetData(cfg, s, call), Current(cfg, s.alloc, call.cpu);
            && o.target == (if PartEnd(cfg, call.cpu) - cur < Wrap64(call.size) then PartStart(cfg, call.cpu) else cur)
            && o.target % 8 == 0 && 0 < o.target
            && Lookup(o.state.alloc, START_INDEX, call.cpu) == o.target + RoundUp(o.stored)
            && o.stored <= RoundUp(o.stored)
            && (o.target + RoundUp(o.stored)) % 8 == 0
  {
    var c, o := call.cpu, WriteTargetData(cfg, s, call);
    AlignedAreaPartitions(cfg);
    CallEffect(cfg, s, call);
    TargetFits(cfg, s, call);
    WrapNearEnd(cfg, s, call);
    BumpWithin(o.target, Clamped(call.size), PartEnd(cfg, c));
    PartitionInArea(cfg, c);
    assert o.target % 8 == 0;
    BlockSpan(1);
    RoundUpAligned(o.target, o.stored);
    hide Bump, PartStart, PartitionSize, RoundUp, WriteTargetData, Lookup, Clamped;
  }

  lemma OwnCallKeepsBlock(cfg: Config, s: State, call: Call, t: int, n: nat, a: nat, limit: int)
    requires Usable(cfg) && AlignedArea(cfg) && Inv(cfg, s) && Callable(cfg, s, call)
    requires call.size != 0 && Wrap64(call.size) <= limit
    requires BlockOf(cfg, call.cpu, t, n) && Ahead(cfg, s, call.cpu, t, n, a, limit)
    requires a + RoundUp(WriteTargetData(cfg, s, call).stored) <= PartitionSize(cfg) - MAX_BUFFER_SIZE - limit
    ensures var o := WriteTargetData(cfg, s, call);
            && Ahead(cfg, o.state, call.cpu, t, n, a + RoundUp(o.stored), limit)
            && SameOn(o.state.mem, s.mem, t, t + n)
  {
    if call.data.Some? {
      var c, o := call.cpu, WriteTargetData(cfg, s, call);
      var cur := Current(cfg, s.alloc, c);
      OwnCallMoves(cfg, s, call);
      CallEffect(cfg, s, call);
      BlockSpan(n);
      assert Lookup(o.state.alloc, START_INDEX, c) == o.target + RoundUp(o.stored);
      assert SameOn(o.state.mem, s.mem, t, t + n) <== o.target >= t + RoundUp(n) || o.target + RoundUp(o.stored) <= t;
      hide Bump, RoundUp, WriteTargetData, Clamped, PartStart, PartitionSize, Wrap64;
      hide SameOn, Inv, AlignedArea, Consistent;
      NotReachedInTime(PartStart(cfg, c), PartEnd(cfg, c), t, t + RoundUp(n), cur, Wrap64(call.size), limit, a,
                       RoundUp(o.stored));
    }
  }

  lemma BlockSpan(n: nat)
    requires 1 <= n <= MAX_BUFFER_SIZE
    ensures n <= RoundUp(n) <= MAX_BUFFER_SIZE && RoundUp(0) == 0
  {
  }

  /** A block stored on one CPU leaves the partitions of the others alone. */
  lemma OtherPartitionUnchanged(cfg: Config, s: State, call: Call, c: nat)
    requires Usable(cfg) && Inv(cfg, s) && Callable(cfg, s, call) && call.size != 0
    requires c < cfg.totalCpus && call.cpu != c
    ensures SameOn(WriteTargetData(cfg, s, call).state.mem, s.mem, PartStart(cfg, c), PartEnd(cfg, c))
  {
    hide PartitionSize;
    if call.data.Some? {
      CallEffect(cfg, s, call);
      TargetFits(cfg, s, call);
      if call.cpu < c {
        PartitionsOrdered(cfg, call.cpu, c);
      } else {
        PartitionsOrdered(cfg, c, call.cpu);
      }
      hide WriteTargetData, PartStart, Poke;
    }
  }

  lemma OtherCallKeepsBlock(cfg: Config, s: State, call: Call, c: nat, t: int, n: nat, a: nat, limit: int)
    requires Usable(cfg) && AlignedArea(cfg) && Inv(cfg, s) && Callable(cfg, s, call)
    requires call.size != 0 && call.cpu != c
    requires BlockOf(cfg, c, t, n) && Ahead(cfg, s, c, t, n, a, limit)
    requires !WriteTargetData(cfg, s, call).wrapped
    ensures var o := WriteTargetData(cfg, s, call);
            Ahead(cfg, o.state, c, t, n, a, limit) && SameOn(o.state.mem, s.mem, t, t + n)
  {
    if call.data.Some? {
      CallEffect(cfg, s, call);
      OtherPartitionUnchanged(cfg, s, call, c);
      BlockSpan(n);
      hide WriteTargetData, PartStart, Poke, RoundUp;
    }
  }

  lemma {:induction false} RunKeepsBlock(cfg: Config, s: State, calls: seq<Call>, c: nat, t: int, n: nat, a: nat,
                                         limit: int)
    requires Usable(cfg) && AlignedArea(cfg) && Inv(cfg, s) && CallsOk(cfg, calls) && SizesFor(calls, c, limit)
    requires BlockOf(cfg, c, t, n) && Ahead(cfg, s, c, t, n, a, limit)
    requires !ForeignWrap(cfg, s, calls, c)
    requires a + Allocated(cfg, s, calls, c) <= PartitionSize(cfg) - MAX_BUFFER_SIZE - limit
    ensures SameOn(Run(cfg, s, calls).mem, s.mem, t, t + n)
    decreases |calls|
  {
    hide WriteTargetData, PartStart, Poke;
    if calls != [] {
      var call := calls[0];
      var o := WriteTargetData(cfg, s, call);
      AlignedAreaPartitions(cfg);
      StepInv(cfg, s, call);
      if call.cpu == c {
        OwnCallKeepsBlock(cfg, s, call, t, n, a, limit);
        RunKeepsBlock(cfg, o.state, calls[1..], c, t, n, a + RoundUp(o.stored), limit);
      } else {
        OtherCallKeepsBlock(cfg, s, call, c, t, n, a, limit);
        RunKeepsBlock(cfg, o.state, calls[1..], c, t, n, a, limit);
      }
    }
  }

  /** What a successful call leaves behind: a tracked block with nothing allocated after it. */
  lemma BlockStored(cfg: Config, s: State, call: Call, limit: int)
    requires Usable(cfg) && AlignedArea(cfg) && Inv(cfg, s) && Callable(cfg, s, call)
    requires call.size != 0 && call.data.Some? && call.ok
    requires Current(cfg, s.alloc, call.cpu) % 8 == 0
    ensures var o := WriteTargetData(cfg, s, call);
            && o.stored == Clamped(call.size) && BlockOf(cfg, call.cpu, o.target, o.stored)
            && Ahead(cfg, o.state, call.cpu, o.target, o.stored, 0, limit)
  {
    hide WriteTargetData, PartStart, Poke;
    var o := WriteTargetData(cfg, s, call);
    AlignedAreaPartitions(cfg);
    CallEffect(cfg, s, call);
    TargetFits(cfg, s, call);
    BumpWithin(o.target, o.stored, PartEnd(cfg, call.cpu));
    RoundUpAligned(o.target, o.stored);
    hide Bump;
  }

  /** Bump pointers are multiples of 8. */
  ghost predicate PointersAligned(cfg: Config, s: State)
    requires WellShaped(cfg, s.alloc) && cfg.totalCpus > 0
  {
    forall c: nat :: c < cfg.totalCpus ==> Current(cfg, s.alloc, c) % 8 == 0
  }

  lemma {:induction false} RunKeepsPointersAligned(cfg: Config, s: State, calls: seq<Call>)
    requires Usable(cfg) && AlignedArea(cfg) && Inv(cfg, s) && CallsOk(cfg, calls) && NoZeroSizes(calls)
    requires PointersAligned(cfg, s)
    ensures Inv(cfg, Run(cfg, s, calls)) && PointersAligned(cfg, Run(cfg, s, calls))
    decreases |calls|
  {
    hide WriteTargetData, PartStart;
    if calls != [] {
      var call := calls[0];
      var o := WriteTargetData(cfg, s, call);
      AlignedAreaPartitions(cfg);
      StepInv(cfg, s, call);
      if call.data.Some? {
        CallEffect(cfg, s, call);
        TargetFits(cfg, s, call);
        BumpWithin(o.target, Clamped(call.size), PartEnd(cfg, call.cpu));
      } else {
        NoDataNoEffect(cfg, s, call);
      }
      assert PointersAligned(cfg, o.state) by {
        hide Bump;
      }
      RunKeepsPointersAligned(cfg, o.state, calls[1..]);
    }
  }

  /**
   A block was stored by `first` after the calls in `before`, and the calls in `after` followed, with requests up
   to the limit on the block's CPU.
   */
  ghost predicate Scenario(cfg: Config, before: seq<Call>, first: Call, after: seq<Call>, limit: int) {
    && CallsOk(cfg, before + [first] + after) && NoZeroSizes(before + [first])
    && SizesFor(after, first.cpu, limit) && first.data.Some? && first.ok
  }

  /** The bytes of the block are the same after the further calls as before them. */
  ghost predicate Untouched(cfg: Config, s: State, first: Call, after: seq<Call>)
    requires Callable(cfg, s, first) && CallsOk(cfg, after)
  {
    var o := WriteTargetData(cfg, s, first);
    SameOn(Run(cfg, o.state, after).mem, o.state.mem, o.target, o.target + o.stored)
  }

  lemma ScenarioParts(cfg: Config, before: seq<Call>, first: Call, after: seq<Call>, limit: int)
    requires Scenario(cfg, before, first, after, limit)
    ensures CallsOk(cfg, before) && NoZeroSizes(before) && CallsOk(cfg, after) && NoZeroSizes(after)
    ensures first.size != 0 && first.cpu < cfg.totalCpus && Clamped(first.size) <= |first.data.value|
  {
    var all := before + [first] + after;
    forall i | 0 <= i < |before| ensures before[i] == all[i] && before[i] == (before + [first])[i] {}
    forall i | 0 <= i < |after| ensures after[i] == all[|before| + 1 + i] {}
    assert all[|before|] == first && (before + [first])[|before|] == first;
  }

  /**
   A stored block keeps its bytes while no other CPU starts over and its own CPU has allocated at most as many
   further bytes as its partition is larger than 1024 and the largest request there; for requests up to 1024
   that is partition size - 2048. The sizes of all other requests do not matter.
   */
  lemma BlockUntouched(cfg: Config, mem: Memory, before: seq<Call>, first: Call, after: seq<Call>, limit: int)
    requires Usable(cfg) && AlignedArea(cfg) && Scenario(cfg, before, first, after, limit)
    ensures CallsOk(cfg, before) && CallsOk(cfg, after) && Callable(cfg, Run(cfg, Fresh(mem), before), first)
    ensures var s := Run(cfg, Fresh(mem), before);
            var t := WriteTargetData(cfg, s, first).state;
            && !ForeignWrap(cfg, t, after, first.cpu)
            && Allocated(cfg, t, after, first.cpu) <= PartitionSize(cfg) - MAX_BUFFER_SIZE - limit
            ==> Untouched(cfg, s, first, after)
  {
    hide WriteTargetData, PartStart, Poke;
    ScenarioParts(cfg, before, first, after, limit);
    var s := Run(cfg, Fresh(mem), before);
    StartsInside(cfg, mem);
    AlignedAreaPartitions(cfg);
    RunKeepsPointersAligned(cfg, Fresh(mem), before);
    StepInv(cfg, s, first);
    BlockStored(cfg, s, first, limit);
    var o := WriteTargetData(cfg, s, first);
    if !ForeignWrap(cfg, o.state, after, first.cpu)
       && Allocated(cfg, o.state, after, first.cpu) <= PartitionSize(cfg) - MAX_BUFFER_SIZE - limit {
      RunKeepsBlock(cfg, o.state, after, first.cpu, o.target, o.stored, 0, limit);
    }
  }

  /** The same without the proviso about other CPUs. */
  ghost predicate KeptForOwnBytes(cfg: Config, mem: Memory, before: seq<Call>, first: Call, after: seq<Call>,
                                  limit: int)
  {
    && CallsOk(cfg, before) && CallsOk(cfg, after)
    && var s := Run(cfg, Fresh(mem), before);
    && Callable(cfg, s, first)
    && var t := WriteTargetData(cfg, s, first).state;
    Allocated(cfg, t, after, first.cpu) <= PartitionSize(cfg) - MAX_BUFFER_SIZE - limit ==>
      Untouched(cfg, s, first, after)
  }

  ghost predicate AlwaysKeptForOwnBytes(cfg: Config, limit: int) {
    forall mem, before, first, after :: Scenario(cfg, before, first, after, limit) ==>
      KeptForOwnBytes(cfg, mem, before, first, after, limit)
  }

  lemma {:induction false} NoOtherCpu(cfg: Config, s: State, calls: seq<Call>)
    requires WellShaped(cfg, s.alloc) && CallsOk(cfg, calls) && cfg.totalCpus == 1
    ensures !ForeignWrap(cfg, s, calls, 0)
    decreases |calls|
  {
    if calls != [] {
      NoOtherCpu(cfg, WriteTargetData(cfg, s, calls[0]).state, calls[1..]);
    }
  }

  /** Calls on another CPU until it starts over, after which CPU c has forgotten its position. */
  lemma {:induction false} OtherCpuWraps(cfg: Config, s: State, c: nat, d: nat) returns (calls: seq<Call>)
    requires Usable(cfg) && AlignedArea(cfg) && Inv(cfg, s) && c < cfg.totalCpus && d < cfg.totalCpus && c != d
    ensures CallsOk(cfg, calls) && forall i :: 0 <= i < |calls| ==> calls[i].size != 0 && calls[i].cpu == d
    ensures Inv(cfg, Run(cfg, s, calls)) && Allocated(cfg, s, calls, c) == 0
    ensures Current(cfg, Run(cfg, s, calls).alloc, c) == PartStart(cfg, c)
    ensures SameOn(Run(cfg, s, calls).mem, s.mem, PartStart(cfg, c), PartEnd(cfg, c))
    decreases PartEnd(cfg, d) - Current(cfg, s.alloc, d)
  {
    hide WriteTargetData, PartStart, PartitionSize, Poke, Bump;
    var call := Fill(d, MAX_BUFFER_SIZE);
    var o := WriteTargetData(cfg, s, call);
    AlignedAreaPartitions(cfg);
    StepInv(cfg, s, call);
    CallEffect(cfg, s, call);
    TargetFits(cfg, s, call);
    WrapNearEnd(cfg, s, call);
    BumpWithin(o.target, MAX_BUFFER_SIZE, PartEnd(cfg, d));
    OtherPartitionUnchanged(cfg, s, call, c);
    if o.wrapped {
      calls := [call];
      assert calls[1..] == [];
      assert Run(cfg, s, calls) == o.state;
    } else {
      var rest := OtherCpuWraps(cfg, o.state, c, d);
      calls := [call] + rest;
      assert calls[1..] == rest;
      assert Run(cfg, s, calls) == Run(cfg, o.state, rest);
    }
  }

  /** One byte stored by a CPU, overwritten by its next call because another CPU started over in between. */
  lemma ForeignWrapOverwrites(cfg: Config, limit: int) returns (first: Call, after: seq<Call>)
    requires Usable(cfg) && AlignedArea(cfg) && cfg.totalCpus >= 2
    requires limit >= 1 && PartitionSize(cfg) >= MAX_BUFFER_SIZE + limit + 8
    ensures Scenario(cfg, [], first, after, limit) && !KeptForOwnBytes(cfg, map[], [], first, after, limit)
  {
    var s := Fresh(map[]);
    StartsInside(cfg, map[]);
    AlignedAreaPartitions(cfg);
    first := Call(0, Some([0]), 1, true);
    FirstCall(cfg, s, first);
    StepInv(cfg, s, first);
    var t := WriteTargetData(cfg, s, first).state;
    var fill := OtherCpuWraps(cfg, t, 0, 1);
    var u := Run(cfg, t, fill);
    var again := Call(0, Some([1]), 1, true);
    FirstCall(cfg, u, again);
    after := fill + [again];
    OneMoreCall(cfg, t, fill, again, 0);
    PartitionInArea(cfg, 0);
    assert RoundUp(1) == 8;
    ScenarioOf(cfg, first, fill, again, limit);
    hide WriteTargetData, Allocated, RoundUp, PartStart, PartEnd, Run, PartitionSize;
    assert Run(cfg, t, after).mem[PartStart(cfg, 0)] == 1 && t.mem[PartStart(cfg, 0)] == 0;
    assert !SameOn(Run(cfg, t, after).mem, t.mem, PartStart(cfg, 0), PartStart(cfg, 0) + 1);
    assert !Untouched(cfg, s, first, after);
    NothingBefore(cfg, s);
  }

  lemma NothingBefore(cfg: Config, s: State)
    requires WellShaped(cfg, s.alloc)
    ensures Run(cfg, s, []) == s
  {
  }

  lemma ScenarioOf(cfg: Config, first: Call, calls: seq<Call>, last: Call, limit: int)
    requires CallsOk(cfg, [first]) && first.size != 0 && first.data.Some? && first.ok
    requires CallsOk(cfg, calls) && SizesFor(calls, first.cpu, limit)
    requires CallsOk(cfg, [last]) && SizesFor([last], first.cpu, limit)
    ensures Scenario(cfg, [], first, calls + [last], limit)
  {
    var all := [] + [first] + (calls + [last]);
    assert [first][0] == first && [last][0] == last;
    forall i | 0 <= i < |all|
      ensures all[i] == if i == 0 then first else if i == |all| - 1 then last else calls[i - 1]
    {
    }
  }

  lemma OneMoreCall(cfg: Config, s: State, calls: seq<Call>, call: Call, c: nat)
    requires WellShaped(cfg, s.alloc) && CallsOk(cfg, calls) && Callable(cfg, Run(cfg, s, calls), call)
    ensures CallsOk(cfg, calls + [call])
    ensures var t := Run(cfg, s, calls);
            && Run(cfg, s, calls + [call]) == WriteTargetData(cfg, t, call).state
            && Allocated(cfg, s, calls + [call], c) ==
               Allocated(cfg, s, calls, c) + if call.cpu == c then RoundUp(WriteTargetData(cfg, t, call).stored) else 0
  {
    RunConcat(cfg, s, calls, [call]);
    AllocatedConcat(cfg, s, calls, [call], c);
    assert [call][1..] == [];
    hide WriteTargetData;
  }

  /** Where a one-byte call lands when its CPU has no position yet. */
  lemma FirstCall(cfg: Config, s: State, call: Call)
    requires Usable(cfg) && AlignedArea(cfg) && Inv(cfg, s) && Callable(cfg, s, call)
    requires call.data.Some? && call.size == 1 && call.ok && |call.data.value| == 1
    requires Current(cfg, s.alloc, call.cpu) == PartStart(cfg, call.cpu)
    ensures var o := WriteTargetData(cfg, s, call);
            && o.target == PartStart(cfg, call.cpu) && o.stored == 1
            && o.state.mem == Poke(s.mem, o.target, call.data.value)
  {
    hide WriteTargetData, PartStart;
    CallEffect(cfg, s, call);
    WrapNearEnd(cfg, s, call);
    assert call.data.value[..1] == call.data.value;
  }

  lemma {:induction false} AllocatedConcat(cfg: Config, s: State, a: seq<Call>, b: seq<Call>, c: nat)
    requires WellShaped(cfg, s.alloc) && CallsOk(cfg, a) && CallsOk(cfg, b)
    ensures CallsOk(cfg, a + b)
    ensures Allocated(cfg, s, a + b, c) == Allocated(cfg, s, a, c) + Allocated(cfg, Run(cfg, s, a), b, c)
    decreases |a|
  {
    if a == [] {
      assert a + b == b;
    } else {
      AllocatedConcat(cfg, WriteTargetData(cfg, s, a[0]).state, a[1..], b, c);
      assert (a + b)[0] == a[0] && (a + b)[1..] == a[1..] + b;
    }
  }

  /**
   Counting only the bytes of its own CPU, a block is kept in every run for as many further bytes as its partition
   is larger than 1024 and the limit, exactly when there is a single CPU, or the partition is so small that no
   further block is counted.
   */
  lemma KeptForOwnBytesIff(cfg: Config, limit: int)
    requires Usable(cfg) && AlignedArea(cfg) && limit >= 1
    ensures AlwaysKeptForOwnBytes(cfg, limit) <==>
            cfg.totalCpus == 1 || PartitionSize(cfg) < MAX_BUFFER_SIZE + limit + 8
  {
    hide WriteTargetData, PartStart, Poke;
    if cfg.totalCpus == 1 || PartitionSize(cfg) < MAX_BUFFER_SIZE + limit + 8 {
      forall mem, before, first, after | Scenario(cfg, before, first, after, limit)
        ensures KeptForOwnBytes(cfg, mem, before, first, after, limit)
      {
        BlockUntouched(cfg, mem, before, first, after, limit);
        ScenarioParts(cfg, before, first, after, limit);
        var s := Run(cfg, Fresh(mem), before);
        var o := WriteTargetData(cfg, s, first);
        if cfg.totalCpus == 1 {
          NoOtherCpu(cfg, o.state, after);
        } else if Allocated(cfg, o.state, after, first.cpu) <= PartitionSize(cfg) - MAX_BUFFER_SIZE - limit {
          AlignedAreaPartitions(cfg);
          StartsInside(cfg, mem);
          RunKeepsPointersAligned(cfg, Fresh(mem), before);
          StepInv(cfg, s, first);
          CallEffect(cfg, s, first);
          NothingStoredKeeps(cfg, o.state, after, first.cpu);
        }
      }
    } else {
      var first, after := ForeignWrapOverwrites(cfg, limit);
    }
  }

  /** If fewer than 8 bytes are allocated on a CPU, none are, and its partition does not change. */
  lemma {:induction false} NothingStoredKeeps(cfg: Config, s: State, calls: seq<Call>, c: nat)
    requires Usable(cfg) && PartitionsAligned(cfg) && Inv(cfg, s) && CallsOk(cfg, calls) && NoZeroSizes(calls)
    requires c < cfg.totalCpus && Allocated(cfg, s, calls, c) < 8
    ensures SameOn(Run(cfg, s, calls).mem, s.mem, PartStart(cfg, c), PartEnd(cfg, c))
    decreases |calls|
  {
    if calls != [] {
      var call := calls[0];
      var o := WriteTargetData(cfg, s, call);
      hide WriteTargetData, PartStart, PartEnd, PartitionSize, RoundUp, SameOn;
      StepInv(cfg, s, call);
      StepKeepsPartition(cfg, s, call, c);
      NothingStoredKeeps(cfg, o.state, calls[1..], c);
      SameOnTransitive(Run(cfg, s, calls).mem, o.state.mem, s.mem, PartStart(cfg, c), PartEnd(cfg, c));
    }
  }

  lemma StepKeepsPartition(cfg: Config, s: State, call: Call, c: nat)
    requires Usable(cfg) && Inv(cfg, s) && Callable(cfg, s, call) && call.size != 0 && c < cfg.totalCpus
    requires call.cpu == c ==> RoundUp(WriteTargetData(cfg, s, call).stored) < 8
    ensures SameOn(WriteTargetData(cfg, s, call).state.mem, s.mem, PartStart(cfg, c), PartEnd(cfg, c))
  {
    if call.cpu != c {
      OtherPartitionUnchanged(cfg, s, call, c);
    } else if call.data.Some? {
      CallEffect(cfg, s, call);
      RoundUpAligned(0, WriteTargetData(cfg, s, call).stored);
      assert WriteTargetData(cfg, s, call).stored == 0;
      hide WriteTargetData, PartStart;
    }
  }

  // ---------- Between two starts ----------

  ghost predicate NoWrap(cfg: Config, s: State, calls: seq<Call>)
    requires WellShaped(cfg, s.alloc) && CallsOk(cfg, calls)
    decreases |calls|
  {
    calls == [] ||
    var o := WriteTargetData(cfg, s, calls[0]);
    !o.wrapped && NoWrap(cfg, o.state, calls[1..])
  }

  /** Every block the run stores for CPU c starts at e or above. */
  ghost predicate AllAbove(cfg: Config, s: State, calls: seq<Call>, c: nat, e: int)
    requires WellShaped(cfg, s.alloc) && CallsOk(cfg, calls)
    decreases |calls|
  {
    calls == [] ||
    var o := WriteTargetData(cfg, s, calls[0]);
    (calls[0].cpu == c && o.stored > 0 ==> e <= o.target) && AllAbove(cfg, o.state, calls[1..], c, e)
  }

  /** Every block ends before every later block of its CPU starts. */
  ghost predicate Ascending(cfg: Config, s: State, calls: seq<Call>)
    requires WellShaped(cfg, s.alloc) && CallsOk(cfg, calls)
    decreases |calls|
  {
    calls == [] ||
    var o := WriteTargetData(cfg, s, calls[0]);
    && (o.stored > 0 ==> AllAbove(cfg, o.state, calls[1..], calls[0].cpu, o.target + o.stored))
    && Ascending(cfg, o.state, calls[1..])
  }

  lemma {:induction false} NoWrapAllAbove(cfg: Config, s: State, calls: seq<Call>, c: nat, e: int)
    requires Usable(cfg) && PartitionsAligned(cfg) && Inv(cfg, s) && CallsOk(cfg, calls) && NoZeroSizes(calls)
    requires c < cfg.totalCpus && NoWrap(cfg, s, calls) && 0 < e <= Lookup(s.alloc, START_INDEX, c)
    ensures AllAbove(cfg, s, calls, c, e)
    decreases |calls|
  {
    hide WriteTargetData, PartStart, Poke;
    if calls != [] {
      var call := calls[0];
      var o := WriteTargetData(cfg, s, call);
      StepInv(cfg, s, call);
      if call.data.Some? {
        CallEffect(cfg, s, call);
        TargetFits(cfg, s, call);
        BumpWithin(o.target, Clamped(call.size), PartEnd(cfg, call.cpu));
      } else {
        NoDataNoEffect(cfg, s, call);
      }
      assert e <= Lookup(o.state.alloc, START_INDEX, c);
      NoWrapAllAbove(cfg, o.state, calls[1..], c, e);
    }
  }

  /** While no CPU starts over, the blocks of each CPU are pairwise disjoint and ascending. */
  lemma {:induction false} NoWrapAscending(cfg: Config, s: State, calls: seq<Call>)
    requires Usable(cfg) && PartitionsAligned(cfg) && Inv(cfg, s) && CallsOk(cfg, calls) && NoZeroSizes(calls)
    requires NoWrap(cfg, s, calls)
    ensures Ascending(cfg, s, calls)
    decreases |calls|
  {
    hide WriteTargetData, PartStart, Poke;
    if calls != [] {
      var call := calls[0];
      var o := WriteTargetData(cfg, s, call);
      StepInv(cfg, s, call);
      if call.data.None? {
        NoDataNoEffect(cfg, s, call);
      } else if o.stored > 0 {
        CallEffect(cfg, s, call);
        BumpWithin(o.target, o.stored, PartEnd(cfg, call.cpu));
        NoWrapAllAbove(cfg, o.state, calls[1..], call.cpu, o.target + o.stored);
      }
      NoWrapAscending(cfg, o.state, calls[1..]);
    }
  }
}
