/**
 The allocator of internal/include/alloc.h: one memory area in the traced process, cut into one
 partition per CPU, and a bump pointer per CPU that starts over when the partition is full.

 The bump pointers live in a per-CPU hash map: one element per key, holding one value per CPU. A new
 element is zero on the CPUs that did not write it, and deleting an element deletes it on every CPU.
 */
module Alloc {
  import opened Machine
  import opened UserMemory

  const MIN_BUFFER_SIZE: int := 1
  const MAX_BUFFER_SIZE: int := 1024
  const START_INDEX: int := 0
  const END_INDEX: int := 1

  /** The constants injected before the probe is loaded. */
  datatype Config = Config(totalCpus: u32, startAddr: u64, endAddr: u64)

  type AllocMap = map<int, seq<u64>>

  datatype State = State(alloc: AllocMap, mem: Memory)

  /** A call of write_target_data on a CPU. `ok` is the kernel's answer to the write into user memory. */
  datatype Call = Call(cpu: nat, data: Option<seq<byte>>, size: s32, ok: bool)

  /** What a call did: the pointer it returned, whether it started over, and the bytes it stored where. */
  datatype Outcome = Outcome(state: State, result: u64, wrapped: bool, target: u64, stored: nat)

  // ---------- The per-CPU map ----------

  predicate WellShaped(cfg: Config, m: AllocMap) {
    forall key :: key in m ==> |m[key]| == cfg.totalCpus
  }

  /** The value on one CPU, with 0 for a missing element: the code treats both alike. */
  function Lookup(m: AllocMap, key: int, cpu: nat): u64
    requires key in m ==> cpu < |m[key]|
  {
    if key in m then m[key][cpu] else 0
  }

  function Update(cfg: Config, m: AllocMap, key: int, cpu: nat, value: u64): (r: AllocMap)
    requires WellShaped(cfg, m) && cpu < cfg.totalCpus
    ensures WellShaped(cfg, r)
    ensures forall k, c: nat :: c < cfg.totalCpus ==>
      Lookup(r, k, c) == if k == key && c == cpu then value else Lookup(m, k, c)
  {
    if key in m then
      var values: seq<u64> := m[key][cpu := value];
      m[key := values]
    else
      var values: seq<u64> := seq(cfg.totalCpus, i => if i == cpu then value else 0);
      m[key := values]
  }

  function Delete(cfg: Config, m: AllocMap, key: int): (r: AllocMap)
    requires WellShaped(cfg, m)
    ensures WellShaped(cfg, r)
    ensures forall k, c: nat :: c < cfg.totalCpus ==> Lookup(r, k, c) == if k == key then 0 else Lookup(m, k, c)
  {
    m - {key}
  }

  // ---------- The functions of alloc.h on values ----------

  function PartitionSize(cfg: Config): u64
    requires cfg.totalCpus > 0
  {
    Quotient(Sub64(cfg.endAddr, cfg.startAddr), cfg.totalCpus)
  }

  function GetAreaStart(cfg: Config, m: AllocMap, cpu: nat): (AllocMap, u64)
    requires WellShaped(cfg, m) && cpu < cfg.totalCpus
  {
    var start := Lookup(m, START_INDEX, cpu);
    if start == 0 then
      var current := Add64(cfg.startAddr, PartitionSize(cfg) * cpu);
      (Update(cfg, m, START_INDEX, cpu, current), current)
    else
      (m, start)
  }

  function GetAreaEnd(cfg: Config, m: AllocMap, cpu: nat, start: u64): (AllocMap, u64)
    requires WellShaped(cfg, m) && cpu < cfg.totalCpus
  {
    var end := Lookup(m, END_INDEX, cpu);
    if end == 0 then
      var current := Add64(start, PartitionSize(cfg));
      (Update(cfg, m, END_INDEX, cpu, current), current)
    else
      (m, end)
  }

  function BoundNumber(num: s32, min: s32, max: s32): s32 {
    if num < min then min else if num > max then max else num
  }

  /** The number of bytes a request of this size stores. */
  function Clamped(size: s32): nat {
    BoundNumber(size, MIN_BUFFER_SIZE, MAX_BUFFER_SIZE)
  }

  /** The bump pointer after a block of n bytes: past the block, at the next multiple of 8. */
  function Bump(start: u64, n: nat): u64 {
    var updated := Add64(start, n);
    if updated % 8 != 0 then Add64(updated, 8 - updated % 8) else updated
  }

  /** What the caller must provide: a buffer as long as the bytes that will be copied out of it. */
  predicate Callable(cfg: Config, s: State, call: Call) {
    && WellShaped(cfg, s.alloc)
    && call.cpu < cfg.totalCpus
    && (call.data.Some? ==> Clamped(call.size) <= |call.data.value|)
  }

  function WriteTargetData(cfg: Config, s: State, call: Call): (o: Outcome)
    requires Callable(cfg, s, call)
    ensures WellShaped(cfg, o.state.alloc)
  {
    if call.data.None? then
      Outcome(s, 0, false, 0, 0)
    else
      var (m0, start0) := GetAreaStart(cfg, s.alloc, call.cpu);
      var (m1, end) := GetAreaEnd(cfg, m0, call.cpu, start0);
      // the comparison is unsigned: a negative size is a huge one
      var wrapped := Sub64(end, start0) < Wrap64(call.size);
      var (m2, start) := if wrapped then GetAreaStart(cfg, Delete(cfg, m1, START_INDEX), call.cpu) else (m1, start0);
      var size := Clamped(call.size);
      if call.ok then
        Outcome(State(Update(cfg, m2, START_INDEX, call.cpu, Bump(start, size)),
                      Poke(s.mem, start, call.data.value[..size])),
                start, wrapped, start, size)
      else
        Outcome(State(m2, s.mem), 0, wrapped, start, 0)
  }

  // ---------- The code in place ----------

  class Allocator {
    const cfg: Config
    var alloc: AllocMap
    var mem: Memory

    constructor (cfg: Config, mem: Memory)
      ensures View() == State(map[], mem) && this.cfg == cfg
    {
      this.cfg, this.alloc, this.mem := cfg, map[], mem;
    }

    function View(): State
      reads this
    {
      State(alloc, mem)
    }

    method AreaStart(cpu: nat) returns (start: u64)
      requires WellShaped(cfg, alloc) && cpu < cfg.totalCpus
      modifies this`alloc
      ensures (alloc, start) == GetAreaStart(cfg, old(alloc), cpu) && WellShaped(cfg, alloc)
    {
      var partitionSize := PartitionSize(cfg);
      start := Lookup(alloc, START_INDEX, cpu);
      if start == 0 {
        start := Add64(cfg.startAddr, partitionSize * cpu);
        alloc := Update(cfg, alloc, START_INDEX, cpu, start);
      }
    }

    method AreaEnd(cpu: nat, start: u64) returns (end: u64)
      requires WellShaped(cfg, alloc) && cpu < cfg.totalCpus
      modifies this`alloc
      ensures (alloc, end) == GetAreaEnd(cfg, old(alloc), cpu, start) && WellShaped(cfg, alloc)
    {
      var partitionSize := PartitionSize(cfg);
      end := Lookup(alloc, END_INDEX, cpu);
      if end == 0 {
        end := Add64(start, partitionSize);
        alloc := Update(cfg, alloc, END_INDEX, cpu, end);
      }
    }

    method Write(cpu: nat, data: Option<seq<byte>>, size: s32, ok: bool) returns (result: u64)
      requires Callable(cfg, View(), Call(cpu, data, size, ok))
      modifies this
      ensures var o := WriteTargetData(cfg, old(View()), Call(cpu, data, size, ok));
              View() == o.state && result == o.result
    {
      hide Update, Poke, Delete, Wrap64;
      if data.None? {
        return 0;
      }
      var start := AreaStart(cpu);
      var end := AreaEnd(cpu, start);
      if Sub64(end, start) < Wrap64(size) {
        alloc := Delete(cfg, alloc, START_INDEX);
        start := AreaStart(cpu);
      }
      var target := start;
      var bounded := BoundNumber(size, MIN_BUFFER_SIZE, MAX_BUFFER_SIZE);
      if !ok {
        return 0;
      }
      mem := Poke(mem, target, data.value[..bounded]);
      var updatedStart := Add64(start, bounded);
      if updatedStart % 8 != 0 {
        updatedStart := Add64(updatedStart, 8 - updatedStart % 8);
      }
      alloc := Update(cfg, alloc, START_INDEX, cpu, updatedStart);
      result := target;
    }
  }
}
