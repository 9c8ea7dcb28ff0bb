/** Appending to a Go slice of the traced process (internal/include/go_types.h). */
module GoSlice {
  import opened Machine
  import opened UserMemory
  import opened Alloc

  const MAX_REALLOCATION: int := 400
  const MAX_DATA_SIZE: int := 400

  /** struct go_slice; also the three words of the slice header in the memory of the process. */
  datatype Slice = Slice(base: u64, len: int, cap: int)

  /** Whether the kernel lets each of the writes through: the item, the new block, and the three header words. */
  datatype Writes = Writes(item: bool, block: bool, base: bool, cap: bool, len: bool)

  /** The probe's copy of the slice, the header in the process, and everything the allocator touches. */
  datatype World = World(slice: Slice, user: Slice, state: State)

  /** The conversion to a 32-bit signed integer. */
  function ToS32(x: int): s32 {
    var low := Wrap32(x);
    if low < 0x8000_0000 then low else low - TWO_32
  }

  /** The number of bytes of the old array that are copied. */
  function BoundedSize(itemSize: s32, len: int): int {
    var allocSize := ToS32(itemSize * len);
    if allocSize > MAX_REALLOCATION then MAX_REALLOCATION else if allocSize < 1 then 1 else allocSize
  }

  /** n bytes read from user memory; unmapped ones read as zero. */
  function Peek(mem: Memory, addr: int, n: nat): (r: seq<byte>)
    ensures |r| == n
  {
    seq(n, i => if addr + i in mem then mem[addr + i] else 0)
  }

  function LenPlusOne(w: World, writes: Writes): World {
    w.(slice := w.slice.(len := w.slice.len + 1),
       user := if writes.len then w.user.(len := w.slice.len + 1) else w.user)
  }

  /** append_item_to_slice; `buffer` says whether the scratch buffer was found. */
  function Append(cfg: Config, cpu: nat, w: World, item: seq<byte>, itemSize: s32, buffer: bool, writes: Writes): World
    requires WellShaped(cfg, w.state.alloc) && cpu < cfg.totalCpus
    requires 1 <= itemSize && |item| == itemSize
  {
    var s := w.slice;
    if s.len < s.cap then
      var addr := Wrap64(s.base + itemSize * s.len);
      LenPlusOne(if writes.item then w.(state := w.state.(mem := Poke(w.state.mem, addr, item))) else w, writes)
    else if s.len > MAX_DATA_SIZE || s.len < 1 || !buffer then
      w
    else
      var bounded := BoundedSize(itemSize, s.len);
      var buff := Peek(w.state.mem, s.base, bounded) + item;
      var newArraySize := Wrap32(bounded + itemSize);
      if newArraySize > MAX_DATA_SIZE || newArraySize < 1 then
        w
      else
        NewArraySizeExact(itemSize, s.len);
        var o := WriteTargetData(cfg, w.state, Call(cpu, Some(buff), newArraySize, writes.block));
        var slice := Slice(o.result, s.len, s.cap + 1);
        var user := Slice(if writes.base then o.result else w.user.base, w.user.len,
                          if writes.cap then s.cap + 1 else w.user.cap);
        LenPlusOne(World(slice, user, o.state), writes)
  }

  lemma NewArraySizeExact(itemSize: s32, len: int)
    requires 1 <= itemSize
    ensures 1 <= BoundedSize(itemSize, len) <= MAX_REALLOCATION
    ensures Wrap32(BoundedSize(itemSize, len) + itemSize) == BoundedSize(itemSize, len) + itemSize
  {
    var n := BoundedSize(itemSize, len) + itemSize;
    RemainderUnique(n, TWO_32, 0, n);
  }

  // ---------- The code in place ----------

  class GoSliceHeader {
    var base: u64
    var len: int
    var cap: int

    constructor (s: Slice)
      ensures View() == s
    {
      base, len, cap := s.base, s.len, s.cap;
    }

    function View(): Slice
      reads this
    {
      Slice(base, len, cap)
    }
  }

  /** append_item_to_slice on the probe's slice, the header in the process and the allocator. */
  method AppendItemToSlice(allocator: Allocator, cpu: nat, slice: GoSliceHeader, user: GoSliceHeader,
                           item: seq<byte>, itemSize: s32, buffer: bool, writes: Writes)
    requires WellShaped(allocator.cfg, allocator.alloc) && cpu < allocator.cfg.totalCpus
    requires 1 <= itemSize && |item| == itemSize && slice != user
    modifies allocator, slice, user
    ensures World(slice.View(), user.View(), allocator.View()) ==
            Append(allocator.cfg, cpu, old(World(slice.View(), user.View(), allocator.View())), item, itemSize,
                buffer, writes)
  {
    hide WriteTargetData, Poke, Wrap64, Wrap32, BoundedSize;
    if slice.len < slice.cap {
      if writes.item {
        allocator.mem := Poke(allocator.mem, Wrap64(slice.base + itemSize * slice.len), item);
      }
    } else {
      if slice.len > MAX_DATA_SIZE || slice.len < 1 {
        return;
      }
      var boundedAllocSize := BoundedSize(itemSize, slice.len);
      if !buffer {
        return;
      }
      NewArraySizeExact(itemSize, slice.len);
      var mapBuff := Peek(allocator.mem, slice.base, boundedAllocSize) + item;
      var newArraySize := Wrap32(boundedAllocSize + itemSize);
      if newArraySize > MAX_DATA_SIZE || newArraySize < 1 {
        return;
      }
      var newArray := allocator.Write(cpu, Some(mapBuff), newArraySize, writes.block);
      slice.base := newArray;
      if writes.base {
        user.base := slice.base;
      }
      slice.cap := slice.cap + 1;
      if writes.cap {
        user.cap := slice.cap;
      }
    }
    slice.len := slice.len + 1;
    if writes.len {
      user.len := slice.len;
    }
  }

  // ---------- What the slice holds ----------

  /** The header describes an array that holds these bytes as its first len items. */
  ghost predicate Holds(mem: Memory, h: Slice, itemSize: int, bytes: seq<byte>) {
    && 0 <= h.len <= h.cap && |bytes| == itemSize * h.len
    && Stored(mem, h.base, bytes)
  }

  /** Whether the item is appended: there is room, or the larger array fits the limit on copied data. */
  predicate Appends(s: Slice, itemSize: int, buffer: bool) {
    s.len < s.cap || (s.len >= 1 && buffer && itemSize * (s.len + 1) <= MAX_DATA_SIZE)
  }

  /**
   The cut to 400 bytes, and the conversion of the product to 32 bits before it, are never visible: whenever
   they change the size, the new array exceeds the limit and nothing is appended.
   */
  lemma TruncationNotObservable(itemSize: s32, len: int)
    requires 1 <= itemSize && 1 <= len <= MAX_DATA_SIZE
    ensures BoundedSize(itemSize, len) + itemSize <= MAX_DATA_SIZE <==> itemSize * (len + 1) <= MAX_DATA_SIZE
    ensures BoundedSize(itemSize, len) + itemSize <= MAX_DATA_SIZE ==> BoundedSize(itemSize, len) == itemSize * len
  {
    var p := itemSize * len;
    assert itemSize * (len + 1) == p + itemSize;
    MulMonotone(itemSize, 1, len);
    NewArraySizeExact(itemSize, len);
    if itemSize < MAX_DATA_SIZE {
      MulMonotone(len, itemSize, MAX_DATA_SIZE);
      assert p <= MAX_DATA_SIZE * MAX_DATA_SIZE;
      RemainderUnique(p, TWO_32, 0, p);
    }
  }

  const ALL_WRITTEN: Writes := Writes(true, true, true, true, true)

  lemma AppendInPlace(cfg: Config, cpu: nat, w: World, bytes: seq<byte>, item: seq<byte>, itemSize: s32, buffer: bool)
    requires WellShaped(cfg, w.state.alloc) && cpu < cfg.totalCpus
    requires 1 <= itemSize && |item| == itemSize && w.slice == w.user
    requires Holds(w.state.mem, w.user, itemSize, bytes) && w.user.base + itemSize * w.user.cap <= TWO_64
    requires w.slice.len < w.slice.cap
    ensures var after := Append(cfg, cpu, w, item, itemSize, buffer, ALL_WRITTEN);
            && after.slice == after.user && after.user.len == w.user.len + 1
            && Holds(after.state.mem, after.user, itemSize, bytes + item)
  {
    hide WriteTargetData, Poke, Wrap64, Stored;
    var s := w.slice;
    InPlaceAddress(s, itemSize);
    PokeBehind(w.state.mem, s.base, bytes, item);
    var after := Append(cfg, cpu, w, item, itemSize, buffer, ALL_WRITTEN);
    assert after.state.mem == Poke(w.state.mem, s.base + |bytes|, item);
    assert after.user == Slice(s.base, s.len + 1, s.cap);
  }

  /** The free place behind the items is addressed without wrapping. */
  lemma InPlaceAddress(s: Slice, itemSize: int)
    requires 1 <= itemSize && 0 <= s.len < s.cap && s.base + itemSize * s.cap <= TWO_64
    ensures Wrap64(s.base + itemSize * s.len) == s.base + itemSize * s.len
    ensures itemSize * (s.len + 1) == itemSize * s.len + itemSize
  {
    MulMonotone(itemSize, s.len + 1, s.cap);
    MulMonotone(itemSize, 0, s.len);
    assert itemSize * (s.len + 1) == itemSize * s.len + itemSize;
    RemainderUnique(s.base + itemSize * s.len, TWO_64, 0, s.base + itemSize * s.len);
  }

  lemma AppendMoved(cfg: Config, cpu: nat, w: World, bytes: seq<byte>, item: seq<byte>, itemSize: s32)
    requires WellShaped(cfg, w.state.alloc) && cpu < cfg.totalCpus
    requires 1 <= itemSize && |item| == itemSize && w.slice == w.user
    requires Holds(w.state.mem, w.user, itemSize, bytes)
    requires 1 <= w.slice.len == w.slice.cap && itemSize * (w.slice.len + 1) <= MAX_DATA_SIZE
    ensures var after := Append(cfg, cpu, w, item, itemSize, true, ALL_WRITTEN);
            && after.slice == after.user && after.user.len == w.user.len + 1
            && Holds(after.state.mem, after.user, itemSize, bytes + item)
  {
    hide Poke, BoundedSize, Wrap32, Wrap64, Stored;
    var call, o := MovedCall(cfg, cpu, w, bytes, item, itemSize, ALL_WRITTEN);
    hide Append, WriteTargetData;
    MovedMemory(cfg, w.state, call);
  }

  lemma PeekHeld(mem: Memory, h: Slice, itemSize: int, bytes: seq<byte>)
    requires Holds(mem, h, itemSize, bytes)
    ensures Peek(mem, h.base, |bytes|) == bytes
  {
    forall i | 0 <= i < |bytes| ensures Peek(mem, h.base, |bytes|)[i] == bytes[i] {
      assert h.base + i in mem;
    }
  }

  /**
   With room in the array, whatever the kernel lets through and whatever the memory holds: neither copy of the
   header moves or changes its capacity, nothing is allocated, and only the place behind the items is written.
   */
  lemma InPlaceEffect(cfg: Config, cpu: nat, w: World, item: seq<byte>, itemSize: s32, buffer: bool, writes: Writes)
    requires WellShaped(cfg, w.state.alloc) && cpu < cfg.totalCpus
    requires 1 <= itemSize && |item| == itemSize && w.slice.len < w.slice.cap
    ensures var after := Append(cfg, cpu, w, item, itemSize, buffer, writes);
            var place := (w.slice.base + itemSize * w.slice.len) % TWO_64;
            && after.slice == Slice(w.slice.base, w.slice.len + 1, w.slice.cap)
            && after.user == Slice(w.user.base, if writes.len then w.slice.len + 1 else w.user.len, w.user.cap)
            && after.state.alloc == w.state.alloc
            && (writes.item ==> Stored(after.state.mem, place, item))
            && (!writes.item ==> after.state.mem == w.state.mem)
            && (forall a :: !(place <= a < place + itemSize) ==>
                  (a in after.state.mem <==> a in w.state.mem) &&
                  (a in w.state.mem ==> after.state.mem[a] == w.state.mem[a]))
  {
    var place := (w.slice.base + itemSize * w.slice.len) % TWO_64;
    PokeStores(w.state.mem, place, item);
    hide WriteTargetData, Poke, Stored;
  }

  /** The limit on the items of an array that moves is the one on the copied data; beyond it nothing changes. */
  lemma NoRoomNoEffect(cfg: Config, cpu: nat, w: World, item: seq<byte>, itemSize: s32, buffer: bool, writes: Writes)
    requires WellShaped(cfg, w.state.alloc) && cpu < cfg.totalCpus
    requires 1 <= itemSize && |item| == itemSize && w.slice.cap <= w.slice.len
    requires w.slice.len < 1 || w.slice.len > 400 || !buffer || itemSize * (w.slice.len + 1) > 400
    ensures Append(cfg, cpu, w, item, itemSize, buffer, writes) == w
  {
    hide WriteTargetData, Poke, BoundedSize, Wrap32, Peek;
    if 1 <= w.slice.len <= MAX_DATA_SIZE {
      TruncationNotObservable(itemSize, w.slice.len);
      NewArraySizeExact(itemSize, w.slice.len);
    }
  }

  /**
   With all writes let through, an append either leaves the slice, the header and all memory as they were, or the
   header describes the old items followed by the new one. With room it stays where it is with the same capacity;
   otherwise it moves to the block the allocator returned, with a capacity that is larger by exactly one. Which of
   these it is depends only on the length, the capacity and the item size.
   */
  lemma AppendAppendsOrNothing(cfg: Config, cpu: nat, w: World, bytes: seq<byte>, item: seq<byte>, itemSize: s32,
                               buffer: bool)
    requires WellShaped(cfg, w.state.alloc) && cpu < cfg.totalCpus
    requires 1 <= itemSize && |item| == itemSize && w.slice == w.user
    requires Holds(w.state.mem, w.user, itemSize, bytes) && w.user.base + itemSize * w.user.cap <= TWO_64
    ensures var after := Append(cfg, cpu, w, item, itemSize, buffer, ALL_WRITTEN);
            if Appends(w.slice, itemSize, buffer) then
              && after.slice == after.user && after.user.len == w.user.len + 1 <= after.user.cap
              && Holds(after.state.mem, after.user, itemSize, bytes + item)
              && if w.slice.len < w.slice.cap then
                   after.user.cap == w.user.cap && after.user.base == w.user.base && after.state.alloc == w.state.alloc
                 else
                   var call := Call(cpu, Some(bytes + item), itemSize * (w.slice.len + 1), true);
                   && Callable(cfg, w.state, call)
                   && after.user.cap == w.user.cap + 1
                   && after.user.base == WriteTargetData(cfg, w.state, call).result
                   && after.state == WriteTargetData(cfg, w.state, call).state
            else
              after == w
  {
    hide WriteTargetData, Poke, Wrap32, Wrap64, BoundedSize, Peek;
    var s := w.slice;
    var after := Append(cfg, cpu, w, item, itemSize, buffer, ALL_WRITTEN);
    HoldsBounds(w.state.mem, s, itemSize, bytes);
    if s.len < s.cap {
      AppendInPlace(cfg, cpu, w, bytes, item, itemSize, buffer);
      InPlaceEffect(cfg, cpu, w, item, itemSize, buffer, ALL_WRITTEN);
      hide Append, Holds;
    } else if Appends(s, itemSize, buffer) {
      MulMonotone(s.len + 1, 1, itemSize);
      AppendMoved(cfg, cpu, w, bytes, item, itemSize);
      var call, o := MovedCall(cfg, cpu, w, bytes, item, itemSize, ALL_WRITTEN);
      hide Append, Holds;
    } else {
      NoRoomNoEffect(cfg, cpu, w, item, itemSize, buffer, ALL_WRITTEN);
      hide Append, Holds;
    }
  }

  lemma HoldsBounds(mem: Memory, h: Slice, itemSize: int, bytes: seq<byte>)
    requires Holds(mem, h, itemSize, bytes)
    ensures 0 <= h.len <= h.cap
  {
  }

  // ---------- When the kernel refuses writes ----------

  /** The header in the process describes the old items, or the old items followed by the new one. */
  ghost predicate Right(w: World, itemSize: int, bytes: seq<byte>, item: seq<byte>) {
    Holds(w.state.mem, w.user, itemSize, bytes) || Holds(w.state.mem, w.user, itemSize, bytes + item)
  }

  lemma StoredConcat(mem: Memory, addr: int, bytes: seq<byte>, more: seq<byte>)
    ensures Stored(mem, addr, bytes + more) <==> Stored(mem, addr, bytes) && Stored(mem, addr + |bytes|, more)
  {
    if Stored(mem, addr, bytes + more) {
      forall a | addr <= a < addr + |bytes| ensures a in mem && mem[a] == bytes[a - addr] {
        assert mem[a] == (bytes + more)[a - addr];
      }
      forall a | addr + |bytes| <= a < addr + |bytes| + |more| ensures a in mem && mem[a] == more[a - addr - |bytes|] {
        assert mem[a] == (bytes + more)[a - addr];
      }
    }
  }

  /** What the header describes follows from its length word alone. */
  lemma RightByLength(w: World, itemSize: s32, len: int, bytes: seq<byte>, item: seq<byte>, written: bool)
    requires 1 <= itemSize == |item| && 0 <= len && |bytes| == itemSize * len
    requires w.user.len == if written then len + 1 else len
    ensures Right(w, itemSize, bytes, item) <==>
            w.user.len <= w.user.cap && Stored(w.state.mem, w.user.base, if written then bytes + item else bytes)
  {
    assert itemSize * (len + 1) == itemSize * len + itemSize;
    hide Stored;
  }

  /**
   With room in the array, the header is right exactly when a new length was not written without its item,
   unless the free place held the item all along.
   */
  lemma InPlaceRightIff(cfg: Config, cpu: nat, w: World, bytes: seq<byte>, item: seq<byte>, itemSize: s32, buffer: bool,
                        writes: Writes)
    requires WellShaped(cfg, w.state.alloc) && cpu < cfg.totalCpus
    requires 1 <= itemSize && |item| == itemSize && w.slice == w.user
    requires Holds(w.state.mem, w.user, itemSize, bytes) && w.user.base + itemSize * w.user.cap <= TWO_64
    requires w.slice.len < w.slice.cap
    ensures Right(Append(cfg, cpu, w, item, itemSize, buffer, writes), itemSize, bytes, item) <==>
            (writes.len ==> writes.item || Stored(w.state.mem, w.user.base + |bytes|, item))
  {
    hide WriteTargetData, Poke, Wrap64, Right, Stored;
    var s := w.slice;
    var after := Append(cfg, cpu, w, item, itemSize, buffer, writes);
    InPlaceAddress(s, itemSize);
    PokeBehind(w.state.mem, s.base, bytes, item);
    RightByLength(after, itemSize, s.len, bytes, item, writes.len);
    StoredConcat(after.state.mem, s.base, bytes, item);
  }

  /** Two stretches of memory that do not overlap. */
  predicate Apart(a: int, n: nat, b: int, m: nat) {
    a + n <= b || b + m <= a
  }

  lemma StoredElsewhere(mem: Memory, addr: int, bytes: seq<byte>, other: int, data: seq<byte>)
    requires Apart(addr, |bytes|, other, |data|)
    ensures Stored(Poke(mem, other, data), addr, bytes) <==> Stored(mem, addr, bytes)
  {
  }

  /**
   When the array moves. If the block and its address are written, the header is right exactly when a new length
   came with its capacity. A refused block leaves address 0 in the header if that word is written: then the bytes
   would have to stand at 0. Without the address, the old array must still hold its bytes, and a new length needs
   its capacity and the item behind them. Nothing is assumed about where the block, the array and the item lie.
   */
  lemma MovedRightIff(cfg: Config, cpu: nat, w: World, bytes: seq<byte>, item: seq<byte>, itemSize: s32, writes: Writes)
    requires WellShaped(cfg, w.state.alloc) && cpu < cfg.totalCpus
    requires 1 <= itemSize && |item| == itemSize && w.slice == w.user
    requires Holds(w.state.mem, w.user, itemSize, bytes)
    requires 1 <= w.slice.len == w.slice.cap && itemSize * (w.slice.len + 1) <= MAX_DATA_SIZE
    ensures var after := Append(cfg, cpu, w, item, itemSize, true, writes);
            var call := Call(cpu, Some(bytes + item), itemSize * (w.slice.len + 1), writes.block);
            && Callable(cfg, w.state, call)
            && var target := WriteTargetData(cfg, w.state, call).target;
            && (writes.base && !writes.block ==> after.user.base == 0)
            && (writes.len ==> after.user.len == w.user.len + 1)
            && (Right(after, itemSize, bytes, item) <==>
                && (writes.len ==> writes.cap)
                && HeaderBytes(w.state.mem, target, w.user.base, bytes, item, writes))
            && (writes.base && !writes.block && 0 !in w.state.mem ==> !Right(after, itemSize, bytes, item))
  {
    hide Poke, BoundedSize, Wrap32, Wrap64, Stored, Right;
    var s := w.slice;
    var call, o := MovedCall(cfg, cpu, w, bytes, item, itemSize, writes);
    hide WriteTargetData, Peek;
    var after := Append(cfg, cpu, w, item, itemSize, true, writes);
    assert after.state == o.state && after.user.len == if writes.len then s.len + 1 else s.len;
    assert after.user.base == (if writes.base then o.result else s.base);
    assert after.user.cap == if writes.cap then s.cap + 1 else s.cap;
    hide Append, LenPlusOne, Holds;
    RightByLength(after, itemSize, s.len, bytes, item, writes.len);
    MovedMemory(cfg, w.state, call);
    MulMonotone(itemSize, 1, s.len);
    MovedBytes(w.state.mem, o.target, s.base, bytes, item, writes);
    NotAtZero(w.state.mem, bytes);
    NotAtZero(w.state.mem, bytes + item);
  }

  /** What must stand where for the bytes the header describes, in terms of the memory before the append. */
  ghost predicate HeaderBytes(mem: Memory, target: int, oldBase: int, bytes: seq<byte>, item: seq<byte>,
                              writes: Writes)
  {
    var described := if writes.len then bytes + item else bytes;
    if writes.base then
      writes.block || Stored(mem, 0, described)
    else if writes.block && !Apart(target, |bytes + item|, oldBase, |bytes + item|) then
      Stored(Poke(mem, target, bytes + item), oldBase, described)
    else
      writes.len ==> Stored(mem, oldBase + |bytes|, item)
  }

  /** What stands where the header points, when the block or its address may have been refused. */
  lemma MovedBytes(mem: Memory, target: int, oldBase: int, bytes: seq<byte>, item: seq<byte>, writes: Writes)
    requires Stored(mem, oldBase, bytes)
    ensures var after := if writes.block then Poke(mem, target, bytes + item) else mem;
            var base := if !writes.base then oldBase else if writes.block then target else 0;
            Stored(after, base, if writes.len then bytes + item else bytes) <==>
            HeaderBytes(mem, target, oldBase, bytes, item, writes)
  {
    hide Stored, Poke;
    StoredConcat(mem, oldBase, bytes, item);
    PokeStores(mem, target, bytes + item);
    StoredConcat(Poke(mem, target, bytes + item), target, bytes, item);
    if writes.block && !writes.base && Apart(target, |bytes + item|, oldBase, |bytes + item|) {
      StoredConcat(Poke(mem, target, bytes + item), oldBase, bytes, item);
      StoredElsewhere(mem, oldBase, bytes, target, bytes + item);
      StoredElsewhere(mem, oldBase + |bytes|, item, target, bytes + item);
    }
  }

  lemma NotAtZero(mem: Memory, bytes: seq<byte>)
    requires bytes != []
    ensures Stored(mem, 0, bytes) ==> 0 in mem
  {
  }

  /**
   Without room and within the limit, whatever the kernel lets through and whatever the memory holds: the items read
   from the old array and the new one go to the allocator, exactly as many bytes as they are; both copies of the
   header get the address it returns, and the length and the capacity grow by one, as far as they can be written.
   */
  lemma MovedEffect(cfg: Config, cpu: nat, w: World, item: seq<byte>, itemSize: s32, writes: Writes)
    returns (call: Call, o: Outcome)
    requires WellShaped(cfg, w.state.alloc) && cpu < cfg.totalCpus
    requires 1 <= itemSize && |item| == itemSize && w.slice.cap <= w.slice.len
    requires 1 <= w.slice.len && itemSize * (w.slice.len + 1) <= 400
    ensures itemSize * w.slice.len >= 0
    ensures call == Call(cpu, Some(Peek(w.state.mem, w.slice.base, itemSize * w.slice.len) + item),
                         itemSize * (w.slice.len + 1), writes.block)
    ensures Callable(cfg, w.state, call) && o == WriteTargetData(cfg, w.state, call)
    ensures |call.data.value| == call.size && 1 <= call.size <= MAX_BUFFER_SIZE
    ensures var after := Append(cfg, cpu, w, item, itemSize, true, writes);
            && after.state == o.state && after.slice == Slice(o.result, w.slice.len + 1, w.slice.cap + 1)
            && after.user == Slice(if writes.base then o.result else w.user.base,
                                   if writes.len then w.slice.len + 1 else w.user.len,
                                   if writes.cap then w.slice.cap + 1 else w.user.cap)
  {
    hide WriteTargetData, Poke, BoundedSize, Wrap32, Wrap64, Stored, Peek;
    var s := w.slice;
    MulMonotone(itemSize, 1, s.len);
    assert itemSize * (s.len + 1) == itemSize * s.len + itemSize;
    MulMonotone(s.len + 1, 1, itemSize);
    TruncationNotObservable(itemSize, s.len);
    NewArraySizeExact(itemSize, s.len);
    call := Call(cpu, Some(Peek(w.state.mem, s.base, itemSize * s.len) + item), itemSize * (s.len + 1), writes.block);
    o := WriteTargetData(cfg, w.state, call);
  }

  /** The same for an array that holds its items. */
  lemma MovedCall(cfg: Config, cpu: nat, w: World, bytes: seq<byte>, item: seq<byte>, itemSize: s32, writes: Writes)
    returns (call: Call, o: Outcome)
    requires WellShaped(cfg, w.state.alloc) && cpu < cfg.totalCpus
    requires 1 <= itemSize && |item| == itemSize && w.slice == w.user
    requires Holds(w.state.mem, w.user, itemSize, bytes)
    requires 1 <= w.slice.len == w.slice.cap && itemSize * (w.slice.len + 1) <= MAX_DATA_SIZE
    ensures call == Call(cpu, Some(bytes + item), itemSize * (w.slice.len + 1), writes.block)
    ensures Callable(cfg, w.state, call) && o == WriteTargetData(cfg, w.state, call)
    ensures |bytes + item| == call.size && 1 <= call.size <= MAX_BUFFER_SIZE
    ensures var after := Append(cfg, cpu, w, item, itemSize, true, writes);
            && after.state == o.state && after.slice == Slice(o.result, w.slice.len + 1, w.slice.cap + 1)
            && after.user == Slice(if writes.base then o.result else w.user.base,
                                   if writes.len then w.slice.len + 1 else w.user.len,
                                   if writes.cap then w.slice.cap + 1 else w.user.cap)
  {
    hide WriteTargetData, Append;
    PeekHeld(w.state.mem, w.slice, itemSize, bytes);
    hide Peek, Stored;
    call, o := MovedEffect(cfg, cpu, w, item, itemSize, writes);
  }

  lemma MovedMemory(cfg: Config, s: State, call: Call)
    requires Callable(cfg, s, call) && call.data.Some? && 1 <= call.size <= MAX_BUFFER_SIZE
    requires |call.data.value| == call.size
    ensures var o := WriteTargetData(cfg, s, call);
            && o.state.mem == (if call.ok then Poke(s.mem, o.target, call.data.value) else s.mem)
            && o.result == (if call.ok then o.target else 0)
            && (call.ok ==> Stored(o.state.mem, o.target, call.data.value))
  {
    hide GetAreaStart, GetAreaEnd, Delete, Update, Wrap64, Poke, Stored;
    assert call.data.value[..call.size] == call.data.value;
    PokeStores(s.mem, WriteTargetData(cfg, s, call).target, call.data.value);
  }
}
