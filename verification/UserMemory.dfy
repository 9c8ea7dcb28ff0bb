/** The memory of the traced process, and the pieces of the kernel's interface the probes use on it. */
module UserMemory {
  import opened Machine

  /** Addresses to bytes; an address outside the map has never been written. */
  type Memory = map<int, byte>

  /** The memory after a successful bpf_probe_write_user of these bytes. */
  function Poke(mem: Memory, addr: int, bytes: seq<byte>): (r: Memory)
    ensures forall a :: a in r <==> a in mem || addr <= a < addr + |bytes|
    ensures forall a :: addr <= a < addr + |bytes| ==> r[a] == bytes[a - addr]
    ensures forall a :: a in mem && !(addr <= a < addr + |bytes|) ==> r[a] == mem[a]
  {
    if bytes == [] then mem else
      var n := |bytes| - 1;
      Poke(mem, addr, bytes[..n])[addr + n := bytes[n]]
  }

  /** Both memories hold the same at every address in [lo, hi). */
  ghost predicate SameOn(m: Memory, n: Memory, lo: int, hi: int) {
    forall a :: lo <= a < hi ==> (a in m <==> a in n) && (a in m ==> m[a] == n[a])
  }

  lemma SameOnTransitive(l: Memory, m: Memory, n: Memory, lo: int, hi: int)
    requires SameOn(l, m, lo, hi) && SameOn(m, n, lo, hi)
    ensures SameOn(l, n, lo, hi)
  {
  }

  /** The bytes stand in memory from the address on. */
  ghost predicate Stored(mem: Memory, addr: int, bytes: seq<byte>) {
    forall a :: addr <= a < addr + |bytes| ==> a in mem && mem[a] == bytes[a - addr]
  }

  lemma PokeStores(mem: Memory, addr: int, bytes: seq<byte>)
    ensures Stored(Poke(mem, addr, bytes), addr, bytes)
  {
  }

  /** Bytes written right behind others extend them. */
  lemma PokeBehind(mem: Memory, addr: int, bytes: seq<byte>, more: seq<byte>)
    requires Stored(mem, addr, bytes)
    ensures Stored(Poke(mem, addr + |bytes|, more), addr, bytes + more)
  {
  }
}
