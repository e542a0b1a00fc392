/** The target process's memory as the trainer observes it through
    ReadProcessMemory / WriteProcessMemory / VirtualAllocEx: a partial map
    from address to byte. An address outside the map is not readable. */
module TargetMemory {
  import opened Bytes

  type Mem = map<nat, byte>

  /** User-mode addresses of an x64 Windows process lie below 2^47; a scan
      of the target's memory cannot read past them. */
  const USER_SPACE_END: nat := 0x8000_0000_0000

  /** Every byte of [addr, addr + n) is mapped and the range does not wrap
      past the top of the 64-bit address space. */
  predicate Readable(mem: Mem, addr: nat, n: nat) {
    addr + n <= TWO_64 && forall i :: addr <= i < addr + n ==> i in mem
  }

  function Load(mem: Mem, addr: nat, n: nat): (s: seq<byte>)
    requires Readable(mem, addr, n)
    ensures |s| == n
    ensures forall i :: 0 <= i < n ==> s[i] == mem[addr + i]
  {
    seq(n, i requires 0 <= i < n => mem[addr + i])
  }

  /** The pointer-sized little-endian value stored at addr. */
  function PointerAt(mem: Mem, addr: nat): u64
    requires Readable(mem, addr, 8)
  {
    U64Of(Load(mem, addr, 8))
  }

  function Store(mem: Mem, addr: nat, data: seq<byte>): (m: Mem)
    requires Readable(mem, addr, |data|)
    ensures m.Keys == mem.Keys
    ensures forall i :: i in mem ==> m[i] == if addr <= i < addr + |data| then data[i - addr] else mem[i]
  {
    map i | i in mem :: if addr <= i < addr + |data| then data[i - addr] else mem[i]
  }

  /** A store is read back unchanged, and leaves every disjoint range as it
      was. */
  lemma LoadStore(mem: Mem, addr: nat, data: seq<byte>, addr2: nat, n2: nat)
    requires Readable(mem, addr, |data|) && Readable(mem, addr2, n2)
    ensures Readable(Store(mem, addr, data), addr2, n2)
    ensures addr2 == addr && n2 == |data| ==> Load(Store(mem, addr, data), addr2, n2) == data
    ensures addr2 + n2 <= addr || addr + |data| <= addr2 ==>
              Load(Store(mem, addr, data), addr2, n2) == Load(mem, addr2, n2)
  {
    var m := Store(mem, addr, data);
    if addr2 == addr && n2 == |data| {
      assert forall i :: 0 <= i < n2 ==> Load(m, addr2, n2)[i] == data[i];
    }
  }

  /** A fresh VirtualAllocEx commit of n bytes at ptr: the pages read as
      zero. */
  function Commit(mem: Mem, ptr: nat, n: nat): (m: Mem)
    ensures ptr + n <= TWO_64 ==> Readable(m, ptr, n)
    ensures forall i :: i in mem ==> i in m
  {
    mem + map i | i in Span(ptr, n) :: 0
  }

  /** The addresses [lo, lo + n). */
  function Span(lo: nat, n: nat): (s: set<nat>)
    ensures forall i :: i in s <==> lo <= i < lo + n
  {
    if n == 0 then {} else Span(lo, n - 1) + {lo + n - 1}
  }

  /** The bytes a scan starting at start can read: the mapped run from start,
      up to the end of user space. */
  function ScanRegion(mem: Mem, start: u64): (s: seq<byte>)
    ensures s != [] ==> start + |s| <= USER_SPACE_END
    ensures Readable(mem, start, |s|) && s == Load(mem, start, |s|)
    decreases USER_SPACE_END - start
  {
    if start < USER_SPACE_END && start in mem then
      var rest := ScanRegion(mem, start + 1);
      var run := [mem[start]] + rest;
      assert Readable(mem, start, |run|);
      assert run == Load(mem, start, |run|) by {
        forall i | 1 <= i < |run| ensures run[i] == mem[start + i] {
          assert run[i] == rest[i - 1] == Load(mem, start + 1, |rest|)[i - 1];
        }
      }
      run
    else []
  }
}
