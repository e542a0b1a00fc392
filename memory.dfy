/** The remote memory accessor: class Memory. Every method is proved to
    change the accessor's state exactly as the function of the same name in
    module Accessor says; what those functions mean is proved there and in
    module ArrayBookkeeping. The OS calls are oracles: ReadProcessMemory and
    WriteProcessMemory succeed iff the range is mapped and the call is not
    marked flaky, VirtualAllocEx returns the allocator's next address. */
module RemoteMemory {
  import opened Bytes
  import opened Wrappers
  import opened TargetMemory
  import opened OffsetResolver
  import Scan = SigScan
  import A = Accessor

  class Memory {
    const baseAddress: u64
    /** The GLOBALS offset, found by findGlobals when attaching. */
    const globals: int
    const flaky: nat -> bool
    const allocator: nat -> u64

    var retryOnFail: bool
    /** The target process's memory. */
    var target: Mem
    /** How many ReadProcessMemory / WriteProcessMemory calls were made. */
    var osCalls: nat
    /** How many VirtualAllocEx calls were made. */
    var allocCount: nat
    var computedAddresses: Cache
    var arraySizes: map<(int, int), nat>

    function Cfg(): A.Config
      reads this
    {
      A.Config(baseAddress, globals, retryOnFail, flaky, allocator)
    }

    function State(): A.State
      reads this
    {
      A.State(target, osCalls, allocCount, computedAddresses, arraySizes)
    }

    /** Attaching to the process: what the attach discovers is given. */
    constructor (base: u64, globalsOffset: int, flakyCalls: nat -> bool, allocate: nat -> u64, mem: Mem)
      ensures baseAddress == base && globals == globalsOffset && flaky == flakyCalls && allocator == allocate
      ensures retryOnFail
      ensures State() == A.State(mem, 0, 0, map[], map[])
    {
      baseAddress, globals, flaky, allocator := base, globalsOffset, flakyCalls, allocate;
      retryOnFail := true;
      target, osCalls, allocCount := mem, 0, 0;
      computedAddresses, arraySizes := map[], map[];
    }

    /** One ReadProcessMemory call. */
    method ReadProcessMemory(addr: u64, n: nat) returns (ok: bool, data: seq<byte>)
      modifies this`osCalls
      ensures osCalls == old(osCalls) + 1
      ensures ok == AttemptSucceeds(target, flaky, old(osCalls), addr, n)
      ensures data == if ok then Load(target, addr, n) else []
    {
      ok := AttemptSucceeds(target, flaky, osCalls, addr, n);
      data := if ok then Load(target, addr, n) else [];
      osCalls := osCalls + 1;
    }

    /** One WriteProcessMemory call. */
    method WriteProcessMemory(addr: u64, data: seq<byte>) returns (ok: bool)
      modifies this`osCalls, this`target
      ensures osCalls == old(osCalls) + 1
      ensures ok == AttemptSucceeds(old(target), flaky, old(osCalls), addr, |data|)
      ensures target == if ok then Store(old(target), addr, data) else old(target)
    {
      ok := AttemptSucceeds(target, flaky, osCalls, addr, |data|);
      if ok {
        target := Store(target, addr, data);
      }
      osCalls := osCalls + 1;
    }

    method ReadAbsolute(addr: u64, n: nat) returns (ok: bool, data: seq<byte>)
      modifies this`osCalls
      ensures (ok, data, State()) == A.ReadAbsolute(Cfg(), old(State()), addr, n)
    {
      // one attempt without retryOnFail, RETRY_LIMIT attempts with it
      var limit := A.AttemptLimit(retryOnFail);
      ghost var end := osCalls + limit;
      ghost var last := A.LastAttempt(target, flaky, osCalls, end, addr, n);
      var i := 0;
      while i < limit
        invariant 0 <= i <= limit
        invariant osCalls == old(osCalls) + i
        invariant i < limit ==> last == A.LastAttempt(target, flaky, osCalls, end, addr, n)
        invariant i == limit ==> last == osCalls - 1 && !AttemptSucceeds(target, flaky, last, addr, n)
      {
        ok, data := ReadProcessMemory(addr, n);
        if ok {
          return;
        }
        i := i + 1;
      }
      ok, data := false, [];
    }

    method WriteAbsolute(addr: u64, data: seq<byte>) returns (ok: bool)
      modifies this`osCalls, this`target
      ensures (ok, State()) == A.WriteAbsolute(Cfg(), old(State()), addr, data)
    {
      // one attempt without retryOnFail, RETRY_LIMIT attempts with it
      var limit := A.AttemptLimit(retryOnFail);
      ghost var end := osCalls + limit;
      ghost var last := A.LastAttempt(target, flaky, osCalls, end, addr, |data|);
      var i := 0;
      while i < limit
        invariant 0 <= i <= limit
        invariant osCalls == old(osCalls) + i && target == old(target)
        invariant i < limit ==> last == A.LastAttempt(target, flaky, osCalls, end, addr, |data|)
        invariant i == limit ==> last == osCalls - 1 && !AttemptSucceeds(target, flaky, last, addr, |data|)
      {
        ok := WriteProcessMemory(addr, data);
        if ok {
          return;
        }
        i := i + 1;
      }
      ok := false;
    }

    method ReadRelative(addr: u64, n: nat) returns (ok: bool, data: seq<byte>)
      modifies this`osCalls
      ensures (ok, data, State()) == A.ReadAbsolute(Cfg(), old(State()), A.RelativeToAbsolute(Cfg(), addr), n)
    {
      ok, data := ReadAbsolute(A.RelativeToAbsolute(Cfg(), addr), n);
    }

    method WriteRelative(addr: u64, data: seq<byte>) returns (ok: bool)
      modifies this`osCalls, this`target
      ensures (ok, State()) == A.WriteAbsolute(Cfg(), old(State()), A.RelativeToAbsolute(Cfg(), addr), data)
    {
      ok := WriteAbsolute(A.RelativeToAbsolute(Cfg(), addr), data);
    }

    method ComputeOffset(offsets: seq<int>) returns (addr: Option<u64>)
      requires |offsets| >= 1
      modifies this`computedAddresses, this`osCalls
      ensures (addr, State()) == A.ComputeOffset(Cfg(), old(State()), offsets)
    {
      ghost var walked := Walk(target, flaky, computedAddresses, osCalls, baseAddress, offsets);
      var cumulative: u64 := baseAddress;
      var i := 0;
      while i < |offsets| - 1
        invariant 0 <= i <= |offsets| - 1
        invariant walked == Walk(target, flaky, computedAddresses, osCalls, cumulative, offsets[i..])
      {
        WalkStep(target, flaky, computedAddresses, osCalls, cumulative, offsets, i);
        var next := Follow(Wrap64(cumulative + offsets[i]));
        if next.None? {
          return None;
        }
        cumulative := next.value;
        i := i + 1;
      }
      WalkLast(target, flaky, computedAddresses, osCalls, cumulative, offsets);
      addr := Some(Wrap64(cumulative + offsets[|offsets| - 1]));
    }

    /** One step of ComputeOffset's walk: the pointer stored at field, from
        the memo table, or read with one OS call and memoised. */
    method Follow(field: u64) returns (next: Option<u64>)
      modifies this`computedAddresses, this`osCalls
      ensures (next, computedAddresses, osCalls) == Deref(target, flaky, old(computedAddresses), old(osCalls), field)
    {
      if field !in computedAddresses {
        var ok, bytes := ReadProcessMemory(field, 8);
        if !ok {
          return None;
        }
        computedAddresses := computedAddresses[field := U64Of(bytes)];
      }
      next := Some(computedAddresses[field]);
    }

    method ClearOffsets()
      modifies this`computedAddresses
      ensures computedAddresses == map[]
    {
      computedAddresses := map[];
    }

    method ReadData(offsets: seq<int>, n: nat) returns (r: Result<seq<byte>>)
      requires |offsets| >= 1
      modifies this`computedAddresses, this`osCalls
      ensures (r, State()) == A.ReadData(Cfg(), old(State()), offsets, n)
    {
      var addr := ComputeOffset(offsets);
      if addr.None? {
        return Error;
      }
      var ok, data := ReadAbsolute(addr.value, n);
      r := if ok then Ok(data) else Error;
    }

    method WriteData(offsets: seq<int>, data: seq<byte>) returns (r: Result<()>)
      requires |offsets| >= 1
      modifies this`computedAddresses, this`osCalls, this`target
      ensures (r, State()) == A.WriteData(Cfg(), old(State()), offsets, data)
    {
      var addr := ComputeOffset(offsets);
      if addr.None? {
        return Error;
      }
      var ok := WriteAbsolute(addr.value, data);
      r := if ok then Ok(()) else Error;
    }

    method ReadPanelData(panel: int, offset: int, size: nat, elemSize: nat) returns (r: Result<seq<byte>>)
      modifies this`computedAddresses, this`osCalls
      ensures (r, State()) == A.ReadPanelData(Cfg(), old(State()), panel, offset, size, elemSize)
    {
      if size == 0 {
        return Ok([]);
      }
      r := ReadData(A.PanelChain(Cfg(), panel, offset), size * elemSize);
    }

    method ReadPanelValue(panel: int, offset: int, elemSize: nat) returns (r: Result<seq<byte>>)
      modifies this`computedAddresses, this`osCalls
      ensures (r, State()) == A.ReadPanelValue(Cfg(), old(State()), panel, offset, elemSize)
    {
      r := ReadData(A.PanelChain(Cfg(), panel, offset), elemSize);
    }

    method WritePanelData(panel: int, offset: int, data: seq<byte>) returns (r: Result<()>)
      modifies this`computedAddresses, this`osCalls, this`target
      ensures (r, State()) == A.WritePanelData(Cfg(), old(State()), panel, offset, data)
    {
      r := WriteData(A.PanelChain(Cfg(), panel, offset), data);
    }

    method AllocArray(n: nat) returns (ptr: u64)
      modifies this`allocCount, this`target
      ensures (ptr, State()) == A.AllocArray(Cfg(), old(State()), n)
    {
      ptr := allocator(allocCount);
      if ptr != 0 {
        target := Commit(target, ptr, n);
      }
      allocCount := allocCount + 1;
    }

    method EvictField(panel: int, offset: int) returns (ok: bool)
      modifies this`computedAddresses, this`osCalls
      ensures (ok, State()) == A.EvictField(Cfg(), old(State()), panel, offset)
    {
      var field := ComputeOffset(A.PanelChain(Cfg(), panel, offset));
      if field.None? {
        return false;
      }
      computedAddresses := computedAddresses - {field.value};
      ok := true;
    }

    method ReadArray(panel: int, offset: int, size: nat, elemSize: nat) returns (r: Result<seq<byte>>)
      modifies this`computedAddresses, this`osCalls, this`arraySizes
      ensures (r, State()) == A.ReadArray(Cfg(), old(State()), panel, offset, size, elemSize)
    {
      if size == 0 {
        return Ok([]);
      }
      if offset == A.TRACED_EDGES || offset == A.TRACED_EDGES_COUNT {
        var ok := EvictField(panel, offset);
        if !ok {
          return Error;
        }
      }
      arraySizes := arraySizes[(panel, offset) := size];
      r := ReadData(A.ArrayChain(Cfg(), panel, offset), size * elemSize);
    }

    method Reallocate(panel: int, offset: int, n: nat) returns (r: Result<()>)
      modifies this`computedAddresses, this`osCalls, this`target, this`allocCount
      ensures (r, State()) == A.Reallocate(Cfg(), old(State()), panel, offset, n)
    {
      var ok := EvictField(panel, offset);
      if !ok {
        return Error;
      }
      var ptr := AllocArray(n);
      r := WritePanelData(panel, offset, Le64(ptr));
    }

    method WriteArray(panel: int, offset: int, data: seq<byte>, elemSize: nat) returns (r: Result<()>)
      requires elemSize > 0
      modifies this`computedAddresses, this`osCalls, this`target, this`arraySizes, this`allocCount
      ensures (r, State()) == A.WriteArray(Cfg(), old(State()), panel, offset, data, elemSize)
    {
      if |data| == 0 {
        return Ok(());
      }
      var key := (panel, offset);
      if key !in arraySizes {
        arraySizes := arraySizes[key := 0];
      }
      assert arraySizes == old(arraySizes)[key := A.TrackedSize(old(State()), panel, offset)];
      if |data| / elemSize > arraySizes[key] {
        r := Reallocate(panel, offset, |data|);
        if r.Error? {
          return;
        }
      }
      r := WriteData(A.ArrayChain(Cfg(), panel, offset), data);
    }

    method WriteArrayForced(panel: int, offset: int, data: seq<byte>, elemSize: nat, force: bool) returns (r: Result<()>)
      requires elemSize > 0
      modifies this`computedAddresses, this`osCalls, this`target, this`arraySizes, this`allocCount
      ensures (r, State()) == A.WriteArrayForced(Cfg(), old(State()), panel, offset, data, elemSize, force)
    {
      if force {
        arraySizes := arraySizes[(panel, offset) := 0];
      }
      r := WriteArray(panel, offset, data, elemSize);
    }

    /** executeSigScan: the offset, relative to start, of the first accepted
        match in the memory readable from start, or UINT64_MAX. */
    function ExecuteSigScan(sig: seq<byte>, scanFunc: Option<Scan.Delegate>, start: u64): (r: u64)
      reads this
      ensures r == UINT64_MAX <==> Scan.NoneAccepted(ScanRegion(target, start), sig, scanFunc)
      ensures r != UINT64_MAX ==>
                && Scan.Accepted(ScanRegion(target, start), sig, scanFunc, r)
                && forall q: nat :: q < r ==> !Scan.Accepted(ScanRegion(target, start), sig, scanFunc, q)
    {
      var region := ScanRegion(target, start);
      assert |region| < UINT64_MAX;
      Scan.ExecuteSigScan(region, sig, scanFunc)
    }
  }
}
