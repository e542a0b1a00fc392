/** What each operation of the remote memory accessor (class Memory) does to
    the accessor's state, as functions. The class in memory.dfy implements
    them with loops and in-place updates and is proved against them; the
    lemmas here say what the functions mean. */
module Accessor {
  import opened Bytes
  import opened Wrappers
  import opened TargetMemory
  import opened OffsetResolver

  /** ReadAbsolute / WriteAbsolute attempt at most this often when
      retryOnFail is set. */
  const RETRY_LIMIT: nat := 10000

  /** The offsets of ReadArray's traced-edge arrays, whose backing buffer
      the game moves, so their cached pointer is dropped before each read. */
  const TRACED_EDGES: int := 0x230
  const TRACED_EDGES_COUNT: int := 0x238

  /** What the accessor is given and does not change: the module base, the
      GLOBALS offset, the retry policy and the two OS oracles. flaky(k) says
      that OS call number k fails transiently; allocator(n) is the address
      the n-th VirtualAllocEx returns (0 when it fails). */
  datatype Config = Config(base: u64, globals: int, retryOnFail: bool, flaky: nat -> bool, allocator: nat -> u64)

  /** What the accessor's operations change: the target's memory, the count
      of OS calls and of allocations made so far, the memo table of
      ComputeOffset (_computedAddresses) and the tracked array sizes
      (_arraySizes, keyed by (panel, offset)). */
  datatype State = State(mem: Mem, calls: nat, allocs: nat, cache: Cache, sizes: map<(int, int), nat>)

  function AttemptLimit(retryOnFail: bool): nat {
    if retryOnFail then RETRY_LIMIT else 1
  }

  /** The number of the last OS call a ReadAbsolute/WriteAbsolute of n
      bytes at addr makes when its attempts may use the calls numbered
      [first, end): it stops at the first attempt that succeeds and gives up
      after call end - 1. */
  function LastAttempt(mem: Mem, flaky: nat -> bool, first: nat, end: nat, addr: nat, n: nat): (last: nat)
    requires first < end
    ensures first <= last < end
    decreases end - first
  {
    if first + 1 == end || AttemptSucceeds(mem, flaky, first, addr, n) then first
    else LastAttempt(mem, flaky, first + 1, end, addr, n)
  }

  /** Every attempt before the last one failed, and the last one succeeded
      unless the attempts ran out. */
  lemma {:induction false} LastAttemptIsFirstSuccess(mem: Mem, flaky: nat -> bool, first: nat, end: nat, addr: nat, n: nat)
    requires first < end
    ensures var last := LastAttempt(mem, flaky, first, end, addr, n);
            && (forall j :: first <= j < last ==> !AttemptSucceeds(mem, flaky, j, addr, n))
            && (last < end - 1 ==> AttemptSucceeds(mem, flaky, last, addr, n))
    decreases end - first
  {
    if first + 1 < end && !AttemptSucceeds(mem, flaky, first, addr, n) {
      LastAttemptIsFirstSuccess(mem, flaky, first + 1, end, addr, n);
    }
  }

  /** The access succeeds iff one of the calls it may make succeeds. */
  lemma RetrySucceedsIffSomeAttemptDoes(mem: Mem, flaky: nat -> bool, first: nat, end: nat, addr: nat, n: nat)
    requires first < end
    ensures var succeeded := AttemptSucceeds(mem, flaky, LastAttempt(mem, flaky, first, end, addr, n), addr, n);
            succeeded <==> exists j :: first <= j < end && AttemptSucceeds(mem, flaky, j, addr, n)
  {
    LastAttemptIsFirstSuccess(mem, flaky, first, end, addr, n);
  }

  /** The last attempt is the only call number consistent with the retry
      loop's exit: every earlier attempt failed and, unless the attempts ran
      out, that one succeeded. */
  lemma {:induction false} LastAttemptUnique(mem: Mem, flaky: nat -> bool, first: nat, end: nat, addr: nat, n: nat, last: nat)
    requires first <= last < end
    requires forall j :: first <= j < last ==> !AttemptSucceeds(mem, flaky, j, addr, n)
    requires last < end - 1 ==> AttemptSucceeds(mem, flaky, last, addr, n)
    ensures LastAttempt(mem, flaky, first, end, addr, n) == last
    decreases end - first
  {
    if first < last {
      LastAttemptUnique(mem, flaky, first + 1, end, addr, n, last);
    }
  }

  /** The address a base-relative access reaches. */
  function RelativeToAbsolute(cfg: Config, addr: u64): (a: u64)
    ensures Wrap64(a - cfg.base) == addr
  {
    Wrap64(addr + cfg.base)
  }

  /** ReadAbsolute: up to AttemptLimit ReadProcessMemory calls, stopping
      at the first that succeeds; the bytes read, or nothing. */
  function ReadAbsolute(cfg: Config, st: State, addr: u64, n: nat): (res: (bool, seq<byte>, State))
  {
    var last := LastAttempt(st.mem, cfg.flaky, st.calls, st.calls + AttemptLimit(cfg.retryOnFail), addr, n);
    var ok := AttemptSucceeds(st.mem, cfg.flaky, last, addr, n);
    (ok, if ok then Load(st.mem, addr, n) else [], st.(calls := last + 1))
  }

  /** A read changes nothing but the call count; it succeeds iff one of the
      calls it made succeeded, and then returns what the target holds; a
      failed read used up every attempt and returns nothing. */
  lemma ReadAbsoluteMeaning(cfg: Config, st: State, addr: u64, n: nat)
    ensures var (ok, data, st') := ReadAbsolute(cfg, st, addr, n);
            && st' == st.(calls := st'.calls)
            && st.calls < st'.calls <= st.calls + AttemptLimit(cfg.retryOnFail)
            && (ok <==> exists j :: st.calls <= j < st'.calls && AttemptSucceeds(st.mem, cfg.flaky, j, addr, n))
            && (ok ==> data == Load(st.mem, addr, n))
            && (!ok ==> data == [] && st'.calls == st.calls + AttemptLimit(cfg.retryOnFail))
  {
    LastAttemptIsFirstSuccess(st.mem, cfg.flaky, st.calls, st.calls + AttemptLimit(cfg.retryOnFail), addr, n);
  }

  /** WriteAbsolute: up to AttemptLimit WriteProcessMemory calls, stopping
      at the first that succeeds. */
  function WriteAbsolute(cfg: Config, st: State, addr: u64, data: seq<byte>): (res: (bool, State))
  {
    var last := LastAttempt(st.mem, cfg.flaky, st.calls, st.calls + AttemptLimit(cfg.retryOnFail), addr, |data|);
    if AttemptSucceeds(st.mem, cfg.flaky, last, addr, |data|) then
      (true, st.(mem := Store(st.mem, addr, data), calls := last + 1))
    else (false, st.(calls := last + 1))
  }

  /** A write changes nothing but the call count and the target's memory;
      it succeeds iff one of the calls it made succeeded, and then it has
      stored the data over exactly [addr, addr + |data|), which reads back as
      written; a failed write leaves the target as it was. */
  lemma WriteAbsoluteMeaning(cfg: Config, st: State, addr: u64, data: seq<byte>)
    ensures var (ok, st') := WriteAbsolute(cfg, st, addr, data);
            && st' == st.(calls := st'.calls, mem := st'.mem)
            && st.calls < st'.calls <= st.calls + AttemptLimit(cfg.retryOnFail)
            && (ok <==> exists j :: st.calls <= j < st'.calls && AttemptSucceeds(st.mem, cfg.flaky, j, addr, |data|))
            && (ok ==> Readable(st.mem, addr, |data|) && st'.mem == Store(st.mem, addr, data))
            && (ok ==> Readable(st'.mem, addr, |data|) && Load(st'.mem, addr, |data|) == data)
            && (!ok ==> st'.mem == st.mem && st'.calls == st.calls + AttemptLimit(cfg.retryOnFail))
  {
    var last := LastAttempt(st.mem, cfg.flaky, st.calls, st.calls + AttemptLimit(cfg.retryOnFail), addr, |data|);
    LastAttemptIsFirstSuccess(st.mem, cfg.flaky, st.calls, st.calls + AttemptLimit(cfg.retryOnFail), addr, |data|);
    if AttemptSucceeds(st.mem, cfg.flaky, last, addr, |data|) {
      LoadStore(st.mem, addr, data, addr, |data|);
    }
  }

  /** ComputeOffset: the memoised walk from the module base. */
  function ComputeOffset(cfg: Config, st: State, offsets: seq<int>): (res: (Option<u64>, State))
    requires |offsets| >= 1
  {
    var w := Walk(st.mem, cfg.flaky, st.cache, st.calls, cfg.base, offsets);
    (w.addr, st.(cache := w.cache, calls := w.calls))
  }

  /** ComputeOffset changes only the memo table, which it only extends, and
      the call count; with a memo table that agrees with the target it finds
      the address the reference resolution gives, and keeps the table in
      agreement. */
  lemma ComputeOffsetMeaning(cfg: Config, st: State, offsets: seq<int>)
    requires |offsets| >= 1
    ensures var (addr, st') := ComputeOffset(cfg, st, offsets);
            && st' == st.(calls := st'.calls, cache := st'.cache)
            && st.calls <= st'.calls
            && (forall f :: f in st.cache ==> f in st'.cache && st'.cache[f] == st.cache[f])
            && (Coherent(st.mem, st.cache) ==>
                  && (addr.Some? ==> addr == Resolve(st.mem, cfg.base, offsets))
                  && Coherent(st.mem, st'.cache))
  {
    WalkKeepsCache(st.mem, cfg.flaky, st.cache, st.calls, cfg.base, offsets);
    if Coherent(st.mem, st.cache) {
      CoherentWalkResolves(st.mem, cfg.flaky, st.cache, st.calls, cfg.base, offsets);
    }
  }

  /** The chain that names a field of a panel: globals, then the panel
      table, then the panel's slot, then the field. */
  function PanelChain(cfg: Config, panel: int, offset: int): (c: seq<int>)
    ensures |c| == 4
  {
    [cfg.globals, 0x18, panel * 8, offset]
  }

  /** The chain that names the first element of the array a panel's pointer
      field points to. */
  function ArrayChain(cfg: Config, panel: int, offset: int): (c: seq<int>)
    ensures |c| == 5 && c == PanelChain(cfg, panel, offset) + [0]
  {
    PanelChain(cfg, panel, offset) + [0]
  }

  /** ReadData: resolve the chain, then read; either failure is reported
      as an error (ThrowError). */
  function ReadData(cfg: Config, st: State, offsets: seq<int>, n: nat): (res: (Result<seq<byte>>, State))
    requires |offsets| >= 1
    ensures res.1 == st.(calls := res.1.calls, cache := res.1.cache)
  {
    var (addr, st1) := ComputeOffset(cfg, st, offsets);
    if addr.None? then (Error, st1)
    else
      var (ok, data, st2) := ReadAbsolute(cfg, st1, addr.value, n);
      (if ok then Ok(data) else Error, st2)
  }

  /** WriteData: resolve the chain, then write; either failure is reported
      as an error (ThrowError). */
  function WriteData(cfg: Config, st: State, offsets: seq<int>, data: seq<byte>): (res: (Result<()>, State))
    requires |offsets| >= 1
    ensures res.1 == st.(mem := res.1.mem, calls := res.1.calls, cache := res.1.cache)
  {
    var (addr, st1) := ComputeOffset(cfg, st, offsets);
    if addr.None? then (Error, st1)
    else
      var (ok, st2) := WriteAbsolute(cfg, st1, addr.value, data);
      (if ok then Ok(()) else Error, st2)
  }

  /** ReadPanelData, vector form: size items of elemSize bytes each. */
  function ReadPanelData(cfg: Config, st: State, panel: int, offset: int, size: nat, elemSize: nat): (res: (Result<seq<byte>>, State))
    ensures size == 0 ==> res == (Ok([]), st)
  {
    if size == 0 then (Ok([]), st)
    else ReadData(cfg, st, PanelChain(cfg, panel, offset), size * elemSize)
  }

  /** ReadPanelData, single-value form: one item, or an error. */
  function ReadPanelValue(cfg: Config, st: State, panel: int, offset: int, elemSize: nat): (res: (Result<seq<byte>>, State))
  {
    ReadData(cfg, st, PanelChain(cfg, panel, offset), elemSize)
  }

  function WritePanelData(cfg: Config, st: State, panel: int, offset: int, data: seq<byte>): (res: (Result<()>, State))
  {
    WriteData(cfg, st, PanelChain(cfg, panel, offset), data)
  }

  /** AllocArray: a fresh region of n bytes in the target, committed as
      zeros when the allocation succeeds. */
  function AllocArray(cfg: Config, st: State, n: nat): (res: (u64, State))
    ensures res.1 == st.(allocs := st.allocs + 1, mem := res.1.mem)
    ensures res.0 == cfg.allocator(st.allocs)
  {
    var ptr := cfg.allocator(st.allocs);
    (ptr, st.(allocs := st.allocs + 1, mem := if ptr != 0 then Commit(st.mem, ptr, n) else st.mem))
  }

  function TrackedSize(st: State, panel: int, offset: int): nat {
    if (panel, offset) in st.sizes then st.sizes[(panel, offset)] else 0
  }

  /** Drops the cached pointer of the panel's field at offset, so that the
      next walk through it reads the field again; false when the chain to the
      field cannot be resolved (ThrowError). */
  function EvictField(cfg: Config, st: State, panel: int, offset: int): (res: (bool, State))
    ensures var (ok, st') := res;
            st' == st.(calls := st'.calls, cache := st'.cache)
  {
    var (field, s) := ComputeOffset(cfg, st, PanelChain(cfg, panel, offset));
    if field.None? then (false, s) else (true, s.(cache := s.cache - {field.value}))
  }

  /** ReadArray: size items of elemSize bytes from the array that the panel's
      pointer field at offset points to. */
  function ReadArray(cfg: Config, st: State, panel: int, offset: int, size: nat, elemSize: nat): (res: (Result<seq<byte>>, State))
  {
    if size == 0 then (Ok([]), st)
    else
      var (evicted, st1) :=
        if offset == TRACED_EDGES || offset == TRACED_EDGES_COUNT then EvictField(cfg, st, panel, offset)
        else (true, st);
      if !evicted then (Error, st1)
      else ReadData(cfg, st1.(sizes := st1.sizes[(panel, offset) := size]), ArrayChain(cfg, panel, offset), size * elemSize)
  }

  /** The reallocation step of WriteArray: drop the field's cached pointer,
      allocate n bytes and store the new array's address in the field. */
  function Reallocate(cfg: Config, st: State, panel: int, offset: int, n: nat): (res: (Result<()>, State))
    ensures res.1.sizes == st.sizes
  {
    var (ok, s) := EvictField(cfg, st, panel, offset);
    if !ok then (Error, s)
    else
      var (ptr, s') := AllocArray(cfg, s, n);
      WritePanelData(cfg, s', panel, offset, Le64(ptr))
  }

  /** WriteArray: data holds |data| / elemSize items. When there are more
      items than the tracked size of (panel, offset), the field is pointed at
      a freshly allocated array (Reallocate); then the items are written
      through the array chain. */
  function WriteArray(cfg: Config, st: State, panel: int, offset: int, data: seq<byte>, elemSize: nat): (res: (Result<()>, State))
    requires elemSize > 0
  {
    if |data| == 0 then (Ok(()), st)
    else
      var (grown, st2) := GrowArray(cfg, st, panel, offset, |data| / elemSize, |data|);
      if grown.Error? then (Error, st2)
      else WriteData(cfg, st2, ArrayChain(cfg, panel, offset), data)
  }

  /** The first half of a non-empty WriteArray of count items in n bytes:
      an untracked field gets the tracked size 0, and when the items do not
      fit in the tracked size the field is pointed at a fresh array. */
  function GrowArray(cfg: Config, st: State, panel: int, offset: int, count: nat, n: nat): (res: (Result<()>, State))
  {
    var tracked := TrackedSize(st, panel, offset);
    var st1 := st.(sizes := st.sizes[(panel, offset) := tracked]);
    if count > tracked then Reallocate(cfg, st1, panel, offset, n) else (Ok(()), st1)
  }

  /** The forced WriteArray: forgets the tracked size first, so that any
      non-empty write reallocates. */
  function WriteArrayForced(cfg: Config, st: State, panel: int, offset: int, data: seq<byte>, elemSize: nat, force: bool): (res: (Result<()>, State))
    requires elemSize > 0
  {
    WriteArray(cfg, if force then st.(sizes := st.sizes[(panel, offset) := 0]) else st, panel, offset, data, elemSize)
  }
}
