/** What ReadArray and WriteArray do with the tracked array sizes
    (_arraySizes), the memo table and the target's allocations. */
module ArrayBookkeeping {
  import opened Bytes
  import opened Wrappers
  import opened TargetMemory
  import opened OffsetResolver
  import opened Accessor

  predicate IsTraced(offset: int) {
    offset == TRACED_EDGES || offset == TRACED_EDGES_COUNT
  }

  /** ReadArray of no items reads nothing and changes nothing. A non-empty
      one records the size it read under (panel, offset), unless resolving
      the field for the eviction fails first; it never writes the target or
      allocates. */
  lemma ReadArraySizes(cfg: Config, st: State, panel: int, offset: int, size: nat, elemSize: nat)
    ensures var (r, st') := ReadArray(cfg, st, panel, offset, size, elemSize);
            && (size == 0 ==> (r, st') == (Ok([]), st))
            && st'.mem == st.mem && st'.allocs == st.allocs
            && (size > 0 && r.Ok? ==> st'.sizes == st.sizes[(panel, offset) := size])
            && (size > 0 && !IsTraced(offset) ==> st'.sizes == st.sizes[(panel, offset) := size])
            && (size > 0 ==> st'.sizes == st.sizes[(panel, offset) := size] || (IsTraced(offset) && r.Error? && st'.sizes == st.sizes))
  {
  }

  /** The traced-edge arrays move, so ReadArray drops the cached pointer of
      their field: afterwards the memo table holds for that field either
      nothing or the pointer the target holds now, never the one cached
      before. For every other offset the memo table keeps all it held. */
  lemma ReadArrayEviction(cfg: Config, st: State, panel: int, offset: int, size: nat, elemSize: nat)
    requires size > 0
    ensures var (r, st') := ReadArray(cfg, st, panel, offset, size, elemSize);
            var field := ComputeOffset(cfg, st, PanelChain(cfg, panel, offset)).0;
            && (IsTraced(offset) && field.Some? && field.value in st'.cache ==>
                  Readable(st.mem, field.value, 8) && st'.cache[field.value] == PointerAt(st.mem, field.value))
            && (!IsTraced(offset) ==> forall f :: f in st.cache ==> f in st'.cache && st'.cache[f] == st.cache[f])
  {
    var chain := ArrayChain(cfg, panel, offset);
    if IsTraced(offset) {
      var (field, st1) := ComputeOffset(cfg, st, PanelChain(cfg, panel, offset));
      ComputeOffsetMeaning(cfg, st, PanelChain(cfg, panel, offset));
      if field.Some? {
        var st2 := st1.(cache := st1.cache - {field.value}, sizes := st1.sizes[(panel, offset) := size]);
        assert field.value !in st2.cache;
        WalkAddsFreshEntries(st2.mem, cfg.flaky, st2.cache, st2.calls, cfg.base, chain);
      }
    } else {
      var st2 := st.(sizes := st.sizes[(panel, offset) := size]);
      ComputeOffsetMeaning(cfg, st2, chain);
    }
  }

  /** With a memo table that agrees with the target, a ReadArray that
      succeeds returns the items stored at the array the panel's pointer
      field points to, as the reference resolution finds it. */
  lemma ReadArrayReadsTheArray(cfg: Config, st: State, panel: int, offset: int, size: nat, elemSize: nat)
    requires Coherent(st.mem, st.cache)
    requires size > 0
    ensures var (r, st') := ReadArray(cfg, st, panel, offset, size, elemSize);
            var addr := Resolve(st.mem, cfg.base, ArrayChain(cfg, panel, offset));
            r.Ok? ==> addr.Some? && Readable(st.mem, addr.value, size * elemSize) && r.value == Load(st.mem, addr.value, size * elemSize)
  {
    ComputeOffsetMeaning(cfg, st, PanelChain(cfg, panel, offset));
    var (evicted, st1) := if IsTraced(offset) then EvictField(cfg, st, panel, offset) else (true, st);
    if evicted {
      assert Coherent(st1.mem, st1.cache);
      ReadDataReadsResolved(cfg, st1.(sizes := st1.sizes[(panel, offset) := size]), ArrayChain(cfg, panel, offset), size * elemSize);
    }
  }

  /** With a memo table that agrees with the target, a ReadData that
      succeeds returns the bytes stored where the reference resolution of
      the chain points. */
  lemma ReadDataReadsResolved(cfg: Config, st: State, chain: seq<int>, n: nat)
    requires |chain| >= 1 && Coherent(st.mem, st.cache)
    ensures var (r, st') := ReadData(cfg, st, chain, n);
            var addr := Resolve(st.mem, cfg.base, chain);
            r.Ok? ==> addr.Some? && Readable(st.mem, addr.value, n) && r.value == Load(st.mem, addr.value, n)
  {
    ComputeOffsetMeaning(cfg, st, chain);
    var (addr, st1) := ComputeOffset(cfg, st, chain);
    if addr.Some? {
      ReadAbsoluteMeaning(cfg, st1, addr.value, n);
    }
  }

  /** ReadPanelData of no items reads nothing and changes nothing. Otherwise,
      with a memo table that agrees with the target, what a successful one
      returns is the size * elemSize bytes stored at the panel's field; it
      never writes the target, allocates or changes the tracked sizes. */
  lemma ReadPanelDataMeaning(cfg: Config, st: State, panel: int, offset: int, size: nat, elemSize: nat)
    ensures var (r, st') := ReadPanelData(cfg, st, panel, offset, size, elemSize);
            var addr := Resolve(st.mem, cfg.base, PanelChain(cfg, panel, offset));
            && (size == 0 ==> r == Ok([]) && st' == st)
            && st'.mem == st.mem && st'.allocs == st.allocs && st'.sizes == st.sizes
            && (size > 0 && Coherent(st.mem, st.cache) && r.Ok? ==>
                  addr.Some? && Readable(st.mem, addr.value, size * elemSize)
                  && r.value == Load(st.mem, addr.value, size * elemSize))
  {
    if size > 0 && Coherent(st.mem, st.cache) {
      ReadDataReadsResolved(cfg, st, PanelChain(cfg, panel, offset), size * elemSize);
    }
  }

  /** A successful WriteData has stored the data over exactly the range
      where ComputeOffset resolved the chain, which with a memo table that
      agrees with the target is the reference resolution's address; the
      write itself leaves the memo table as the walk left it, and a failed
      WriteData leaves the target as it was. */
  lemma WriteDataStores(cfg: Config, st: State, chain: seq<int>, data: seq<byte>)
    requires |chain| >= 1
    ensures var (r, st') := WriteData(cfg, st, chain, data);
            var (addr, st1) := ComputeOffset(cfg, st, chain);
            && st'.cache == st1.cache
            && (r.Ok? ==> addr.Some? && Readable(st.mem, addr.value, |data|)
                          && st'.mem == Store(st.mem, addr.value, data)
                          && Readable(st'.mem, addr.value, |data|)
                          && Load(st'.mem, addr.value, |data|) == data)
            && (r.Error? ==> st'.mem == st.mem)
            && (Coherent(st.mem, st.cache) && addr.Some? ==> addr == Resolve(st.mem, cfg.base, chain))
  {
    ComputeOffsetMeaning(cfg, st, chain);
    var (addr, st1) := ComputeOffset(cfg, st, chain);
    if addr.Some? {
      WriteAbsoluteMeaning(cfg, st1, addr.value, data);
    }
  }

  /** EvictField resolves the panel's field and erases its memo entry,
      keeping every other entry the walk left; the next walk through the
      field therefore reads it from the target and memoises what the target
      holds then, whatever that is. When the field cannot be resolved the
      eviction fails and leaves the state as the walk left it. */
  lemma EvictFieldMeaning(cfg: Config, st: State, panel: int, offset: int, mem: Mem, calls: nat)
    ensures var (field, s) := ComputeOffset(cfg, st, PanelChain(cfg, panel, offset));
            var (ok, st') := EvictField(cfg, st, panel, offset);
            && (ok <==> field.Some?)
            && (!ok ==> st' == s)
            && (ok ==> && st' == s.(cache := st'.cache)
                       && field.value !in st'.cache
                       && (forall f :: f in s.cache && f != field.value ==> f in st'.cache && st'.cache[f] == s.cache[f]))
            && (ok ==> var w := Walk(mem, cfg.flaky, st'.cache, calls, cfg.base, ArrayChain(cfg, panel, offset));
                       field.value in w.cache ==> Readable(mem, field.value, 8) && w.cache[field.value] == PointerAt(mem, field.value))
  {
    var (field, s) := ComputeOffset(cfg, st, PanelChain(cfg, panel, offset));
    if field.Some? {
      var st' := EvictField(cfg, st, panel, offset).1;
      WalkAddsFreshEntries(mem, cfg.flaky, st'.cache, calls, cfg.base, ArrayChain(cfg, panel, offset));
    }
  }

  /** A successful reallocation has made one allocation and pointed the
      panel's field at it: resolving the field again is a memo hit that
      makes no OS call, and the target holds the allocator's address
      there. */
  lemma ReallocatePointsField(cfg: Config, st: State, panel: int, offset: int, n: nat)
    ensures var (r, st') := Reallocate(cfg, st, panel, offset, n);
            var (field, st'') := ComputeOffset(cfg, st', PanelChain(cfg, panel, offset));
            r.Ok? ==>
              && st'.allocs == st.allocs + 1
              && field.Some? && st'' == st'
              && Readable(st'.mem, field.value, 8)
              && PointerAt(st'.mem, field.value) == cfg.allocator(st.allocs)
  {
    var chain := PanelChain(cfg, panel, offset);
    var (ok, s) := EvictField(cfg, st, panel, offset);
    if ok {
      var (ptr, s') := AllocArray(cfg, s, n);
      WriteDataStores(cfg, s', chain, Le64(ptr));
      var (r, st') := WriteData(cfg, s', chain, Le64(ptr));
      if r.Ok? {
        var field := ComputeOffset(cfg, s', chain).0.value;
        WalkAgainIsAHit(s'.mem, cfg.flaky, s'.cache, s'.calls, cfg.base, chain, st'.mem, cfg.flaky, st'.calls);
        Le64RoundTrip(ptr, Le64(ptr));
        assert PointerAt(st'.mem, field) == ptr;
      }
    }
  }

  /** Where a non-empty WriteArray that succeeds puts the items: the target
      afterwards is the target after GrowArray with the items stored over
      exactly the range the array chain resolves to. Without a reallocation
      and with a memo table that agrees with the target, that range is the
      array the panel's field points to. After a reallocation it is the
      fresh array, unless the memo table holds a pointer for the field
      itself. */
  lemma WriteArrayWritesTheArray(cfg: Config, st: State, panel: int, offset: int, data: seq<byte>, elemSize: nat)
    requires elemSize > 0 && |data| > 0
    ensures var (r, st') := WriteArray(cfg, st, panel, offset, data, elemSize);
            var s2 := GrowArray(cfg, st, panel, offset, |data| / elemSize, |data|).1;
            var field := ComputeOffset(cfg, s2, PanelChain(cfg, panel, offset)).0;
            var addr := ComputeOffset(cfg, s2, ArrayChain(cfg, panel, offset)).0;
            r.Ok? ==>
              && addr.Some? && Readable(s2.mem, addr.value, |data|)
              && st'.mem == Store(s2.mem, addr.value, data)
              && Readable(st'.mem, addr.value, |data|) && Load(st'.mem, addr.value, |data|) == data
              && (|data| / elemSize <= TrackedSize(st, panel, offset) && Coherent(st.mem, st.cache) ==>
                    addr == Resolve(st.mem, cfg.base, ArrayChain(cfg, panel, offset)))
              && (|data| / elemSize > TrackedSize(st, panel, offset) && field.Some? && field.value !in s2.cache ==>
                    addr == Some(cfg.allocator(st.allocs)))
  {
    var chain := ArrayChain(cfg, panel, offset);
    var (grown, s2) := GrowArray(cfg, st, panel, offset, |data| / elemSize, |data|);
    if grown.Ok? {
      WriteDataStores(cfg, s2, chain, data);
      if |data| / elemSize > TrackedSize(st, panel, offset) {
        GrownArrayIsFresh(cfg, st, panel, offset, |data| / elemSize, |data|);
      }
    }
  }

  /** After a successful reallocation, a walk of the array chain that does
      not find the field in the memo table reads the fresh array's address
      from the field, or fails. */
  lemma GrownArrayIsFresh(cfg: Config, st: State, panel: int, offset: int, count: nat, n: nat)
    requires count > TrackedSize(st, panel, offset)
    ensures var (grown, s2) := GrowArray(cfg, st, panel, offset, count, n);
            var field := ComputeOffset(cfg, s2, PanelChain(cfg, panel, offset)).0;
            var addr := ComputeOffset(cfg, s2, ArrayChain(cfg, panel, offset)).0;
            grown.Ok? && field.Some? && field.value !in s2.cache && addr.Some? ==> addr == Some(cfg.allocator(st.allocs))
  {
    var st1 := st.(sizes := st.sizes[(panel, offset) := TrackedSize(st, panel, offset)]);
    var (grown, s2) := GrowArray(cfg, st, panel, offset, count, n);
    ReallocatePointsField(cfg, st1, panel, offset, n);
    if grown.Ok? {
      var pc := PanelChain(cfg, panel, offset);
      ReadFieldAfterWalk(s2.mem, cfg.flaky, s2.cache, s2.calls, cfg.base, pc);
      assert ArrayChain(cfg, panel, offset) == pc + [0];
    }
  }

  /** Extending a walk that ends at a field the memo table does not hold by
      a dereference reads the pointer the target holds at that field. */
  lemma ReadFieldAfterWalk(mem: Mem, flaky: nat -> bool, cache: Cache, calls: nat, cur: u64, offsets: seq<int>)
    requires |offsets| >= 1
    ensures var w := Walk(mem, flaky, cache, calls, cur, offsets);
            var addr := Walk(mem, flaky, cache, calls, cur, offsets + [0]).addr;
            w.addr.Some? && w.addr.value !in w.cache && addr.Some? ==>
              Readable(mem, w.addr.value, 8) && addr == Some(PointerAt(mem, w.addr.value))
  {
    var w := Walk(mem, flaky, cache, calls, cur, offsets);
    WalkExtend(mem, flaky, cache, calls, cur, offsets, 0);
    if w.addr.Some? && w.addr.value !in w.cache {
      var field := w.addr.value;
      var tail: seq<int> := [0, 0];
      assert Wrap64(field + tail[0]) == field;
      WalkStep(mem, flaky, w.cache, w.calls, field, tail, 0);
      var d := Deref(mem, flaky, w.cache, w.calls, field);
      if d.0.Some? {
        WalkLast(mem, flaky, d.1, d.2, d.0.value, tail[1..]);
        assert tail[1..][0..] == tail[1..];
      }
    }
  }

  /** WriteArray of no data changes nothing. Otherwise it never raises the
      tracked size: it only default-inserts 0 for an untracked field. It
      allocates at most once, and only when the data holds more items than
      the tracked size. */
  lemma WriteArraySizes(cfg: Config, st: State, panel: int, offset: int, data: seq<byte>, elemSize: nat)
    requires elemSize > 0
    ensures var (r, st') := WriteArray(cfg, st, panel, offset, data, elemSize);
            && (|data| == 0 ==> (r, st') == (Ok(()), st))
            && (|data| > 0 ==> st'.sizes == st.sizes[(panel, offset) := TrackedSize(st, panel, offset)])
            && TrackedSize(st', panel, offset) == TrackedSize(st, panel, offset)
            && (|data| / elemSize <= TrackedSize(st, panel, offset) ==> st'.allocs == st.allocs)
            && (|data| / elemSize > TrackedSize(st, panel, offset) ==> st'.allocs <= st.allocs + 1)
  {
    if |data| > 0 {
      var tracked := TrackedSize(st, panel, offset);
      var st1 := st.(sizes := st.sizes[(panel, offset) := tracked]);
      if |data| / elemSize > tracked {
        ReallocateMeaning(cfg, st1, panel, offset, |data|);
      }
    }
  }

  /** The reallocation step allocates exactly once, unless the field cannot
      be resolved first, in which case it allocates nothing and fails
      (ReallocatePointsField says where a successful one leaves the fresh
      array's address). */
  lemma ReallocateMeaning(cfg: Config, st: State, panel: int, offset: int, n: nat)
    ensures var (r, st') := Reallocate(cfg, st, panel, offset, n);
            && st'.sizes == st.sizes
            && (st'.allocs == st.allocs + 1 || (r.Error? && st'.allocs == st.allocs))
            && (r.Ok? ==> st'.allocs == st.allocs + 1)
  {
  }

  /** The forced WriteArray forgets the tracked size, so a forced write of
      at least one item always takes the reallocation step (and allocates
      unless resolving the field fails), and leaves the tracked size 0. An
      unforced one is the plain WriteArray. */
  lemma WriteArrayForcedReallocates(cfg: Config, st: State, panel: int, offset: int, data: seq<byte>, elemSize: nat)
    requires elemSize > 0 && |data| >= elemSize
    ensures var (r, st') := WriteArrayForced(cfg, st, panel, offset, data, elemSize, true);
            && TrackedSize(st', panel, offset) == 0
            && (st'.allocs == st.allocs + 1 || r.Error?)
    ensures WriteArrayForced(cfg, st, panel, offset, data, elemSize, false) == WriteArray(cfg, st, panel, offset, data, elemSize)
  {
    var st0 := st.(sizes := st.sizes[(panel, offset) := 0]);
    assert TrackedSize(st0, panel, offset) == 0;
    assert |data| / elemSize >= 1 by {
      MulAtLeast(elemSize, 1);
    }
    WriteArraySizes(cfg, st0, panel, offset, data, elemSize);
    var st1 := st0.(sizes := st0.sizes[(panel, offset) := 0]);
    ReallocateMeaning(cfg, st1, panel, offset, |data|);
  }
}
