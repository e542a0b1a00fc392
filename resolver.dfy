/** ComputeOffset's pointer-chain walk and its memo table.

    A chain [o1, ..., on] names a field: starting at the module base, each
    offset but the last is added to the current address and the pointer
    stored there is followed; the last offset is added without a further
    dereference, so the result is the address of the field itself. The memo
    table (_computedAddresses) maps the address of each pointer field the
    walk has read to the pointer it read there; a field found in the table is
    not read again. A miss costs one ReadProcessMemory call, numbered by the
    running count of OS calls, and fails when that call fails. */
module OffsetResolver {
  import opened Bytes
  import opened Wrappers
  import opened TargetMemory

  type Cache = map<u64, u64>

  /** The result of a walk: the field address (None when a pointer read
      failed), the memo table afterwards and the OS call count afterwards. */
  datatype Walked = Walked(addr: Option<u64>, cache: Cache, calls: nat)

  /** A read attempt numbered k at addr for n bytes succeeds: the oracle
      `flaky` marks the OS calls that fail transiently. */
  predicate AttemptSucceeds(mem: Mem, flaky: nat -> bool, k: nat, addr: nat, n: nat) {
    !flaky(k) && Readable(mem, addr, n)
  }

  /** One step of the walk: the pointer stored at field, from the memo
      table without an OS call, or read with OS call number `calls` and
      memoised; None when that read fails. Result: (pointer, memo table,
      call count) afterwards. */
  function Deref(mem: Mem, flaky: nat -> bool, cache: Cache, calls: nat, field: u64): (d: (Option<u64>, Cache, nat))
    ensures calls <= d.2
  {
    if field in cache then (Some(cache[field]), cache, calls)
    else if AttemptSucceeds(mem, flaky, calls, field, 8) then
      var p := PointerAt(mem, field);
      (Some(p), cache[field := p], calls + 1)
    else (None, cache, calls + 1)
  }

  /** The memoised walk from cur along offsets. Entries already in the table
      are kept as they are; the walk only adds the fields it had to read. */
  function Walk(mem: Mem, flaky: nat -> bool, cache: Cache, calls: nat, cur: u64, offsets: seq<int>): (w: Walked)
    requires |offsets| >= 1
    ensures calls <= w.calls
    decreases |offsets|
  {
    if |offsets| == 1 then Walked(Some(Wrap64(cur + offsets[0])), cache, calls)
    else
      var (next, cache', calls') := Deref(mem, flaky, cache, calls, Wrap64(cur + offsets[0]));
      if next.None? then Walked(None, cache', calls')
      else Walk(mem, flaky, cache', calls', next.value, offsets[1..])
  }

  /** The walk keeps every memoised entry as it is. */
  lemma {:induction false} WalkKeepsCache(mem: Mem, flaky: nat -> bool, cache: Cache, calls: nat, cur: u64, offsets: seq<int>)
    requires |offsets| >= 1
    ensures var w := Walk(mem, flaky, cache, calls, cur, offsets);
            forall f :: f in cache ==> f in w.cache && w.cache[f] == cache[f]
    decreases |offsets|
  {
    if |offsets| > 1 {
      var (next, cache', calls') := Deref(mem, flaky, cache, calls, Wrap64(cur + offsets[0]));
      if next.Some? {
        WalkKeepsCache(mem, flaky, cache', calls', next.value, offsets[1..]);
      }
    }
  }

  /** Every entry the walk adds to the memo table was read from the target
      during the walk, so it holds the pointer the target holds. */
  lemma {:induction false} WalkAddsFreshEntries(mem: Mem, flaky: nat -> bool, cache: Cache, calls: nat, cur: u64, offsets: seq<int>)
    requires |offsets| >= 1
    ensures var w := Walk(mem, flaky, cache, calls, cur, offsets);
            forall f :: f in w.cache && f !in cache ==> Readable(mem, f, 8) && w.cache[f] == PointerAt(mem, f)
    decreases |offsets|
  {
    if |offsets| > 1 {
      var (next, cache', calls') := Deref(mem, flaky, cache, calls, Wrap64(cur + offsets[0]));
      if next.Some? {
        // the entry added by this step is kept, the later ones are fresh
        WalkKeepsCache(mem, flaky, cache', calls', next.value, offsets[1..]);
        WalkAddsFreshEntries(mem, flaky, cache', calls', next.value, offsets[1..]);
        assert forall f :: f in cache' && f !in cache ==> Readable(mem, f, 8) && cache'[f] == PointerAt(mem, f);
      }
    }
  }

  /** One step of the walk along the chain's suffix from index i: follow
      the field, then walk the rest of the chain from the pointer found.
      ComputeOffset's loop takes these steps. */
  lemma WalkStep(mem: Mem, flaky: nat -> bool, cache: Cache, calls: nat, cur: u64, offsets: seq<int>, i: nat)
    requires i < |offsets| - 1
    ensures var d := Deref(mem, flaky, cache, calls, Wrap64(cur + offsets[i]));
            && (d.0.None? ==> Walk(mem, flaky, cache, calls, cur, offsets[i..]) == Walked(None, d.1, d.2))
            && (d.0.Some? ==> Walk(mem, flaky, cache, calls, cur, offsets[i..]) == Walk(mem, flaky, d.1, d.2, d.0.value, offsets[i + 1..]))
  {
    assert offsets[i..][0] == offsets[i] && offsets[i..][1..] == offsets[i + 1..];
  }

  /** The walk's last step adds the last offset without a dereference. */
  lemma WalkLast(mem: Mem, flaky: nat -> bool, cache: Cache, calls: nat, cur: u64, offsets: seq<int>)
    requires |offsets| >= 1
    ensures Walk(mem, flaky, cache, calls, cur, offsets[|offsets| - 1..])
            == Walked(Some(Wrap64(cur + offsets[|offsets| - 1])), cache, calls)
  {
    assert offsets[|offsets| - 1..] == [offsets[|offsets| - 1]];
  }

  /** The reference resolution, without a memo table and without transient
      failures: None when some pointer field on the way is unmapped. */
  function Resolve(mem: Mem, cur: u64, offsets: seq<int>): Option<u64>
    requires |offsets| >= 1
    decreases |offsets|
  {
    if |offsets| == 1 then Some(Wrap64(cur + offsets[0]))
    else
      var field := Wrap64(cur + offsets[0]);
      if Readable(mem, field, 8) then Resolve(mem, PointerAt(mem, field), offsets[1..]) else None
  }

  /** Every memoised pointer still equals what the target holds. */
  predicate Coherent(mem: Mem, cache: Cache) {
    forall f :: f in cache ==> Readable(mem, f, 8) && cache[f] == PointerAt(mem, f)
  }

  /** Resolving a chain a second time, with nothing evicted in between,
      yields the same address, leaves the memo table as it is and makes no
      OS call, whatever the target holds by then. */
  lemma {:induction false} WalkAgainIsAHit(mem: Mem, flaky: nat -> bool, cache: Cache, calls: nat, cur: u64,
                                           offsets: seq<int>, mem2: Mem, flaky2: nat -> bool, calls2: nat)
    requires |offsets| >= 1
    requires Walk(mem, flaky, cache, calls, cur, offsets).addr.Some?
    ensures var w := Walk(mem, flaky, cache, calls, cur, offsets);
            Walk(mem2, flaky2, w.cache, calls2, cur, offsets) == Walked(w.addr, w.cache, calls2)
    decreases |offsets|
  {
    if |offsets| > 1 {
      var (next, cache', calls') := Deref(mem, flaky, cache, calls, Wrap64(cur + offsets[0]));
      WalkKeepsCache(mem, flaky, cache', calls', next.value, offsets[1..]);
      WalkAgainIsAHit(mem, flaky, cache', calls', next.value, offsets[1..], mem2, flaky2, calls2);
    }
  }

  /** With a memo table that agrees with the target, the memoised walk never
      returns a different address from the reference resolution, fails only
      when a transient failure or an unmapped field stops it, and keeps the
      table in agreement. */
  lemma {:induction false} CoherentWalkResolves(mem: Mem, flaky: nat -> bool, cache: Cache, calls: nat, cur: u64,
                                                offsets: seq<int>)
    requires |offsets| >= 1
    requires Coherent(mem, cache)
    ensures var w := Walk(mem, flaky, cache, calls, cur, offsets);
            && (w.addr.Some? ==> w.addr == Resolve(mem, cur, offsets))
            && (Resolve(mem, cur, offsets).None? ==> w.addr.None?)
            && Coherent(mem, w.cache)
    decreases |offsets|
  {
    if |offsets| > 1 {
      var field := Wrap64(cur + offsets[0]);
      if field in cache {
        CoherentWalkResolves(mem, flaky, cache, calls, cache[field], offsets[1..]);
      } else if AttemptSucceeds(mem, flaky, calls, field, 8) {
        var p := PointerAt(mem, field);
        assert Coherent(mem, cache[field := p]);
        CoherentWalkResolves(mem, flaky, cache[field := p], calls + 1, p, offsets[1..]);
      }
    }
  }

  /** Appending one offset to a chain continues the walk at the field the
      shorter chain names: that field is dereferenced (from the table or from
      the target) and the new offset is added. ReadArray and WriteArray rely
      on this: the array chain {..., offset, 0} ends by following the pointer
      field that the panel chain {..., offset} names. */
  lemma {:induction false} WalkExtend(mem: Mem, flaky: nat -> bool, cache: Cache, calls: nat, cur: u64,
                                      offsets: seq<int>, last: int)
    requires |offsets| >= 1
    ensures var w := Walk(mem, flaky, cache, calls, cur, offsets);
            Walk(mem, flaky, cache, calls, cur, offsets + [last])
              == if w.addr.None? then w else Walk(mem, flaky, w.cache, w.calls, w.addr.value, [0, last])
    decreases |offsets|
  {
    var ext := offsets + [last];
    assert ext[0] == offsets[0];
    if |offsets| > 1 {
      assert ext[1..] == offsets[1..] + [last];
      var (next, cache', calls') := Deref(mem, flaky, cache, calls, Wrap64(cur + offsets[0]));
      if next.Some? {
        WalkExtend(mem, flaky, cache', calls', next.value, offsets[1..], last);
      }
    } else {
      assert ext[1..] == [last];
      assert Wrap64(Wrap64(cur + offsets[0]) + 0) == Wrap64(cur + offsets[0]);
    }
  }
}
