/** InputWatchdog: polls the game's keyboard table and interaction state
    through a Memory accessor. Each method is proved against a function of
    the accessor's state (the reads it makes) and the functions of modules
    KeyTracking, Interaction and MouseRayStub (what it computes from them). */
module InputWatchdogs {
  import opened Bytes
  import opened Wrappers
  import opened TargetMemory
  import opened KeyTracking
  import opened Interaction
  import opened MouseRayStub
  import A = Accessor
  import M = RemoteMemory

  /** MULSS xmm2,xmm7; MULSS xmm1,xmm7; MULSS xmm2,xmm0; MULSS xmm1,xmm0:
      the instructions right after get_cursor_delta_from_mouse_or_gamepad
      loads globals.interact_mode. */
  const INTERACT_MODE_SIGNATURE: seq<byte> :=
    [0xF3, 0x0F, 0x59, 0xD7, 0xF3, 0x0F, 0x59, 0xCF, 0xF3, 0x0F, 0x59, 0xD0, 0xF3, 0x0F, 0x59, 0xC8]

  /** MOVSXD rax,ebx; IMUL rcx,rax,0x7C: the entry of draw_floating_symbols. */
  const MENU_OPEN_SIGNATURE: seq<byte> := [0x48, 0x63, 0xC3, 0x48, 0x6B, 0xC8, 0x7C]

  /** The pointer chain to the keyboard table: the renderer, its first field
      (the input devices), the keyboard at 0x90, its table at 0x8. */
  function KeyStateChain(renderer: int): (c: seq<int>)
    ensures |c| == 4
  {
    [renderer, 0x0, 0x90, 0x8]
  }

  /** The key table as int32 values from its little-endian bytes. */
  function KeyTable(data: seq<byte>): (t: seq<int>)
    requires |data| == 4 * KEY_TABLE_SIZE
    ensures |t| == KEY_TABLE_SIZE
    ensures forall k :: 0 <= k < KEY_TABLE_SIZE ==> t[k] == Int32Of(data[4 * k..4 * k + 4])
  {
    seq(KEY_TABLE_SIZE, k requires 0 <= k < KEY_TABLE_SIZE => Int32Of(data[4 * k..4 * k + 4]))
  }

  /** What updateKeyState reads: the key table, or None when the chain
      cannot be resolved (ThrowError) or the read fails; and the accessor's
      state afterwards. */
  function KeySnapshot(cfg: A.Config, st: A.State, renderer: int): (res: (Option<seq<int>>, A.State))
    ensures res.0.Some? ==> |res.0.value| == KEY_TABLE_SIZE
  {
    var (addr, st1) := A.ComputeOffset(cfg, st, KeyStateChain(renderer));
    if addr.None? then (None, st1)
    else
      var (ok, data, st2) := A.ReadAbsolute(cfg, st1, addr.value, 4 * KEY_TABLE_SIZE);
      if ok then (Some(KeyTable(data)), st2) else (None, st2)
  }

  /** The target holds `table` at addr: entry k is the int32 at addr + 4k. */
  ghost predicate HoldsKeyTable(mem: Mem, addr: nat, table: seq<int>) {
    && Readable(mem, addr, 4 * KEY_TABLE_SIZE)
    && |table| == KEY_TABLE_SIZE
    && forall k :: 0 <= k < KEY_TABLE_SIZE ==>
         Readable(mem, addr + 4 * k, 4) && table[k] == Int32Of(Load(mem, addr + 4 * k, 4))
  }

  /** The table decoded from the bytes read at addr is the one the target
      holds there. */
  lemma KeyTableOfLoad(mem: Mem, addr: nat)
    requires Readable(mem, addr, 4 * KEY_TABLE_SIZE)
    ensures HoldsKeyTable(mem, addr, KeyTable(Load(mem, addr, 4 * KEY_TABLE_SIZE)))
  {
    var data := Load(mem, addr, 4 * KEY_TABLE_SIZE);
    forall k | 0 <= k < KEY_TABLE_SIZE
      ensures Readable(mem, addr + 4 * k, 4) && data[4 * k..4 * k + 4] == Load(mem, addr + 4 * k, 4)
    {
    }
  }

  /** A snapshot is the table the target holds at the resolved address, and
      taking one changes only the memo table and the call count. */
  lemma KeySnapshotMeaning(cfg: A.Config, st: A.State, renderer: int)
    ensures var (snapshot, st') := KeySnapshot(cfg, st, renderer);
            && st' == st.(calls := st'.calls, cache := st'.cache)
            && (snapshot.Some? ==>
                  HoldsKeyTable(st.mem, A.ComputeOffset(cfg, st, KeyStateChain(renderer)).0.value, snapshot.value))
  {
    A.ComputeOffsetMeaning(cfg, st, KeyStateChain(renderer));
    var (addr, st1) := A.ComputeOffset(cfg, st, KeyStateChain(renderer));
    if addr.Some? {
      A.ReadAbsoluteMeaning(cfg, st1, addr.value, 4 * KEY_TABLE_SIZE);
      if A.ReadAbsolute(cfg, st1, addr.value, 4 * KEY_TABLE_SIZE).0 {
        KeyTableOfLoad(st.mem, addr.value);
      }
    }
  }

  /** What updateInteractionState reads: the mode (FALLBACK_MODE when its
      offset is unknown or the read fails) and the menu fraction's bits (0,
      that is 0.0f, likewise), and the accessor's state afterwards. */
  function InteractionRead(cfg: A.Config, st: A.State, modeOffset: u64, menuOffset: u64): (res: (int, u32, A.State))
  {
    var (mode, st1) :=
      if modeOffset == 0 then (FALLBACK_MODE, st)
      else
        var (ok, data, s) := A.ReadAbsolute(cfg, st, A.RelativeToAbsolute(cfg, modeOffset), 4);
        (if ok then Int32Of(data) else FALLBACK_MODE, s);
    var (menu, st2) :=
      if menuOffset == 0 then (0, st1)
      else
        var (ok, data, s) := A.ReadAbsolute(cfg, st1, A.RelativeToAbsolute(cfg, menuOffset), 4);
        (if ok then U32Of(data) else 0, s);
    (mode, menu, st2)
  }

  /** updateInteractionState reads only through a known (nonzero) offset,
      each read with its own retries; a read that is not made or fails
      leaves the fallback (mode 2, fraction 0.0f), and a read that succeeds
      gives the target's value. With both values at their fallbacks the
      watchdog reports Walking. */
  lemma InteractionReadMeaning(cfg: A.Config, st: A.State, modeOffset: u64, menuOffset: u64)
    ensures var (mode, menu, st') := InteractionRead(cfg, st, modeOffset, menuOffset);
            var modeAt, menuAt := A.RelativeToAbsolute(cfg, modeOffset), A.RelativeToAbsolute(cfg, menuOffset);
            var st1 := if modeOffset == 0 then st else A.ReadAbsolute(cfg, st, modeAt, 4).2;
            var readsMade := (if modeOffset != 0 then 1 else 0) + (if menuOffset != 0 then 1 else 0);
            && st' == st.(calls := st'.calls)
            && st.calls + readsMade <= st'.calls <= st.calls + readsMade * A.AttemptLimit(cfg.retryOnFail)
            && (modeOffset == 0 ==> mode == FALLBACK_MODE)
            && (modeOffset != 0 && !A.ReadAbsolute(cfg, st, modeAt, 4).0 ==> mode == FALLBACK_MODE)
            && (modeOffset != 0 && A.ReadAbsolute(cfg, st, modeAt, 4).0 ==>
                  Readable(st.mem, modeAt, 4) && mode == Int32Of(Load(st.mem, modeAt, 4)))
            && (menuOffset == 0 ==> menu == 0)
            && (menuOffset != 0 && !A.ReadAbsolute(cfg, st1, menuAt, 4).0 ==> menu == 0)
            && (menuOffset != 0 && A.ReadAbsolute(cfg, st1, menuAt, 4).0 ==>
                  Readable(st.mem, menuAt, 4) && menu == U32Of(Load(st.mem, menuAt, 4)))
            && (mode == FALLBACK_MODE && menu == 0 ==> StateOf(mode, menu) == Walking)
            && -TWO_31 <= mode < TWO_31
  {
    var modeAt := A.RelativeToAbsolute(cfg, modeOffset);
    A.ReadAbsoluteMeaning(cfg, st, modeAt, 4);
    var st1 := if modeOffset == 0 then st else A.ReadAbsolute(cfg, st, modeAt, 4).2;
    A.ReadAbsoluteMeaning(cfg, st1, A.RelativeToAbsolute(cfg, menuOffset), 4);
    FallbackIsWalking();
  }

  /** Both reads succeeding: the state is the one the target's mode and
      fraction give. */
  lemma InteractionReadFromTarget(cfg: A.Config, st: A.State, modeOffset: u64, menuOffset: u64)
    requires modeOffset != 0 && menuOffset != 0
    requires A.ReadAbsolute(cfg, st, A.RelativeToAbsolute(cfg, modeOffset), 4).0
    requires A.ReadAbsolute(cfg, A.ReadAbsolute(cfg, st, A.RelativeToAbsolute(cfg, modeOffset), 4).2,
                            A.RelativeToAbsolute(cfg, menuOffset), 4).0
    ensures var (mode, menu, _) := InteractionRead(cfg, st, modeOffset, menuOffset);
            var modeAt, menuAt := A.RelativeToAbsolute(cfg, modeOffset), A.RelativeToAbsolute(cfg, menuOffset);
            Readable(st.mem, modeAt, 4) && Readable(st.mem, menuAt, 4) &&
            mode == Int32Of(Load(st.mem, modeAt, 4)) && menu == U32Of(Load(st.mem, menuAt, 4))
  {
    var modeAt, menuAt := A.RelativeToAbsolute(cfg, modeOffset), A.RelativeToAbsolute(cfg, menuOffset);
    A.ReadAbsoluteMeaning(cfg, st, modeAt, 4);
    var st1 := A.ReadAbsolute(cfg, st, modeAt, 4).2;
    A.ReadAbsoluteMeaning(cfg, st1, menuAt, 4);
  }

  /** findInteractModeOffset given the scan's result: 0 when the signature
      is missing or the displacement cannot be read, otherwise the
      displacement in the 4 bytes before the hit, applied to the hit. */
  function FoundInteractModeOffset(cfg: A.Config, st: A.State, scan: u64): (res: (u64, A.State))
  {
    if scan == UINT64_MAX then (0, st)
    else
      var (ok, data, st') := A.ReadAbsolute(cfg, st, A.RelativeToAbsolute(cfg, Wrap64(scan as int - 4)), 4);
      (if ok then InteractModeOffsetFrom(scan, data) else 0, st')
  }

  /** findMenuOpenOffset given the scan's result: 0 when the signature is
      missing or the displacement cannot be read, otherwise the displacement
      24 bytes after the hit, applied to the address after it. */
  function FoundMenuOpenOffset(cfg: A.Config, st: A.State, scan: u64): (res: (u64, A.State))
  {
    if scan == UINT64_MAX then (0, st)
    else
      var (ok, data, st') := A.ReadAbsolute(cfg, st, A.RelativeToAbsolute(cfg, MenuDisplacementAt(scan)), 4);
      (if ok then MenuOpenOffsetFrom(scan, data) else 0, st')
  }

  /** When the scan finds the signature and the displacement it reads is
      not negative, the finders produce the RIP-relative operand's target,
      which is where the game's global lives; a missing signature gives 0
      without reading. */
  lemma FindersMeaning(cfg: A.Config, st: A.State, scan: u64)
    ensures scan == UINT64_MAX ==> FoundInteractModeOffset(cfg, st, scan) == (0, st)
    ensures scan == UINT64_MAX ==> FoundMenuOpenOffset(cfg, st, scan) == (0, st)
    ensures var at := A.RelativeToAbsolute(cfg, Wrap64(scan as int - 4));
            scan != UINT64_MAX && A.ReadAbsolute(cfg, st, at, 4).0 && U32Of(Load(st.mem, at, 4)) < TWO_31 ==>
              Readable(st.mem, at, 4) && FoundInteractModeOffset(cfg, st, scan).0 == RipRelative(scan, Load(st.mem, at, 4))
    ensures var at := A.RelativeToAbsolute(cfg, MenuDisplacementAt(scan));
            scan != UINT64_MAX && A.ReadAbsolute(cfg, st, at, 4).0 && U32Of(Load(st.mem, at, 4)) < TWO_31 ==>
              Readable(st.mem, at, 4) &&
              FoundMenuOpenOffset(cfg, st, scan).0 == RipRelative(Wrap64(MenuDisplacementAt(scan) + 4), Load(st.mem, at, 4))
  {
    var at := A.RelativeToAbsolute(cfg, Wrap64(scan as int - 4));
    A.ReadAbsoluteMeaning(cfg, st, at, 4);
    if A.ReadAbsolute(cfg, st, at, 4).0 {
      FindersAreRipRelative(scan, Load(st.mem, at, 4));
    }
    var at' := A.RelativeToAbsolute(cfg, MenuDisplacementAt(scan));
    A.ReadAbsoluteMeaning(cfg, st, at', 4);
    if A.ReadAbsolute(cfg, st, at', 4).0 {
      FindersAreRipRelative(scan, Load(st.mem, at', 4));
    }
  }

  /** Both finders, in the order the constructor runs them, given the two
      scans' results. */
  function FoundOffsets(cfg: A.Config, st: A.State, interactScan: u64, menuScan: u64): (res: (u64, u64, A.State))
  {
    var (interact, st1) := FoundInteractModeOffset(cfg, st, interactScan);
    var (menu, st2) := FoundMenuOpenOffset(cfg, st1, menuScan);
    (interact, menu, st2)
  }

  /** A key table with every key released. */
  function Released(): (t: seq<int>)
    ensures |t| == KEY_TABLE_SIZE && forall k :: 0 <= k < KEY_TABLE_SIZE ==> !IsPressed(t[k])
  {
    seq(KEY_TABLE_SIZE, _ => 0)
  }

  class InputWatchdog {
    const memory: M.Memory
    /** Memory::GAMELIB_RENDERER. */
    const gamelibRenderer: int
    /** Memory::GESTURE_MANAGER. */
    const gestureManager: u64
    /** Found by findCursorRelatedOffsets, which is not part of this model. */
    const cursorToDirectionFunction: u64
    const cursorResultsAllocation: u64

    /** The key table as of the last successful poll. */
    const currentKeyState: array<int>
    var pressTimes: map<nat, int>
    var pendingTapEvents: seq<nat>
    var currentInteractMode: int
    /** The float32 menu_open_t, as its bits. */
    var currentMenuOpenPercent: u32
    var previousInteractionState: InteractionState
    var interactModeOffset: u64
    var menuOpenOffset: u64

    ghost predicate Valid()
      reads this
    {
      currentKeyState.Length == KEY_TABLE_SIZE
    }

    function Tracked(): Tracker
      reads this
    {
      Tracker(pressTimes, pendingTapEvents)
    }

    /** Creating the watchdog locates the two game values; the key table
        starts all released, the mode and fraction at their fallbacks and the
        remembered state at Walking. */
    constructor (mem: M.Memory, renderer: int, gestures: u64, cursorToDirection: u64, resultsAllocation: u64)
      modifies mem`osCalls
      ensures Valid() && fresh(currentKeyState) && currentKeyState[..] == Released()
      ensures (memory, gamelibRenderer, gestureManager) == (mem, renderer, gestures)
      ensures (cursorToDirectionFunction, cursorResultsAllocation) == (cursorToDirection, resultsAllocation)
      ensures Tracked() == Tracker(map[], [])
      ensures (currentInteractMode, currentMenuOpenPercent, previousInteractionState) == (FALLBACK_MODE, 0, Walking)
      ensures (interactModeOffset, menuOpenOffset, mem.State()) ==
              FoundOffsets(mem.Cfg(), old(mem.State()), mem.ExecuteSigScan(INTERACT_MODE_SIGNATURE, None, mem.baseAddress),
                           mem.ExecuteSigScan(MENU_OPEN_SIGNATURE, None, mem.baseAddress))
    {
      memory := mem;
      gamelibRenderer, gestureManager := renderer, gestures;
      cursorToDirectionFunction, cursorResultsAllocation := cursorToDirection, resultsAllocation;
      currentKeyState := new int[KEY_TABLE_SIZE](_ => 0);
      pressTimes, pendingTapEvents := map[], [];
      currentInteractMode, currentMenuOpenPercent := FALLBACK_MODE, 0;
      previousInteractionState := Walking;
      interactModeOffset, menuOpenOffset := 0, 0;
      new;
      assert currentKeyState[..] == Released();
      LocateOffsets();
    }

    /** The constructor's calls to findInteractModeOffset and
        findMenuOpenOffset. */
    method LocateOffsets()
      modifies this`interactModeOffset, this`menuOpenOffset, memory`osCalls
      ensures (interactModeOffset, menuOpenOffset, memory.State()) ==
              FoundOffsets(memory.Cfg(), old(memory.State()), memory.ExecuteSigScan(INTERACT_MODE_SIGNATURE, None, memory.baseAddress),
                           memory.ExecuteSigScan(MENU_OPEN_SIGNATURE, None, memory.baseAddress))
    {
      FindInteractModeOffset();
      FindMenuOpenOffset();
    }

    /** getButtonState: whether the key's value is nonzero. */
    function ButtonState(key: nat): (pressed: bool)
      requires Valid() && key < KEY_TABLE_SIZE
      reads this, currentKeyState
      ensures pressed <==> IsPressed(currentKeyState[key])
    {
      currentKeyState[key] != 0
    }

    /** getInteractionState. */
    function GetInteractionState(): (s: InteractionState)
      reads this
      ensures s == StateOf(currentInteractMode, currentMenuOpenPercent)
    {
      StateOf(currentInteractMode, currentMenuOpenPercent)
    }

    /** updateKeyState: poll the key table; when the poll succeeds, run the
        diff against the kept table (recording press times and taps) and
        keep the new table. */
    method UpdateKeyState(now: int)
      requires Valid()
      modifies this`pressTimes, this`pendingTapEvents, currentKeyState, memory`computedAddresses, memory`osCalls
      ensures Valid()
      ensures var (snapshot, st) := KeySnapshot(memory.Cfg(), old(memory.State()), gamelibRenderer);
              && memory.State() == st
              && (currentKeyState[..], Tracked()) == UpdateKeys(old(currentKeyState[..]), snapshot, old(Tracked()), now)
    {
      var snapshot := ReadKeyState();
      if snapshot.None? {
        return;
      }
      DiffKeys(snapshot.value, now);
      SaveKeys(snapshot.value);
    }

    /** The first half of updateKeyState: resolve the table's address and
        read it. */
    method ReadKeyState() returns (snapshot: Option<seq<int>>)
      modifies memory`computedAddresses, memory`osCalls
      ensures (snapshot, memory.State()) == KeySnapshot(memory.Cfg(), old(memory.State()), gamelibRenderer)
    {
      var addr := memory.ComputeOffset(KeyStateChain(gamelibRenderer));
      if addr.None? {
        return None;
      }
      ghost var st1 := memory.State();
      var ok, data := memory.ReadAbsolute(addr.value, 4 * KEY_TABLE_SIZE);
      A.ReadAbsoluteMeaning(memory.Cfg(), st1, addr.value, 4 * KEY_TABLE_SIZE);
      if !ok {
        return None;
      }
      return Some(KeyTable(data));
    }

    /** updateKeyState's loop over keys 1 .. 0x1FF. */
    method DiffKeys(newKeyState: seq<int>, now: int)
      requires Valid() && |newKeyState| == KEY_TABLE_SIZE
      modifies this`pressTimes, this`pendingTapEvents
      ensures Tracked() == Diff(currentKeyState[..], newKeyState, old(Tracked()), now, KEY_TABLE_SIZE)
    {
      ghost var prev := currentKeyState[..];
      ghost var t0 := Tracked();
      var keyIndex: nat := 1;
      while keyIndex < KEY_TABLE_SIZE
        invariant 1 <= keyIndex <= KEY_TABLE_SIZE
        invariant Tracked() == Diff(prev, newKeyState, t0, now, keyIndex)
      {
        ghost var before := Tracked();
        var wasPressed := currentKeyState[keyIndex] != 0;
        var isPressed := newKeyState[keyIndex] != 0;
        if !wasPressed && isPressed {
          pressTimes := pressTimes[keyIndex := now];
        } else if wasPressed && !isPressed {
          if keyIndex in pressTimes {
            var holdDuration := now - pressTimes[keyIndex];
            if holdDuration <= TAP_MILLIS {
              pendingTapEvents := pendingTapEvents + [keyIndex];
            }
            pressTimes := pressTimes - {keyIndex};
          }
        }
        assert Tracked() == KeyStep(before, keyIndex, prev[keyIndex], newKeyState[keyIndex], now);
        DiffNext(prev, newKeyState, t0, now, keyIndex);
        keyIndex := keyIndex + 1;
      }
    }

    /** updateKeyState's final copy of the new table. */
    method SaveKeys(newKeyState: seq<int>)
      requires Valid() && |newKeyState| == KEY_TABLE_SIZE
      modifies currentKeyState
      ensures currentKeyState[..] == newKeyState
    {
      var i := 0;
      while i < KEY_TABLE_SIZE
        invariant 0 <= i <= KEY_TABLE_SIZE
        invariant forall k :: 0 <= k < i ==> currentKeyState[k] == newKeyState[k]
      {
        currentKeyState[i] := newKeyState[i];
        i := i + 1;
      }
    }

    /** updateInteractionState: read the mode and the menu fraction, falling
        back to 2 and 0.0f for each value whose offset is unknown or whose
        read fails. */
    method UpdateInteractionState()
      modifies this`currentInteractMode, this`currentMenuOpenPercent, memory`osCalls
      ensures (currentInteractMode, currentMenuOpenPercent, memory.State()) ==
              InteractionRead(memory.Cfg(), old(memory.State()), interactModeOffset, menuOpenOffset)
    {
      var ok, data := false, [];
      if interactModeOffset != 0 {
        ok, data := memory.ReadRelative(interactModeOffset, 4);
      }
      currentInteractMode := if ok then Int32Of(data) else FALLBACK_MODE;
      ok := false;
      if menuOpenOffset != 0 {
        ok, data := memory.ReadRelative(menuOpenOffset, 4);
      }
      currentMenuOpenPercent := if ok then U32Of(data) else 0;
    }

    /** consumeTapEvents: hand over the pending taps and clear them. */
    method ConsumeTapEvents() returns (events: seq<nat>)
      modifies this`pendingTapEvents
      ensures events == old(pendingTapEvents) && pendingTapEvents == []
    {
      events := pendingTapEvents;
      pendingTapEvents := [];
    }

    /** consumeInteractionStateChange as it is meant to work: report whether
        the state changed since the last call that reported, and remember the
        new state. */
    method ConsumeInteractionStateChange() returns (changed: bool)
      modifies this`previousInteractionState
      ensures (changed, previousInteractionState) == StateChange(old(previousInteractionState), GetInteractionState())
    {
      var current := GetInteractionState();
      if current != previousInteractionState {
        previousInteractionState := current;
        return true;
      } else {
        return false;
      }
    }

    /** consumeInteractionStateChange as written: the remembered state is
        compared, not assigned, so it never changes. */
    method ConsumeInteractionStateChangeAsWritten() returns (changed: bool)
      ensures (changed, previousInteractionState) == StateChangeAsWritten(previousInteractionState, GetInteractionState())
    {
      var current := GetInteractionState();
      if current != previousInteractionState {
        return true;
      } else {
        return false;
      }
    }

    /** findInteractModeOffset. */
    method FindInteractModeOffset()
      modifies this`interactModeOffset, memory`osCalls
      ensures (interactModeOffset, memory.State()) ==
              FoundInteractModeOffset(memory.Cfg(), old(memory.State()),
                                      old(memory.ExecuteSigScan(INTERACT_MODE_SIGNATURE, None, memory.baseAddress)))
    {
      var scan := memory.ExecuteSigScan(INTERACT_MODE_SIGNATURE, None, memory.baseAddress);
      ApplyInteractModeDisplacement(scan);
    }

    /** The rest of findInteractModeOffset, once the scan returned `scan`. */
    method ApplyInteractModeDisplacement(scan: u64)
      modifies this`interactModeOffset, memory`osCalls
      ensures (interactModeOffset, memory.State()) == FoundInteractModeOffset(memory.Cfg(), old(memory.State()), scan)
    {
      if scan == UINT64_MAX {
        interactModeOffset := 0;
        return;
      }
      interactModeOffset := 0;
      var ok, data := memory.ReadRelative(Wrap64(scan as int - 4), 4);
      if ok {
        interactModeOffset := InteractModeOffsetFrom(scan, data);
      } else {
        interactModeOffset := 0;
      }
    }

    /** findMenuOpenOffset. */
    method FindMenuOpenOffset()
      modifies this`menuOpenOffset, memory`osCalls
      ensures (menuOpenOffset, memory.State()) ==
              FoundMenuOpenOffset(memory.Cfg(), old(memory.State()),
                                  old(memory.ExecuteSigScan(MENU_OPEN_SIGNATURE, None, memory.baseAddress)))
    {
      var scan := memory.ExecuteSigScan(MENU_OPEN_SIGNATURE, None, memory.baseAddress);
      ApplyMenuOpenDisplacement(scan);
    }

    /** The rest of findMenuOpenOffset, once the scan returned `scan`. */
    method ApplyMenuOpenDisplacement(scan: u64)
      modifies this`menuOpenOffset, memory`osCalls
      ensures (menuOpenOffset, memory.State()) == FoundMenuOpenOffset(memory.Cfg(), old(memory.State()), scan)
    {
      if scan == UINT64_MAX {
        menuOpenOffset := 0;
        return;
      }
      var displacementAt := MenuDisplacementAt(scan);
      menuOpenOffset := 0;
      var ok, data := memory.ReadRelative(displacementAt, 4);
      if ok {
        menuOpenOffset := MenuOpenOffsetFrom(scan, data);
      } else {
        menuOpenOffset := 0;
      }
    }

    /** The part of getMouseRay that builds the stub: read the gesture
        manager pointer, derive mouseFloats, patch the template. */
    method BuildMouseRayStub() returns (stub: array<byte>)
      modifies memory`osCalls
      ensures fresh(stub)
      ensures var (ok, data, st) := A.ReadAbsolute(memory.Cfg(), old(memory.State()), gestureManager, 8);
              && memory.State() == st
              && stub[..] == Stub(cursorToDirectionFunction, MouseFloats(if ok then Some(data) else None), cursorResultsAllocation)
    {
      A.ReadAbsoluteMeaning(memory.Cfg(), memory.State(), gestureManager, 8);
      var ok, data := memory.ReadAbsolute(gestureManager, 8);
      var mouseFloats := MouseFloats(if ok then Some(data) else None);
      stub := BuildStub(cursorToDirectionFunction, mouseFloats, cursorResultsAllocation);
    }
  }
}
