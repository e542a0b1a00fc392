/** The per-tick key diff of InputWatchdog::updateKeyState, as functions.
    The watchdog compares the key table it read this tick with the one it
    kept from the last tick, key by key from index 1; only whether a value is
    zero matters. A key that goes from zero to nonzero has its press time
    recorded; a key that goes from nonzero to zero and has a press time is a
    tap when it was held at most KEY_TAP_DURATION, and loses its press time
    either way. Time is in integer milliseconds. */
module KeyTracking {
  import opened Wrappers

  /** INPUT_KEYSTATE_SIZE: the table holds 0x200 int32 entries. */
  const KEY_TABLE_SIZE: nat := 0x200

  /** KEY_TAP_DURATION, 0.4 seconds, in milliseconds. */
  const TAP_MILLIS: int := 400

  /** A raw key value means "pressed" iff it is nonzero (the game writes 3
      on the frame of a press and 5 on the frame of a release). */
  predicate IsPressed(v: int) {
    v != 0
  }

  /** What the diff keeps between ticks besides the table: pressTimes and
      pendingTapEvents. */
  datatype Tracker = Tracker(pressTimes: map<nat, int>, pending: seq<nat>)

  /** Key k goes from zero to nonzero. */
  predicate Rises(prev: seq<int>, next: seq<int>, k: nat)
    requires k < |prev| && k < |next|
  {
    !IsPressed(prev[k]) && IsPressed(next[k])
  }

  /** Key k goes from nonzero to zero. */
  predicate Falls(prev: seq<int>, next: seq<int>, k: nat)
    requires k < |prev| && k < |next|
  {
    IsPressed(prev[k]) && !IsPressed(next[k])
  }

  /** The diff's step for key k. */
  function KeyStep(t: Tracker, k: nat, was: int, isNow: int, now: int): Tracker {
    if !IsPressed(was) && IsPressed(isNow) then
      t.(pressTimes := t.pressTimes[k := now])
    else if IsPressed(was) && !IsPressed(isNow) && k in t.pressTimes then
      var tapped := now - t.pressTimes[k] <= TAP_MILLIS;
      Tracker(t.pressTimes - {k}, if tapped then t.pending + [k] else t.pending)
    else t
  }

  /** The diff over keys 1 .. n-1, in increasing key order. */
  function Diff(prev: seq<int>, next: seq<int>, t: Tracker, now: int, n: nat): Tracker
    requires n <= |prev| && n <= |next|
  {
    if n <= 1 then t
    else KeyStep(Diff(prev, next, t, now, n - 1), n - 1, prev[n - 1], next[n - 1], now)
  }

  /** The diff over one more key is one more step. */
  lemma DiffNext(prev: seq<int>, next: seq<int>, t: Tracker, now: int, n: nat)
    requires 1 <= n < |prev| && n < |next|
    ensures Diff(prev, next, t, now, n + 1) == KeyStep(Diff(prev, next, t, now, n), n, prev[n], next[n], now)
  {
  }

  /** A key that the diff reports as a tap: it was released this tick, had
      a press time before the tick, and was held at most TAP_MILLIS. */
  predicate IsTap(prev: seq<int>, next: seq<int>, pressTimes: map<nat, int>, now: int, k: nat)
    requires k < |prev| && k < |next|
  {
    Falls(prev, next, k) && k in pressTimes && now - pressTimes[k] <= TAP_MILLIS
  }

  /** The taps among keys 1 .. n-1, in increasing key order. */
  function Taps(prev: seq<int>, next: seq<int>, pressTimes: map<nat, int>, now: int, n: nat): (taps: seq<nat>)
    requires n <= |prev| && n <= |next|
    ensures forall i :: 0 <= i < |taps| ==> 1 <= taps[i] < n && IsTap(prev, next, pressTimes, now, taps[i])
    ensures forall k :: 1 <= k < n && IsTap(prev, next, pressTimes, now, k) ==> k in taps
    ensures forall i, j :: 0 <= i < j < |taps| ==> taps[i] < taps[j]
  {
    if n <= 1 then []
    else Taps(prev, next, pressTimes, now, n - 1) + (if IsTap(prev, next, pressTimes, now, n - 1) then [n - 1] else [])
  }

  /** The press-time table after the diff over keys 1 .. n-1: a rising key
      has the current time, a falling key none, every other key keeps the
      entry it had. */
  ghost predicate PressTimesAfter(prev: seq<int>, next: seq<int>, before: map<nat, int>, now: int, n: nat, after: map<nat, int>)
    requires n <= |prev| && n <= |next|
  {
    forall k: nat ::
      if 1 <= k < n && Rises(prev, next, k) then k in after && after[k] == now
      else if 1 <= k < n && Falls(prev, next, k) then k !in after
      else (k in after <==> k in before) && (k in before ==> after[k] == before[k])
  }

  /** The diff handles each key on its own: afterwards a key that rose has
      the current time, one that fell has no press time, and every other
      key keeps the entry it had. */
  lemma {:induction false} DiffPressTimes(prev: seq<int>, next: seq<int>, t: Tracker, now: int, n: nat)
    requires n <= |prev| && n <= |next|
    ensures PressTimesAfter(prev, next, t.pressTimes, now, n, Diff(prev, next, t, now, n).pressTimes)
  {
    if n > 1 {
      DiffPressTimes(prev, next, t, now, n - 1);
    }
  }

  /** The tick appends exactly the taps, in increasing key order, to what
      was pending. */
  lemma {:induction false} DiffPending(prev: seq<int>, next: seq<int>, t: Tracker, now: int, n: nat)
    requires n <= |prev| && n <= |next|
    ensures Diff(prev, next, t, now, n).pending == t.pending + Taps(prev, next, t.pressTimes, now, n)
  {
    if n > 1 {
      DiffPending(prev, next, t, now, n - 1);
      DiffPressTimes(prev, next, t, now, n - 1);
      var d := Diff(prev, next, t, now, n - 1);
      var k := n - 1;
      // key k has not been touched by the steps for the keys below it
      assert (k in d.pressTimes <==> k in t.pressTimes) && (k in t.pressTimes ==> d.pressTimes[k] == t.pressTimes[k]);
    }
  }

  /** Only whether each value is zero matters: two pairs of tables that
      agree on that for keys 1 .. n-1 give the same diff, whatever else they
      hold (3 and 5 behave as any other nonzero value), and key 0 is never
      looked at. */
  lemma {:induction false} DiffSeesOnlyZeroness(prev: seq<int>, next: seq<int>, prev': seq<int>, next': seq<int>, t: Tracker, now: int, n: nat)
    requires n <= |prev| && n <= |next| && n <= |prev'| && n <= |next'|
    requires forall k :: 1 <= k < n ==> IsPressed(prev[k]) == IsPressed(prev'[k]) && IsPressed(next[k]) == IsPressed(next'[k])
    ensures Diff(prev, next, t, now, n) == Diff(prev', next', t, now, n)
  {
    if n > 1 {
      DiffSeesOnlyZeroness(prev, next, prev', next', t, now, n - 1);
    }
  }

  /** One tick of updateKeyState given the table the read produced (None
      when the address or the read failed): a failed read changes nothing,
      a successful one runs the diff and then keeps the new table. */
  function UpdateKeys(prev: seq<int>, snapshot: Option<seq<int>>, t: Tracker, now: int): (r: (seq<int>, Tracker))
    requires |prev| == KEY_TABLE_SIZE
    requires snapshot.Some? ==> |snapshot.value| == KEY_TABLE_SIZE
    ensures snapshot.None? ==> r == (prev, t)
    ensures snapshot.Some? ==> r.0 == snapshot.value
  {
    match snapshot
    case None => (prev, t)
    case Some(next) => (next, Diff(prev, next, t, now, KEY_TABLE_SIZE))
  }

  /** One tick: a failed poll changes nothing; after a successful one the
      watchdog keeps the new table, the pending list grows by exactly the
      taps, in increasing key order, and the press times change key by key
      as PressTimesAfter says. */
  lemma UpdateKeysMeaning(prev: seq<int>, snapshot: Option<seq<int>>, t: Tracker, now: int)
    requires |prev| == KEY_TABLE_SIZE
    requires snapshot.Some? ==> |snapshot.value| == KEY_TABLE_SIZE
    ensures var (table, t') := UpdateKeys(prev, snapshot, t, now);
            && (snapshot.None? ==> table == prev && t' == t)
            && (snapshot.Some? ==>
                  && table == snapshot.value
                  && t'.pending == t.pending + Taps(prev, snapshot.value, t.pressTimes, now, KEY_TABLE_SIZE)
                  && PressTimesAfter(prev, snapshot.value, t.pressTimes, now, KEY_TABLE_SIZE, t'.pressTimes))
  {
    if snapshot.Some? {
      DiffPending(prev, snapshot.value, t, now, KEY_TABLE_SIZE);
      DiffPressTimes(prev, snapshot.value, t, now, KEY_TABLE_SIZE);
    }
  }
}
