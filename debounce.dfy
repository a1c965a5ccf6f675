/** The debounce-and-select state machine shared by both speed-selector drafts,
    stated on values.

    A tick walks the channels in index order. Each channel's counter takes one
    step: up when its input is asserted (the pin reads LOW), down otherwise,
    then clamped to [0, MaxCount]. Whenever a counter, after its step, equals the
    policy's trigger value, the resolved speed is overwritten with that
    channel's table entry, so the highest-index channel at the trigger value
    decides the tick, and when no channel is at it the speed is kept.

    The two drafts differ only in the trigger value: MaxCount for the
    select-on-saturate draft, 0 for the select-on-release draft. */
module Debounce {

  /** Number of selector inputs (and of table entries). */
  const NumberOfSpeeds: nat := 6

  /** Saturation bound of each debounce counter. */
  const MaxCount: int := 1000

  /** Which counter value makes a channel select its speed. */
  datatype Policy = SelectOnSaturate | SelectOnRelease

  function Trigger(p: Policy): (t: int)
    ensures p.SelectOnSaturate? <==> t == MaxCount
    ensures p.SelectOnRelease? <==> t == 0
  {
    match p
    case SelectOnSaturate => MaxCount
    case SelectOnRelease => 0
  }

  /** The selector's whole state: one counter per channel and the resolved speed. */
  datatype Snapshot = Snapshot(counts: seq<int>, speed: int)

  predicate InRange(count: int) {
    0 <= count <= MaxCount
  }

  predicate AllInRange(counts: seq<int>) {
    forall i :: 0 <= i < |counts| ==> InRange(counts[i])
  }

  /** One channel's counter after one tick: a unit step toward MaxCount when
      asserted, toward 0 when not, clamped at both ends. */
  function Step(count: int, asserted: bool): (r: int)
    ensures InRange(r)
    ensures InRange(count) && asserted ==> r == count + 1 || r == count == MaxCount
    ensures InRange(count) && !asserted ==> r == count - 1 || r == count == 0
  {
    var moved := count + (if asserted then 1 else -1);
    if moved < 0 then 0
    else if moved > MaxCount then MaxCount
    else moved
  }

  /** Every channel's counter after one tick: each channel takes exactly its own step. */
  function StepAll(counts: seq<int>, asserted: seq<bool>): (r: seq<int>)
    requires |counts| == |asserted|
    ensures |r| == |counts|
    ensures forall i :: 0 <= i < |r| ==> r[i] == Step(counts[i], asserted[i])
    ensures AllInRange(r)
  {
    if counts == [] then []
    else [Step(counts[0], asserted[0])] + StepAll(counts[1..], asserted[1..])
  }

  /** `j` is the highest channel whose counter equals `trigger`. */
  predicate IsLastTriggered(counts: seq<int>, trigger: int, j: int) {
    0 <= j < |counts| && counts[j] == trigger &&
    forall k :: j < k < |counts| ==> counts[k] != trigger
  }

  /** No channel's counter equals `trigger`. */
  predicate NoneTriggered(counts: seq<int>, trigger: int) {
    forall k :: 0 <= k < |counts| ==> counts[k] != trigger
  }

  /** The speed left behind by walking `counts` in index order, starting from
      `current` and overwriting it with `table[i]` whenever `counts[i] == trigger`. */
  function ResolvedSpeed(counts: seq<int>, table: seq<int>, trigger: int, current: int): (r: int)
    requires |counts| <= |table|
    ensures NoneTriggered(counts, trigger) ==> r == current
    ensures forall j :: IsLastTriggered(counts, trigger, j) ==> r == table[j]
    decreases |counts|
  {
    if counts == [] then current
    else if counts[|counts| - 1] == trigger then table[|counts| - 1]
    else ResolvedSpeed(counts[..|counts| - 1], table, trigger, current)
  }

  /** One call of the update routine: every counter takes its step, then the
      highest channel at the trigger value selects its speed, or the speed is kept. */
  function Tick(p: Policy, table: seq<int>, st: Snapshot, asserted: seq<bool>): (r: Snapshot)
    requires |st.counts| == |asserted| <= |table|
    ensures |r.counts| == |st.counts| && AllInRange(r.counts)
    ensures forall i :: 0 <= i < |r.counts| ==> r.counts[i] == Step(st.counts[i], asserted[i])
    ensures NoneTriggered(r.counts, Trigger(p)) ==> r.speed == st.speed
    ensures forall j :: IsLastTriggered(r.counts, Trigger(p), j) ==> r.speed == table[j]
  {
    var counts := StepAll(st.counts, asserted);
    Snapshot(counts, ResolvedSpeed(counts, table, Trigger(p), st.speed))
  }

  /** A trace of ticks whose every reading covers `n` channels. */
  predicate WellFormedTrace(trace: seq<seq<bool>>, n: nat) {
    forall t :: 0 <= t < |trace| ==> |trace[t]| == n
  }

  /** The state after calling the update routine once per reading of `trace`;
      the counters persist from one call to the next. After at least one call
      every counter is in range, wherever it started. */
  function Run(p: Policy, table: seq<int>, st: Snapshot, trace: seq<seq<bool>>): (r: Snapshot)
    requires |st.counts| == |table|
    requires WellFormedTrace(trace, |table|)
    ensures |r.counts| == |table|
    ensures |trace| > 0 ==> AllInRange(r.counts)
    decreases |trace|
  {
    if trace == [] then st
    else Run(p, table, Tick(p, table, st, trace[0]), trace[1..])
  }

  // ---------------------------------------------------------------------------
  // Selection

  /** Some channel is the last one at the trigger value unless none is. */
  lemma {:induction false} LastTriggeredExists(counts: seq<int>, trigger: int)
    requires !NoneTriggered(counts, trigger)
    ensures exists j :: IsLastTriggered(counts, trigger, j)
    decreases |counts|
  {
    var n := |counts|;
    if counts[n - 1] == trigger {
      assert IsLastTriggered(counts, trigger, n - 1);
    } else {
      var front := counts[..n - 1];
      assert !NoneTriggered(front, trigger) by {
        var k :| 0 <= k < n && counts[k] == trigger;
        assert front[k] == trigger;
      }
      LastTriggeredExists(front, trigger);
      var j :| IsLastTriggered(front, trigger, j);
      assert IsLastTriggered(counts, trigger, j);
    }
  }

  /** After a tick the speed is either unchanged, with no channel at the trigger
      value, or the table entry of the highest channel at the trigger value. */
  lemma TickSelects(p: Policy, table: seq<int>, st: Snapshot, asserted: seq<bool>)
    requires |st.counts| == |asserted| <= |table|
    ensures var next := Tick(p, table, st, asserted);
      (NoneTriggered(next.counts, Trigger(p)) && next.speed == st.speed) ||
      (exists j :: IsLastTriggered(next.counts, Trigger(p), j) && next.speed == table[j])
  {
    var next := Tick(p, table, st, asserted);
    if !NoneTriggered(next.counts, Trigger(p)) {
      LastTriggeredExists(next.counts, Trigger(p));
    }
  }

  /** The resolved speed is always the starting speed or an entry of the table. */
  lemma ResolvedSpeedInTable(counts: seq<int>, table: seq<int>, trigger: int, current: int)
    requires |counts| <= |table|
    ensures var r := ResolvedSpeed(counts, table, trigger, current); r == current || r in table
  {
    if !NoneTriggered(counts, trigger) {
      LastTriggeredExists(counts, trigger);
    }
  }

  /** A speed drawn from the table stays in the table over any number of ticks. */
  lemma {:induction false} RunSpeedInTable(p: Policy, table: seq<int>, st: Snapshot, trace: seq<seq<bool>>)
    requires |st.counts| == |table| && WellFormedTrace(trace, |table|)
    requires st.speed in table
    ensures Run(p, table, st, trace).speed in table
    decreases |trace|
  {
    if trace != [] {
      var next := Tick(p, table, st, trace[0]);
      ResolvedSpeedInTable(next.counts, table, Trigger(p), st.speed);
      RunSpeedInTable(p, table, next, trace[1..]);
    }
  }

  /** A saturated channel that is still asserted stays saturated and
      re-selects its speed on every tick, overriding whatever was selected
      before, as long as no higher channel's counter lands on MaxCount too. */
  lemma HeldChannelReasserts(table: seq<int>, st: Snapshot, asserted: seq<bool>, j: int)
    requires |st.counts| == |asserted| <= |table|
    requires 0 <= j < |asserted| && st.counts[j] == MaxCount && asserted[j]
    requires forall k :: j < k < |asserted| ==> Step(st.counts[k], asserted[k]) != MaxCount
    ensures Tick(SelectOnSaturate, table, st, asserted).counts[j] == MaxCount
    ensures Tick(SelectOnSaturate, table, st, asserted).speed == table[j]
  {
    var counts := StepAll(st.counts, asserted);
    assert IsLastTriggered(counts, MaxCount, j);
  }

  // ---------------------------------------------------------------------------
  // Counter bounds and debounce latency

  /** Counters that start in range stay in range over any number of ticks. */
  lemma {:induction false} RunKeepsRange(p: Policy, table: seq<int>, st: Snapshot, trace: seq<seq<bool>>)
    requires |st.counts| == |table| && WellFormedTrace(trace, |table|)
    requires AllInRange(st.counts)
    ensures AllInRange(Run(p, table, st, trace).counts)
    decreases |trace|
  {
    if trace != [] {
      RunKeepsRange(p, table, Tick(p, table, st, trace[0]), trace[1..]);
    }
  }

  /** A counter moves by at most one per tick, so after `|trace|` ticks it is
      within `|trace|` of where it started. */
  lemma {:induction false} RunCounterDrift(p: Policy, table: seq<int>, st: Snapshot, trace: seq<seq<bool>>, j: int)
    requires |st.counts| == |table| && WellFormedTrace(trace, |table|)
    requires 0 <= j < |table| && InRange(st.counts[j])
    ensures st.counts[j] - |trace| <= Run(p, table, st, trace).counts[j] <= st.counts[j] + |trace|
    decreases |trace|
  {
    if trace != [] {
      var next := Tick(p, table, st, trace[0]);
      RunCounterDrift(p, table, next, trace[1..], j);
    }
  }

  /** The last call of a run: running `front + [last]` is running `front`,
      then one more tick on `last`. */
  lemma {:induction false} RunSnoc(p: Policy, table: seq<int>, st: Snapshot, front: seq<seq<bool>>, last: seq<bool>)
    requires |st.counts| == |table| && WellFormedTrace(front, |table|) && |last| == |table|
    ensures WellFormedTrace(front + [last], |table|)
    ensures Run(p, table, st, front + [last]) == Tick(p, table, Run(p, table, st, front), last)
    decreases |front|
  {
    var trace := front + [last];
    assert WellFormedTrace(trace, |table|) by {
      forall t | 0 <= t < |trace| ensures |trace[t]| == |table| {
        if t < |front| { assert trace[t] == front[t]; }
      }
    }
    if front == [] {
      assert trace[1..] == [];
    } else {
      var next := Tick(p, table, st, front[0]);
      assert trace[0] == front[0];
      assert trace[1..] == front[1..] + [last];
      RunSnoc(p, table, next, front[1..], last);
    }
  }

  /** A counter depends only on its own channel's readings: a channel asserted
      in every reading of the trace counts up to min(start + ticks, MaxCount),
      whatever the other channels read. */
  lemma {:induction false} HeldCounter(p: Policy, table: seq<int>, st: Snapshot, trace: seq<seq<bool>>, j: int)
    requires |st.counts| == |table| && WellFormedTrace(trace, |table|)
    requires 0 <= j < |table| && InRange(st.counts[j])
    requires forall t :: 0 <= t < |trace| ==> trace[t][j]
    ensures Run(p, table, st, trace).counts[j] == Min(st.counts[j] + |trace|, MaxCount)
    decreases |trace|
  {
    if trace != [] {
      var next := Tick(p, table, st, trace[0]);
      assert next.counts[j] == Min(st.counts[j] + 1, MaxCount);
      HeldCounter(p, table, next, trace[1..], j);
    }
  }

  /** Debounce latency, second half: a channel asserted in every reading long
      enough to reach MaxCount has saturated, and at the end of the trace its
      speed is selected unless a higher channel is saturated too, whatever
      the other channels read. */
  lemma HeldSelects(table: seq<int>, st: Snapshot, trace: seq<seq<bool>>, j: int)
    requires |st.counts| == |table| && WellFormedTrace(trace, |table|)
    requires 0 <= j < |table| && InRange(st.counts[j])
    requires forall t :: 0 <= t < |trace| ==> trace[t][j]
    requires |trace| > 0 && st.counts[j] + |trace| >= MaxCount
    requires forall k :: j < k < |table| ==> Run(SelectOnSaturate, table, st, trace).counts[k] != MaxCount
    ensures Run(SelectOnSaturate, table, st, trace).counts[j] == MaxCount
    ensures Run(SelectOnSaturate, table, st, trace).speed == table[j]
  {
    HeldCounter(SelectOnSaturate, table, st, trace, j);
    var n := |trace|;
    var front, reading := trace[..n - 1], trace[n - 1];
    assert WellFormedTrace(front, |table|) by {
      forall t | 0 <= t < |front| ensures |front[t]| == |table| {
        assert front[t] == trace[t];
      }
    }
    assert trace == front + [reading];
    RunSnoc(SelectOnSaturate, table, st, front, reading);
    var before := Run(SelectOnSaturate, table, st, front);
    var last := Run(SelectOnSaturate, table, st, trace);
    assert IsLastTriggered(last.counts, MaxCount, j);
  }

  /** Debounce latency, first half: a channel whose counter starts at 0 cannot
      be at the saturation bound, and so cannot be the channel that selects the
      speed, before MaxCount ticks have passed, whatever the inputs. */
  lemma NoSaturationBeforeMaxCount(p: Policy, table: seq<int>, st: Snapshot, trace: seq<seq<bool>>, j: int)
    requires |st.counts| == |table| && WellFormedTrace(trace, |table|)
    requires 0 <= j < |table| && st.counts[j] == 0
    requires |trace| < MaxCount
    ensures Run(p, table, st, trace).counts[j] < MaxCount
    ensures !IsLastTriggered(Run(p, table, st, trace).counts, MaxCount, j)
  {
    RunCounterDrift(p, table, st, trace, j);
  }

  /** The reading in which only channel `j` of `n` is asserted. */
  function Only(n: nat, j: int): (r: seq<bool>)
    ensures |r| == n
  {
    seq(n, i => i == j)
  }

  /** `k` consecutive ticks in which only channel `j` of `n` is asserted. */
  function Hold(n: nat, j: int, k: nat): (r: seq<seq<bool>>)
    ensures |r| == k && WellFormedTrace(r, n)
  {
    seq(k, _ => Only(n, j))
  }

  /** The counters of `n` channels that are all 0 except channel `j`, at `c`. */
  function Column(n: nat, j: int, c: int): (r: seq<int>)
    ensures |r| == n
  {
    seq(n, i => if i == j then c else 0)
  }

  /** The counters of `n` channels at power-up: all 0. */
  function Zeros(n: nat): (r: seq<int>)
    ensures |r| == n && AllInRange(r)
  {
    seq(n, _ => 0)
  }

  function Min(a: int, b: int): (r: int) {
    if a <= b then a else b
  }

  /** One tick of holding channel `j` alone, from the state where only it has counted. */
  lemma HoldOneTick(table: seq<int>, j: int, c: int, speed: int)
    requires 0 <= j < |table| && 0 <= c <= MaxCount
    ensures Tick(SelectOnSaturate, table, Snapshot(Column(|table|, j, c), speed), Only(|table|, j))
         == Snapshot(Column(|table|, j, Min(c + 1, MaxCount)),
                     if c + 1 >= MaxCount then table[j] else speed)
  {
    var n := |table|;
    var counts := StepAll(Column(n, j, c), Only(n, j));
    assert counts == Column(n, j, Min(c + 1, MaxCount));
    if c + 1 >= MaxCount {
      assert IsLastTriggered(counts, MaxCount, j);
    } else {
      assert NoneTriggered(counts, MaxCount);
    }
  }

  /** Holding channel `j` alone for `k` more ticks, from a state where it alone
      has counted to `c` (and has selected its speed if it is saturated). */
  lemma {:induction false} HoldFrom(table: seq<int>, j: int, c: int, speed: int, k: nat)
    requires 0 <= j < |table| && 0 <= c <= MaxCount
    requires c == MaxCount ==> speed == table[j]
    ensures Run(SelectOnSaturate, table, Snapshot(Column(|table|, j, c), speed), Hold(|table|, j, k))
         == Snapshot(Column(|table|, j, Min(c + k, MaxCount)),
                     if c + k >= MaxCount then table[j] else speed)
    decreases k
  {
    var n := |table|;
    var trace := Hold(n, j, k);
    if k > 0 {
      var st := Snapshot(Column(n, j, c), speed);
      var c' := Min(c + 1, MaxCount);
      var speed' := if c + 1 >= MaxCount then table[j] else speed;
      assert trace[0] == Only(n, j);
      assert trace[1..] == Hold(n, j, k - 1);
      HoldOneTick(table, j, c, speed);
      assert Run(SelectOnSaturate, table, st, trace)
          == Run(SelectOnSaturate, table, Snapshot(Column(n, j, c'), speed'), Hold(n, j, k - 1));
      HoldFrom(table, j, c', speed', k - 1);
      assert Min(c' + (k - 1), MaxCount) == Min(c + k, MaxCount);
      // Once saturated, every later tick re-selects table[j].
      assert (if c' + (k - 1) >= MaxCount then table[j] else speed')
          == (if c + k >= MaxCount then table[j] else speed);
    } else {
      assert trace == [];
      assert Min(c + k, MaxCount) == c;
    }
  }

  /** Debounce latency, both halves: from all counters at 0, holding channel `j`
      alone for `k` ticks leaves its counter at min(k, MaxCount), every other
      counter at 0, and selects table[j] exactly when k >= MaxCount; before that
      the initial speed is kept. */
  lemma SoleChannelLatency(table: seq<int>, j: int, k: nat, initial: int)
    requires 0 <= j < |table|
    ensures var r := Run(SelectOnSaturate, table, Snapshot(Zeros(|table|), initial), Hold(|table|, j, k));
      r.counts == Column(|table|, j, Min(k, MaxCount)) &&
      r.speed == (if k >= MaxCount then table[j] else initial)
  {
    assert Column(|table|, j, 0) == Zeros(|table|);
    HoldFrom(table, j, 0, initial, k);
  }

  // ---------------------------------------------------------------------------
  // Select-on-release

  /** Under select-on-release, from all counters at 0, the first tick selects
      the highest channel that is not asserted, whose counter stays at 0. */
  lemma FirstTickSelectsReleased(table: seq<int>, initial: int, asserted: seq<bool>, j: int)
    requires |asserted| == |table|
    requires 0 <= j < |table| && !asserted[j]
    requires forall k :: j < k < |table| ==> asserted[k]
    ensures var r := Tick(SelectOnRelease, table, Snapshot(Zeros(|table|), initial), asserted);
      r.counts[j] == 0 && r.speed == table[j]
  {
    var counts := StepAll(Zeros(|table|), asserted);
    assert IsLastTriggered(counts, 0, j);
  }

  /** A table whose every entry is `v`. */
  predicate Constant(table: seq<int>, v: int) {
    forall i :: 0 <= i < |table| ==> table[i] == v
  }

  /** When every table entry and the starting speed are `v`, the speed stays `v`
      over any number of ticks, whatever the policy and the inputs. */
  lemma ConstantTableFixesSpeed(p: Policy, table: seq<int>, st: Snapshot, trace: seq<seq<bool>>, v: int)
    requires |st.counts| == |table| && WellFormedTrace(trace, |table|)
    requires |table| > 0 && Constant(table, v) && st.speed == v
    ensures Run(p, table, st, trace).speed == v
  {
    assert v == table[0];
    RunSpeedInTable(p, table, st, trace);
  }
}
