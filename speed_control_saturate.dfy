/** The select-on-saturate draft of the speed selector (speed-control.cpp):
    a channel selects its speed once its debounce counter reaches MaxCount, and
    re-selects it on every tick it stays there. The module-level counters and
    the last good speed become the fields of one SpeedControl object. */
module SpeedControlSaturate {
  import opened Debounce

  /** Fastest configured speed, also the speed before any channel saturates. */
  const MaximumSpeedMmPerS: int := 500

  /** The speed each channel selects, index-aligned with the channels. */
  const SpeedsMmPerS: seq<int> := [100, 150, 200, 250, 300, MaximumSpeedMmPerS]

  class SpeedControl {
    /** One debounce counter per channel. */
    var pinStates: array<int>
    /** The speed selected by the last channel that saturated. */
    var lastGoodSpeed: int

    ghost predicate Valid()
      reads this, pinStates
    {
      pinStates.Length == NumberOfSpeeds &&
      AllInRange(pinStates[..]) &&
      lastGoodSpeed in SpeedsMmPerS
    }

    /** The selector state as a value. */
    ghost function State(): Snapshot
      reads this, pinStates
    {
      Snapshot(pinStates[..], lastGoodSpeed)
    }

    /** Power-up: every counter at 0, the speed at the maximum, which is also
        the last table entry. */
    constructor ()
      ensures Valid() && fresh(pinStates)
      ensures State() == Snapshot(Zeros(NumberOfSpeeds), MaximumSpeedMmPerS)
      ensures lastGoodSpeed == SpeedsMmPerS[NumberOfSpeeds - 1]
    {
      pinStates := new int[NumberOfSpeeds](_ => 0);
      lastGoodSpeed := MaximumSpeedMmPerS;
      new;
      assert pinStates[..] == Zeros(NumberOfSpeeds);
    }

    /** One polling tick. `asserted[i]` is channel i's reading this tick, true
        when its pin reads LOW. Every counter takes one step, and the speed is
        overwritten by each saturated channel in index order; the new speed is
        returned. */
    method Update(asserted: seq<bool>) returns (speed: int)
      requires Valid() && |asserted| == NumberOfSpeeds
      modifies pinStates, this`lastGoodSpeed
      ensures Valid()
      ensures State() == Tick(SelectOnSaturate, SpeedsMmPerS, old(State()), asserted)
      ensures speed == lastGoodSpeed
    {
      for i := 0 to NumberOfSpeeds
        invariant forall k :: 0 <= k < i ==> pinStates[k] == Step(old(pinStates[k]), asserted[k])
        invariant forall k :: i <= k < NumberOfSpeeds ==> pinStates[k] == old(pinStates[k])
        invariant lastGoodSpeed == ResolvedSpeed(pinStates[..i], SpeedsMmPerS, MaxCount, old(lastGoodSpeed))
      {
        pinStates[i] := pinStates[i] + (if asserted[i] then 1 else -1);
        if pinStates[i] < 0 { pinStates[i] := 0; }
        if pinStates[i] > MaxCount { pinStates[i] := MaxCount; }

        assert pinStates[..i + 1][..i] == pinStates[..i];
        if pinStates[i] == MaxCount {
          lastGoodSpeed := SpeedsMmPerS[i];
        }
      }
      assert pinStates[..] == StepAll(old(pinStates[..]), asserted);
      assert pinStates[..NumberOfSpeeds] == pinStates[..];
      ResolvedSpeedInTable(pinStates[..], SpeedsMmPerS, MaxCount, old(lastGoodSpeed));
      speed := lastGoodSpeed;
    }

    /** Reads the selected speed without changing anything. */
    method GetMmPerS() returns (speed: int)
      requires Valid()
      ensures speed == lastGoodSpeed && speed in SpeedsMmPerS
    {
      speed := lastGoodSpeed;
    }
  }

  /** With the selector's own table: holding channel 2 (200 mm/s) alone from
      power-up keeps the initial 500 mm/s through tick 999 and selects 200 mm/s
      at tick 1000; holding channel 5 alone selects 500 mm/s at tick 1000. */
  lemma HoldScenario()
    ensures Run(SelectOnSaturate, SpeedsMmPerS, Snapshot(Zeros(6), MaximumSpeedMmPerS), Hold(6, 2, 999)).speed == 500
    ensures Run(SelectOnSaturate, SpeedsMmPerS, Snapshot(Zeros(6), MaximumSpeedMmPerS), Hold(6, 2, 1000)).speed == 200
    ensures Run(SelectOnSaturate, SpeedsMmPerS, Snapshot(Zeros(6), MaximumSpeedMmPerS), Hold(6, 5, 1000)).speed == 500
  {
    SoleChannelLatency(SpeedsMmPerS, 2, 999, MaximumSpeedMmPerS);
    SoleChannelLatency(SpeedsMmPerS, 2, 1000, MaximumSpeedMmPerS);
    SoleChannelLatency(SpeedsMmPerS, 5, 1000, MaximumSpeedMmPerS);
  }
}
