/** The select-on-release draft of the speed selector (speed_control.cpp):
    the same debounce counters, but a channel selects its speed whenever its
    counter is at 0, that is, while it is released. Its counters live in a
    function-local static array, so they persist from call to call; here they
    are a field of the SpeedControl object, as is the last good speed. Every
    table entry of this draft is the same test speed. */
module SpeedControlRelease {
  import opened Debounce

  /** The single speed this draft is configured with. */
  const TestSpeedMmPerS: int := 1500

  /** The speed each channel selects, index-aligned with the channels. */
  const SpeedsMmPerS: seq<int> :=
    [TestSpeedMmPerS, TestSpeedMmPerS, TestSpeedMmPerS, TestSpeedMmPerS, TestSpeedMmPerS, TestSpeedMmPerS]

  class SpeedControl {
    /** One debounce counter per channel, kept between calls. */
    var pinStates: array<int>
    /** The speed selected by the last channel found at 0. */
    var lastGoodSpeed: int

    ghost predicate Valid()
      reads this, pinStates
    {
      pinStates.Length == NumberOfSpeeds &&
      AllInRange(pinStates[..]) &&
      lastGoodSpeed in SpeedsMmPerS
    }

    /** The selector state as a value. */
    ghost function State(): Snapshot
      reads this, pinStates
    {
      Snapshot(pinStates[..], lastGoodSpeed)
    }

    /** Program start: the static counters are all 0 and the speed is the test speed. */
    constructor ()
      ensures Valid() && fresh(pinStates)
      ensures State() == Snapshot(Zeros(NumberOfSpeeds), TestSpeedMmPerS)
    {
      pinStates := new int[NumberOfSpeeds](_ => 0);
      lastGoodSpeed := TestSpeedMmPerS;
      new;
      assert pinStates[..] == Zeros(NumberOfSpeeds);
    }

    /** One call: every counter takes one step (`asserted[i]` is true when
        channel i's pin reads LOW), the speed is overwritten by each channel
        whose counter is then 0, in index order, and the speed is returned.
        Since every table entry is the test speed, that is what it returns. */
    method GetSpeedMmPerS(asserted: seq<bool>) returns (speed: int)
      requires Valid() && |asserted| == NumberOfSpeeds
      modifies pinStates, this`lastGoodSpeed
      ensures Valid()
      ensures State() == Tick(SelectOnRelease, SpeedsMmPerS, old(State()), asserted)
      ensures speed == lastGoodSpeed == TestSpeedMmPerS
    {
      for i := 0 to NumberOfSpeeds
        invariant forall k :: 0 <= k < i ==> pinStates[k] == Step(old(pinStates[k]), asserted[k])
        invariant forall k :: i <= k < NumberOfSpeeds ==> pinStates[k] == old(pinStates[k])
        invariant lastGoodSpeed == ResolvedSpeed(pinStates[..i], SpeedsMmPerS, 0, old(lastGoodSpeed))
      {
        pinStates[i] := pinStates[i] + (if asserted[i] then 1 else -1);

        if pinStates[i] < 0 { pinStates[i] := 0; }
        if pinStates[i] > MaxCount { pinStates[i] := MaxCount; }

        assert pinStates[..i + 1][..i] == pinStates[..i];
        if pinStates[i] == 0 {
          lastGoodSpeed := SpeedsMmPerS[i];
        }
      }
      assert pinStates[..] == StepAll(old(pinStates[..]), asserted);
      assert pinStates[..NumberOfSpeeds] == pinStates[..];
      ResolvedSpeedInTable(pinStates[..], SpeedsMmPerS, 0, old(lastGoodSpeed));
      speed := lastGoodSpeed;
    }
  }

  /** From program start, whatever the pins read over any number of calls, the
      speed returned is the test speed. */
  lemma AlwaysTestSpeed(trace: seq<seq<bool>>)
    requires WellFormedTrace(trace, NumberOfSpeeds)
    ensures Run(SelectOnRelease, SpeedsMmPerS, Snapshot(Zeros(NumberOfSpeeds), TestSpeedMmPerS), trace).speed
         == TestSpeedMmPerS
  {
    ConstantTableFixesSpeed(SelectOnRelease, SpeedsMmPerS, Snapshot(Zeros(NumberOfSpeeds), TestSpeedMmPerS),
                            trace, TestSpeedMmPerS);
  }
}
