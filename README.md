# Debounced speed selector of the linear actuator

This project models the speed selector of a belt- or leadscrew-driven linear
stage. Six selector inputs are wired active-low with pull-ups. An embedded run
loop polls them once per tick. Each input has a debounce counter. The counter
steps up by one while the input is asserted (the pin reads LOW) and down by one
otherwise, clamped to `[0, MaxCount]` with `MaxCount = 1000`. After its step,
a channel whose counter sits at the policy's trigger value overwrites the
resolved speed with its entry in the speed table. Channels are walked in index
order, so the highest such channel wins the tick. When no channel is at the
trigger value, the previous speed is kept.

The repository holds two drafts of this logic, and each is modelled as its own
class:

- `speed-control.cpp`, the select-on-saturate draft (`SpeedControlSaturate`).
  The trigger is `MaxCount`. The table is `[100, 150, 200, 250, 300, 500]` mm/s
  and the initial speed is the maximum, 500 mm/s.
- `speed_control.cpp`, the select-on-release draft (`SpeedControlRelease`).
  The trigger is 0. Every table entry and the initial speed are the test speed,
  1500 mm/s. Its counters are a function-local `static` array, so they persist
  across calls; here they are a field of the object.

Both share one specification on values, module `Debounce`:

- `Step` is one counter's step.
- `StepAll` is all counters' steps.
- `ResolvedSpeed` is the index-order, last-writer-wins selection.
- `Tick` is one call of the update routine.
- `Run` is a sequence of calls.

Each class method is proved to turn its object's state into `Tick` of the old
state. The properties are proved as lemmas about `Tick` and `Run`.

The `digitalRead` of each pin is a parameter: one `seq<bool>` per tick, where
`true` means the pin read LOW. The speeds are `float` in the C++ source, but
they are only copied and all hold whole numbers, so they are modelled as `int`.
The counters are C `int`s, but they are clamped to `[0, 1000]` every tick, so
unbounded integers model them exactly.

## Model

| member | source | states |
|---|---|---|
| Debounce.Step | speed-control.cpp:83-85 | the counter lands in [0, MaxCount]; from a counter in range it moves exactly one up if asserted and one down otherwise, and stays put only when it is already at the bound it moves toward |
| Debounce.StepAll | speed-control.cpp:81-86 | every channel takes exactly its own step once, no channel is skipped or counted twice, and all counters end in range |
| Debounce.ResolvedSpeed | speed-control.cpp:81-91 | when some counter is at the trigger value, the speed is the table entry of the highest such channel; when none is, the previous speed is kept |
| Debounce.Trigger | speed-control.cpp:87 | the select-on-saturate policy compares a counter with MaxCount and the select-on-release policy (speed_control.cpp, line 52) compares it with 0, and these are the only two trigger values |
| Debounce.Tick | speed-control.cpp:79-94 | one call of the update routine: every counter takes exactly its own step and ends in range; with no counter at the trigger value the speed is kept, otherwise it is the table entry of the highest channel at the trigger value |
| Debounce.Run | speed-control.cpp:29-31 | repeated calls over counters and a speed that persist between calls; after at least one call every counter is in range, wherever it started |
| Debounce.LastTriggeredExists | speed-control.cpp:87-90 | when any counter is at the trigger value, a highest such channel exists, so the two cases of the selection cover every state |
| Debounce.TickSelects | speed-control.cpp:79-94 | after a tick, either no counter is at the trigger value and the speed is unchanged, or the speed is the table entry of the highest channel at the trigger value |
| Debounce.ResolvedSpeedInTable | speed-control.cpp:87-90 | the selection yields either the previous speed or a table entry |
| Debounce.RunSpeedInTable | speed-control.cpp:26-29 | a speed that starts as a table entry stays a table entry over any number of ticks |
| Debounce.HeldChannelReasserts | speed-control.cpp:83-90 | a saturated channel that is still asserted stays at MaxCount and re-selects its speed on every tick, overriding an earlier selection, whenever no higher channel's counter lands on MaxCount |
| Debounce.RunKeepsRange | speed-control.cpp:84-85 | counters that start in [0, MaxCount] stay there over any number of ticks |
| Debounce.RunCounterDrift | speed-control.cpp:83 | after n ticks a counter is within n of its starting value |
| Debounce.NoSaturationBeforeMaxCount | speed-control.cpp:83-89 | a channel whose counter starts at 0 is below MaxCount after fewer than MaxCount ticks, whatever the inputs, so it cannot be the channel that selects the speed |
| Debounce.RunSnoc | speed-control.cpp:79-94 | running a trace with one more reading at its end is one more call of the update routine on the state the shorter trace leaves |
| Debounce.HeldCounter | speed-control.cpp:83-85 | a channel asserted in every reading for k ticks has its counter at min(start + k, MaxCount), whatever the other channels read |
| Debounce.HeldSelects | speed-control.cpp:81-91 | a channel asserted in every reading long enough to reach MaxCount ends saturated, and its speed is selected unless a higher channel is saturated too, whatever the other channels read |
| Debounce.SoleChannelLatency | speed-control.cpp:81-91 | from all counters at 0, holding one channel alone for k ticks leaves its counter at min(k, MaxCount) and every other counter at 0, and selects its speed exactly when k >= MaxCount, keeping the initial speed before that |
| Debounce.FirstTickSelectsReleased | speed_control.cpp:43-55 | under select-on-release, the first call from all counters at 0 leaves the highest non-asserted channel at 0 and selects its speed |
| Debounce.ConstantTableFixesSpeed | speed_control.cpp:19-24 | when every table entry and the starting speed are the same value, the speed stays that value over any number of ticks, under either policy |
| SpeedControlSaturate.SpeedControl.constructor | speed-control.cpp:26-31 | at power-up all six counters are 0 and the speed is the 500 mm/s maximum, which is also the last table entry |
| SpeedControlSaturate.SpeedControl.Update | speed-control.cpp:79-94 | the counters and speed become one select-on-saturate tick of the old state, counters stay in range, the speed stays a table entry, and the new speed is returned |
| SpeedControlSaturate.SpeedControl.GetMmPerS | speed-control.cpp:96-99 | returns the stored speed, a table entry, and changes nothing |
| SpeedControlSaturate.HoldScenario | speed-control.cpp:26-29 | with the real table, holding channel 2 alone keeps 500 mm/s through tick 999 and selects 200 mm/s at tick 1000; holding channel 5 alone gives 500 mm/s at tick 1000 |
| SpeedControlRelease.SpeedControl.constructor | speed_control.cpp:19-24 | at program start all counters are 0 and the speed is the 1500 mm/s test speed |
| SpeedControlRelease.SpeedControl.GetSpeedMmPerS | speed_control.cpp:40-59 | the persistent counters and the speed become one select-on-release tick of the old state, counters stay in range, and the returned speed is 1500 mm/s |
| SpeedControlRelease.AlwaysTestSpeed | speed_control.cpp:19-24 | from program start, whatever the pins read over any number of calls, the speed is the 1500 mm/s test speed |

## Left out

- `mm_units_to_steps`, `speed_get_motor_accel`, `speed_get_maximum_speed` and the mechanical constants of `motion-system.h`: these are floating-point arithmetic with pi and implicit float-to-int truncation, not modelled.
- `speed_setup_io` and `speed_print_pin_states`: pin-mode configuration and serial output only.
- `digitalRead`: a hardware call, replaced by the per-tick sequence of readings. The model takes all six readings of a tick at once. The source reads the pins one by one inside the loop, so it can see a pin change part-way through a tick. Any such interleaving is still some sequence of six readings, so this loses nothing.
- `get_speed_selection` in `speed_control.cpp`: an unused function whose body is empty although it returns `int`, so it has no behaviour to model.
- The pin numbers (`PINS`) only choose which hardware pin `digitalRead` samples, so they are not modelled.
