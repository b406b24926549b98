# Livolo floor controller — verified model

The firmware keeps an underfloor heating floor from overheating. Once per control
cycle it reads the floor temperature. If heating is allowed and the floor is above
31 °C, it forces cooldown: the relay transistor's pin becomes an output driven low,
which turns heating off. If cooldown is forced and the floor is below 29 °C, it
gives the thermostat control back: the pin becomes a high-impedance input. Between
the two thresholds nothing changes. Each cycle also logs a mode word: `COOLDOWN`,
or, when heating is allowed, `ON`/`OFF` from an analog read-back of the pin.

The model has two modules:

- `Hysteresis` (`hysteresis.dfy`): the decision of one cycle as pure functions
  (`Decide`, `NextMode`), the run of a whole sequence of readings (`Trace`,
  `Effects`, `Final`), and the lemmas about them. These cover the transition
  table, the dead band, strict boundaries, actuation only on edges, alternation
  of the enable/disable calls, the swing needed between two calls, and
  disconnected-sensor readings.
- `FloorController` (`controller.dfy`): the firmware's mutable state as a class
  `Controller`. It holds the cooldown flag, the abstract pin configuration
  (`HiZ | DrivenLow`) and ghost counters of enable/disable calls. Its methods
  mirror `enableCooldown`, `disableCooldown`, `setup`, the threshold step of
  `loop`, `printCurrentState`'s choice of word, a whole `loop` cycle, and the
  framework's repeated calls of `loop` (`Run`). The contracts of `Step` and `Loop`
  tie the new state to `NextMode`/`Decide` of the old state. The contract of `Run`
  ties it to `Final`/`Trace`/`Effects` of the readings.
  `Valid()` (flag set exactly when the pin is driven low) holds after `Setup` and
  is kept by every cycle. The word choice is also stated as the pure function
  `StatusWord`.

Temperatures are `real` degrees Celsius. The code only compares them, strictly,
against the constants 31 and 29.

The code does not treat the sensor's disconnected value specially, although a
plausibility check on such readings might be expected. The model follows the
code: a reading of −127 °C (`DisconnectedTemp`) is an ordinary reading below 29.
`DisconnectedReadingReleases` and `LowRunReleases` state what that leads to.

## Model

| member | source | states |
|---|---|---|
| Hysteresis.Decide | src/main.cpp:88-94 | a call is made only for a reading outside [29, 31]; enable only from heating-allowed, disable only from cooldown |
| Hysteresis.ModeAfter | src/main.cpp:49-68 | no call keeps the flag; a call sets it outright, true for enable (line 64) and false for disable (line 50), whatever it was before |
| Hysteresis.NextMode | src/main.cpp:88-94 | the mode rises only for a reading above 31, falls only for a reading below 29, and stays put for a reading in [29, 31] |
| Hysteresis.ThresholdsOrdered | src/main.cpp:15-16 | the disable threshold (29) lies strictly below the enable threshold (31) |
| Hysteresis.EngageExactlyAboveUpper | src/main.cpp:88-90 | from heating-allowed, a cycle enters cooldown and calls enable iff the reading is strictly above 31; it never calls disable |
| Hysteresis.ReleaseExactlyBelowLower | src/main.cpp:91-93 | from cooldown, a cycle returns to heating-allowed and calls disable iff the reading is strictly below 29; it never calls enable |
| Hysteresis.DeadBandHolds | src/main.cpp:88-94 | any reading in [29, 31], both ends included, calls nothing and keeps the mode, whatever the mode |
| Hysteresis.EffectOnEdge | src/main.cpp:88-94 | one cycle calls enable iff the mode goes from off to on, disable iff it goes from on to off, and nothing iff the mode is unchanged |
| Hysteresis.RepeatedReadingHolds | src/main.cpp:88-94 | repeating the reading that caused a transition calls nothing and keeps the new mode |
| Hysteresis.DisconnectedReadingReleases | src/main.cpp:88-93 | a −127 reading always leaves heating allowed: it calls disable from cooldown and nothing otherwise, never enable |
| Hysteresis.Trace | src/main.cpp:84-94 | the run of cycles yields one mode per reading |
| Hysteresis.Effects | src/main.cpp:84-94 | the run of cycles yields one actuator call (or none) per reading |
| Hysteresis.TraceAt | src/main.cpp:84-94 | cycle i of a run is one control cycle from the mode cycle i−1 left, for its mode and its call |
| Hysteresis.Final | src/main.cpp:84-94 | the mode after a run is the start mode for no readings, and otherwise the mode of the run's last cycle |
| Hysteresis.FinalSnoc | src/main.cpp:84-94 | one more reading moves the mode after the run by one more control cycle |
| Hysteresis.TraceSnoc | src/main.cpp:84-94 | one more reading appends the mode that one more cycle leaves to the trace |
| Hysteresis.EffectsSnoc | src/main.cpp:84-94 | one more reading appends the call of one more cycle, from the mode after the run |
| Hysteresis.EffectsOnEdges | src/main.cpp:88-94 | in any run, cycle i calls enable iff the mode rises there, disable iff it falls, and nothing iff it stays |
| Hysteresis.EngageReleaseBalance | src/main.cpp:88-94 | over any run, enable calls minus disable calls equals the final mode minus the starting mode (as 0/1); alternation of the calls is `SuccessiveCallsSwing` |
| Hysteresis.NoDoubleEngage | src/main.cpp:88-94 | from heating-allowed, enable calls never exceed disable calls by more than one, nor fall below them |
| Hysteresis.HoldKeepsMode | src/main.cpp:88-94 | cycles that call nothing leave the mode where it was |
| Hysteresis.SuccessiveCallsSwing | src/main.cpp:88-94 | two successive actuator calls go in opposite directions, and their readings differ by more than the 2-degree gap, downward after an enable and upward after a disable |
| Hysteresis.DeadBandRunHolds | src/main.cpp:88-94 | a run whose readings all lie in [29, 31] never changes the mode and never calls the actuator |
| Hysteresis.LowRunReleases | src/main.cpp:88-93 | a run of readings all below 29 (a stuck disconnected sensor) leaves heating allowed after every cycle, calls disable once at most (in the first cycle, from cooldown) and never calls enable |
| Hysteresis.ExampleRun | src/main.cpp:84-94 | readings 25.0, 30.0, 31.5, 32.0, 28.5, 29.5 from heating-allowed give modes off, off, on, on, off, off with one enable (at 31.5) and one disable (at 28.5) |
| FloorController.StatusWord | src/main.cpp:75-81 | the word is COOLDOWN iff cooldown is on; otherwise ON iff the read-back exceeds 10 and OFF iff it is at most 10 |
| FloorController.PinFor | src/main.cpp:63-68 | the pin is driven low exactly for cooldown and hi-Z exactly for heating-allowed, as enableCooldown and disableCooldown configure it |
| FloorController.Controller.Valid | src/main.cpp:49-53 | the invariant that the flag is set exactly when the pin is driven low, equivalently that the pin is the one that goes with the flag |
| FloorController.Controller.constructor | src/main.cpp:23 | at power-on the cooldown flag is false and no actuator call has been made |
| FloorController.Controller.DisableCooldown | src/main.cpp:49-53 | clears the flag, puts the pin in hi-Z, and counts one disable call |
| FloorController.Controller.EnableCooldown | src/main.cpp:63-68 | sets the flag, drives the pin low as an output, and counts one enable call |
| FloorController.Controller.Setup | src/main.cpp:55-61 | whatever the pin's power-on state, after setup heating is allowed, the pin is hi-Z and the flag/pin invariant holds |
| FloorController.Controller.Step | src/main.cpp:88-94 | the flag becomes the next mode of the transition table; the pin changes only when an actuator call is made; exactly the decided call is counted; the flag/pin invariant is preserved |
| FloorController.Controller.Status | src/main.cpp:70-82 | the logged word is the status word of the current flag and read-back, COOLDOWN iff the flag is set |
| FloorController.Controller.Loop | src/main.cpp:84-97 | one cycle: the threshold step as in Step, then the status word of the new mode and the read-back |
| FloorController.Controller.Run | src/main.cpp:84-97 | calling loop once per reading leaves the flag at the run's final mode. The enable and disable counters grow by the run's counts of those calls. The pin is unchanged if no call was made and otherwise matches the flag. The invariant is kept. Cycle i logs the status word of the run's i-th mode and its read-back |

## Left out

- Serial set-up and the log line's formatting (`millis()` timestamp, temperature with one decimal) are I/O; only the mode word is modelled.
- The DS18B20 / OneWire bring-up is left out: foreign library calls, an unbounded blocking retry loop with `delay`, and the resolution setting.
- Temperature conversion and `getTempC` are hardware reads; each reading is a parameter of `Step`/`Loop`, and a run is a sequence of readings.
- `analogRead` is a hardware read; the read-back is a parameter of `Status`/`StatusWord`. Its electrical link to the pin state is not modelled.
- The sensor driver's disconnected value (−127) comes from the driver library, which is not part of this model; it appears only as the constant `DisconnectedTemp`.
- IEEE float semantics are not modelled: `real` stands for `float`, and NaN and rounding are left out.
- `disableCooldown` is declared to return `bool` but returns nothing, and no caller uses the value. It is modelled as a method with no result. In C++, flowing off the end of a non-void function is undefined behaviour even when the result is discarded; the model assumes the compiler produces the evident code.
- The pin configuration is abstracted to two states. The instant inside `enableCooldown` between `pinMode(OUTPUT)` and `digitalWrite(LOW)` is not modelled, and neither is the output level left latched from earlier.
- The framework's endless repetition of `loop()` is not part of the source. It is modelled over a finite sequence of readings: as the functions `Trace`/`Effects`/`Final` and as the method `Run`.
- The pins that power and pull up the sensor are only touched by the sensor bring-up and are left out with it.
