# Conveyor belt controller

A Dafny model of the control loop of an Arduino conveyor-belt sketch
(`Conveyor_Belt/src/main.cpp`). The sketch keeps three global flags:

- `conveyorRunning`;
- `lastPress`, the previous start-button sample;
- `systemLocked`, set by an emergency stop.

On every pass of `loop()` it samples the start, stop and emergency buttons. It
then updates the flags in three `if` blocks, in a fixed order: start (on a
rising edge only), stop, emergency. Finally three more `if` blocks, guarded by
the updated `(running, locked)` pair, command the two steppers, write the
display and, in the emergency block, drive the buzzer HIGH.

- `ConveyorSpec` (`conveyor_spec.dfy`) is the reference model on values.
  - `Update` is the flag updates, in source order.
  - `Emit` is the three output blocks, each guarded by its own test. The
    guards exclude each other, so at most one block fires, and none when
    running and locked are both true.
  - `Next` is one whole pass.
  - `Replay` is a history of passes: the runtime calling `loop()` again and
    again, once per button sample.
  - `Mode`/`NextMode` is an independent three-state machine (stopped, running,
    locked), and the flag model is proved to agree with it.
- `ConveyorController` (`controller.dfy`) is the sketch as an object. Its
  fields are the globals plus the buzzer pin level. The constructor plays
  `setup()`. `Tick` runs one pass of `loop()` with the assignments in source
  order, and is proved equal to the reference pass.

Each button sample is a boolean: HIGH reads as true, as the code compares
against `HIGH`. Each stepper's behaviour is the list of calls made on it
(`run()`, `moveTo(1000)`, `stop()`). The display is a message tag per block.

Four behaviours of the code are easy to misread; the model keeps each as
written:

- In the code, stop beats emergency. If both are pressed while running, the
  conveyor ends stopped and not locked (`StopBeatsEmergency`).
- The buzzer is never written LOW after `setup()`, so it stays on after a
  restart (`BuzzerStaysOn`, `RestartAfterEmergency`).
- The lock can be entered from stopped or locked in a single pass: a start
  edge together with emergency, with stop released (`LockNeedsEmergency`,
  `StartEdgeWithEmergencyLocks`).
- While running, `moveTo(1000)` is issued on every pass. The target is
  absolute, so the command repeated each pass is the same one
  (`RunningIsSustained`).

## Model

| member | source | states |
|---|---|---|
| ConveyorController.Controller.constructor | Conveyor_Belt/src/main.cpp:35-37 | all three globals start false and the buzzer is written LOW (line 53); the initial state is safe |
| ConveyorController.Controller.Tick | Conveyor_Belt/src/main.cpp:72-127 | one pass produces the reference pass `Next` and the outputs `Emit` of the updated flags; `lastPress` becomes the start sample; the buzzer is never cleared; both motors always get the same calls; a safe state stays safe and fires exactly one block |
| ConveyorSpec.Update | Conveyor_Belt/src/main.cpp:79-95 | the three flag updates in source order (start edge, stop, emergency); a pass with stop or emergency pressed never ends running, and the flag updates leave the buzzer alone; checked further through `Tick` and the lemmas below |
| ConveyorSpec.Emit | Conveyor_Belt/src/main.cpp:98-126 | the three output blocks, each under its own guard; at most one block fires, none exactly when running and locked are both true, and both steppers always get the same calls |
| ConveyorSpec.Next | Conveyor_Belt/src/main.cpp:72-127 | one whole pass: the flag updates, then the output blocks; the buzzer ends on if and only if it was on or the pass ended in the emergency block (the HIGH write at line 121) |
| ConveyorSpec.Replay | Conveyor_Belt/src/main.cpp:72-127 | the runtime calling `loop()` once per sample, oldest first; after a non-empty history `lastPress` holds the last start sample |
| ConveyorSpec.LastPressRecordsStart | Conveyor_Belt/src/main.cpp:83 | after every pass `lastPress` equals that pass's start sample |
| ConveyorSpec.NextKeepsSafe | Conveyor_Belt/src/main.cpp:79-95 | one pass never leaves a state with running and locked both true, if it did not start in one |
| ConveyorSpec.ReplayKeepsSafe | Conveyor_Belt/src/main.cpp:79-95 | every history of passes from a safe state ends in a safe state |
| ConveyorSpec.ReachableSafe | Conveyor_Belt/src/main.cpp:35-37 | from the all-false power-on state, running and locked are never both true after any history |
| ConveyorSpec.UpdateFollowsModes | Conveyor_Belt/src/main.cpp:79-95 | on a safe state, the mode after the flag updates is given by the three-state table `NextMode`, with stop tested before emergency |
| ConveyorSpec.StartsOnlyOnRisingEdge | Conveyor_Belt/src/main.cpp:79-82 | a conveyor that is not running ends the pass running if and only if start rose (start HIGH, previous sample LOW) and neither stop nor emergency is pressed |
| ConveyorSpec.HeldStartDoesNotRetrigger | Conveyor_Belt/src/main.cpp:79-83 | a start button held from the previous sample does not start a conveyor that is not running, and leaves the lock unchanged |
| ConveyorSpec.LockedWithoutEdgeStaysLocked | Conveyor_Belt/src/main.cpp:79-95 | from locked, without a start edge, stop and emergency change nothing; only `lastPress` is updated and the buzzer is written HIGH again |
| ConveyorSpec.LockedStartEdgeRuns | Conveyor_Belt/src/main.cpp:79-82 | from locked, a start edge with stop and emergency released ends running and unlocked |
| ConveyorSpec.UnlockNeedsStartEdge | Conveyor_Belt/src/main.cpp:79-89 | from a safe state, the lock is cleared only in a pass with a start edge |
| ConveyorSpec.LockNeedsEmergency | Conveyor_Belt/src/main.cpp:79-95 | the lock is set only by emergency with stop released, while the conveyor is running or has just been started by a start edge; the pass ends not running |
| ConveyorSpec.EmergencyWhileRunningLocks | Conveyor_Belt/src/main.cpp:92-95 | emergency while running, with stop released, ends locked and not running, and only the emergency block fires |
| ConveyorSpec.StopBeatsEmergency | Conveyor_Belt/src/main.cpp:86-95 | stop while running ends stopped and unlocked whatever emergency reads, and only the stopped block fires |
| ConveyorSpec.StartEdgeWithStopStops | Conveyor_Belt/src/main.cpp:79-89 | a start edge and stop in the same pass end stopped and unlocked |
| ConveyorSpec.StartEdgeWithEmergencyLocks | Conveyor_Belt/src/main.cpp:79-95 | a start edge and emergency, with stop released, in the same pass end locked with the buzzer on |
| ConveyorSpec.RunningIsSustained | Conveyor_Belt/src/main.cpp:86-102 | running with neither stop nor emergency pressed stays running, with nothing changed except `lastPress`, and each such pass sends `run()` then `moveTo(1000)` |
| ConveyorSpec.ExactlyOneBlock | Conveyor_Belt/src/main.cpp:98-126 | on a safe state exactly the output block of its mode fires; both motors get that block's calls, the display shows its message, and the buzzer ends on if and only if it was on or the state is locked |
| ConveyorSpec.UnsafeFiresNoBlock | Conveyor_Belt/src/main.cpp:98-126 | the three guards leave running-and-locked uncovered: no block fires and nothing is output |
| ConveyorSpec.ReachableFiresOneBlock | Conveyor_Belt/src/main.cpp:98-126 | from power-on, every pass fires exactly one output block |
| ConveyorSpec.BuzzerLatches | Conveyor_Belt/src/main.cpp:121 | a pass never turns the buzzer off |
| ConveyorSpec.BuzzerHistory | Conveyor_Belt/src/main.cpp:118-121 | after a history, the buzzer is on if and only if it was on at the start or some pass of the history ended in the emergency block; from power-on (LOW written at line 53) it is on exactly when the emergency block has fired |
| ConveyorSpec.BuzzerStaysOn | Conveyor_Belt/src/main.cpp:118-121 | once the buzzer is on it stays on through every later history |
| ConveyorSpec.RestartAfterEmergency | Conveyor_Belt/src/main.cpp:72-127 | four passes from power-on (start rises, start held, emergency, start rises again): running, running, locked with the buzzer on, running again with the buzzer still on |

## Left out

- Pin configuration and `digitalRead`/`digitalWrite` (lines 42-54, 74-76) are hardware I/O, except the buzzer level written at lines 53 and 121, kept as a field. Each button sample is a given boolean, and the INPUT_PULLUP active level is not modelled.
- AccelStepper internals (lines 31-32, 57-60, 99-100) belong to an external library. That covers what `run()`, `moveTo()` and `stop()` do to the motor, and the speed and acceleration settings. Each motor is only the list of calls made on it.
- LiquidCrystal rendering (lines 28, 63-68, 103-104, 111-114, 122-125) is not modelled. That covers cursor moves, `clear()` and the exact text. Each block's display output is a message tag.
- The `delay(1000)` in `setup()` (line 69) is timing only.
- The photo and rock sensors, alert LED, motor relay and the `lcdMessageDisplayed` flag (lines 7-8, 12, 14, 38) are never read or driven by the loop logic.
- `Conveyor belt.cpp`, the other, level-triggered draft of the sketch, is not part of this model.
