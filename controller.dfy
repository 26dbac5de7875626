/**
 * The sketch as a stateful object: the globals become fields, `setup()` the
 * constructor and one pass of `loop()` the method `Tick`, which performs the
 * sketch's assignments in source order against a button sample.
 */
module ConveyorController {
  import opened ConveyorSpec

  class Controller {
    var running: bool    // conveyorRunning
    var lastPress: bool  // last start-button sample
    var locked: bool     // systemLocked
    var buzzer: bool     // level last written to the buzzer pin

    /** The fields as a value of the reference model. */
    function State(): ConveyorSpec.State
      reads this
    {
      ConveyorSpec.State(running, lastPress, locked, buzzer)
    }

    /** The globals start false and `setup()` writes the buzzer LOW. */
    constructor ()
      ensures State() == Initial
      ensures Safe(State())
    {
      running := false;
      lastPress := false;
      locked := false;
      buzzer := false;
    }

    /**
     * One pass of `loop()` on the sample (start, stop, emergency): the new
     * fields are the reference pass `Next` of the old ones and the output is
     * what the reference output blocks issue.  A safe state stays safe,
     * exactly one output block fires on it, and the buzzer is never cleared.
     */
    method Tick(start: bool, stop: bool, emergency: bool) returns (out: Output)
      modifies this
      ensures State() == Next(old(State()), Inputs(start, stop, emergency))
      ensures out == Emit(Update(old(State()), Inputs(start, stop, emergency)))
      ensures out.buzzer == buzzer && lastPress == start
      ensures old(buzzer) ==> buzzer
      ensures Safe(old(State())) ==> Safe(State()) && |out.fired| == 1
      ensures out.motor1 == out.motor2
    {
      ghost var before := State();
      ghost var i := Inputs(start, stop, emergency);

      // Start button: a rising edge while not running starts and unlocks.
      if start && !running && !lastPress {
        running := true;
        locked := false;
      }
      lastPress := start;

      // Stop button.
      if stop && running {
        running := false;
        locked := false;
      }

      // Emergency button.
      if emergency && running {
        running := false;
        locked := true;
      }

      var fired: seq<Block> := [];
      var motor1: seq<MotorCommand> := [];
      var motor2: seq<MotorCommand> := [];
      var display: seq<Message> := [];

      // Running block.
      if running && !locked {
        motor1 := motor1 + [Run];
        motor2 := motor2 + [Run];
        motor1 := motor1 + [MoveTo(Target)];
        motor2 := motor2 + [MoveTo(Target)];
        display := display + [SystemStarted];
        fired := fired + [RunningBlock];
      }

      // Stopped block.
      if !running && !locked {
        motor1 := motor1 + [Stop];
        motor2 := motor2 + [Stop];
        display := display + [SystemStopped];
        fired := fired + [StoppedBlock];
      }

      // Emergency block.
      if !running && locked {
        motor1 := motor1 + [Stop];
        motor2 := motor2 + [Stop];
        buzzer := true;
        display := display + [EmergencyStop];
        fired := fired + [EmergencyBlock];
      }

      out := Output(fired, motor1, motor2, display, buzzer);
      if Safe(before) {
        NextKeepsSafe(before, i);
        ExactlyOneBlock(Update(before, i));
      }
    }
  }
}
