/**
 lsh_loop: read a line, split it, dispatch it, and go round again until a
 command returns the stop status. Input is a finite sequence of lines; when
 it runs out, lsh_read_line ends the process successfully (end of input),
 which for the loop is the same as stopping.
 */
module Repl {
  import opened CStrings
  import opened Tokenizer
  import opened Builtins
  import opened Execute

  /** One line of input, with what the operating system does if the line launches an external program. */
  datatype Step = Step(line: seq<char>, child: ChildFate)

  /** Why the loop ended: an `exit` command, or the end of the input. The
      process exits with status 0 (EXIT_SUCCESS) in both cases. */
  datatype Ending = ExitCommand | EndOfInput

  /** The effects of the lines the loop processed, in order, and why it ended. */
  datatype Session = Session(effects: seq<Effect>, ending: Ending)

  /** One iteration of the loop body: tokenize, then dispatch. The result
      stops the loop exactly when the first token is "exit", and a blank line
      is a no-op. */
  function RunLine(step: Step): (r: Outcome)
    ensures r.signal == Stop <==> |Tokenize(step.line)| > 0 && Tokenize(step.line)[0] == "exit"
    ensures AllDelims(CString(step.line), 0) ==> r == Outcome(Continue, NoEffect)
  {
    var args := Tokenize(step.line);
    assert |args| > 0 ==> CString(args[0]) == args[0] by {
      if |args| > 0 {
        assert ValidToken(args[0]);
      }
    }
    Dispatch(args, step.child)
  }

  /** The do-while loop of lsh_loop, for any loop body `run`: every line up
      to and including the first one whose status is Stop is run once, in
      order, and no line after it is read. */
  function Drive(steps: seq<Step>, run: Step -> Outcome): (r: Session)
    ensures |r.effects| <= |steps|
    ensures forall k :: 0 <= k < |r.effects| ==> r.effects[k] == run(steps[k]).effect
    ensures forall k :: 0 <= k < |r.effects| - 1 ==> run(steps[k]).signal == Continue
    ensures r.ending == ExitCommand ==> |r.effects| > 0 && run(steps[|r.effects| - 1]).signal == Stop
    ensures r.ending == EndOfInput ==>
              |r.effects| == |steps| && forall k :: 0 <= k < |steps| ==> run(steps[k]).signal == Continue
  {
    if |steps| == 0 then Session([], EndOfInput)
    else
      var o := run(steps[0]);
      if o.signal == Stop then Session([o.effect], ExitCommand)
      else
        var rest := Drive(steps[1..], run);
        var r := Session([o.effect] + rest.effects, rest.ending);
        assert forall k :: 1 <= k < |r.effects| ==> r.effects[k] == rest.effects[k - 1];
        assert run(steps[0]).signal == Continue;
        r
  }

  /** The loop ends on a command exactly when some input line stops it. */
  lemma DriveStopsIffSomeLineStops(steps: seq<Step>, run: Step -> Outcome)
    ensures (Drive(steps, run).ending == ExitCommand) <==> exists k :: 0 <= k < |steps| && run(steps[k]).signal == Stop
  {
    var r := Drive(steps, run);
    if r.ending == ExitCommand {
      var k := |r.effects| - 1;
      assert run(steps[k]).signal == Stop;
    }
  }

  /** Input after the stopping line is never read: it does not change the session. */
  lemma {:induction false} DriveIgnoresLaterInput(steps: seq<Step>, more: seq<Step>, run: Step -> Outcome)
    requires Drive(steps, run).ending == ExitCommand
    ensures Drive(steps + more, run) == Drive(steps, run)
  {
    assert |steps| > 0;
    assert (steps + more)[0] == steps[0];
    if run(steps[0]).signal == Continue {
      assert (steps + more)[1..] == steps[1..] + more;
      DriveIgnoresLaterInput(steps[1..], more, run);
    }
  }

  /** lsh_loop over the input `steps`: the session it produces. */
  function Loop(steps: seq<Step>): (r: Session)
    ensures |r.effects| <= |steps|
    ensures forall k :: 0 <= k < |r.effects| ==> r.effects[k] == RunLine(steps[k]).effect
    ensures (r.ending == ExitCommand) <==> exists k :: 0 <= k < |steps| && RunLine(steps[k]).signal == Stop
    ensures r.ending == EndOfInput ==> |r.effects| == |steps|
  {
    DriveStopsIffSomeLineStops(steps, RunLine);
    Drive(steps, RunLine)
  }

  /** A session that ends on a command ends at the first line that stops:
      every earlier line continued. */
  lemma LoopStopsAtFirstStop(steps: seq<Step>)
    ensures var r := Loop(steps);
            r.ending == ExitCommand ==>
              && 0 < |r.effects| <= |steps|
              && (forall k :: 0 <= k < |r.effects| - 1 ==> RunLine(steps[k]).signal == Continue)
              && RunLine(steps[|r.effects| - 1]).signal == Stop
  {
  }

  /** A line whose first token is "exit" ends the session right there, whatever follows it. */
  lemma ExitEndsSession(before: seq<Step>, exitStep: Step, after: seq<Step>)
    requires forall k :: 0 <= k < |before| ==> RunLine(before[k]).signal == Continue
    requires |Tokenize(exitStep.line)| > 0 && Tokenize(exitStep.line)[0] == "exit"
    ensures Loop(before + [exitStep] + after) == Loop(before + [exitStep])
    ensures Loop(before + [exitStep]).ending == ExitCommand
    ensures |Loop(before + [exitStep]).effects| == |before| + 1
  {
    var steps := before + [exitStep];
    assert steps[|before|] == exitStep;
    DriveStopsIffSomeLineStops(steps, RunLine);
    DriveIgnoresLaterInput(steps, after, RunLine);
  }
}
