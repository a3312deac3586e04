/**
 * The command gate of the main loop in ai_shell.py: a model reply is executed
 * only when it starts with the marker `!`; any other reply is treated as plain
 * text. Reading input, calling the model and printing are not modelled.
 */
module Shell {
  import opened Wrappers
  import opened PyStr
  import opened Sanitizer
  import opened Executor

  /** What one turn prints after the model replied: the execution report for a marked
      reply, nothing for any other reply. */
  function Turn(reply: string, run: string -> RunOutcome): (printed: Option<string>)
    ensures printed.Some? <==> reply != [] && reply[0] == Marker
    ensures printed.Some? ==> printed.value == ExecuteCommand(reply, run).report
  {
    if StartsWith(reply, [Marker]) then
      assert reply[..1][0] == reply[0];
      Some(ExecuteCommand(reply, run).report)
    else None
  }

  /** A marked reply holding one clean admissible command runs exactly that command
      and prints its report. */
  lemma TurnSingleCommand(c: string, run: string -> RunOutcome)
    requires IsStripped(c) && Marker !in c && !Contains(c, Separator) && Admissible(c)
    ensures ExecuteCommand([Marker] + c, run).launched == Some(c)
    ensures Turn([Marker] + c, run) == Some(Report(c, run(c)))
  {
    SingleCommand([Marker], c);
    assert Join([c], JoinSeparator) == c;
  }

  /** The gate is not redundant: the sanitiser alone would turn the unmarked reply `ls`
      into a command, but the turn never runs it. */
  lemma GateIsNeeded(run: string -> RunOutcome)
    ensures CleanAiResponse("ls") == ["ls"]
    ensures Turn("ls", run) == None
  {
    LsFacts();
    assert [] + "ls" == "ls";
    SingleCommand([], "ls");
  }
}
