/**
 * `execute_command` in ai_shell.py: sanitises the reply, joins the surviving
 * commands with ` && ` into one shell line, runs it, and turns what came back
 * into the text shown to the user.
 *
 * The shell itself is not modelled: the run is a parameter mapping the command
 * line to its outcome (a finished process or a raised exception).
 */
module Executor {
  import opened Wrappers
  import opened PyStr
  import opened Sanitizer

  /** Returned when no command survives sanitising; nothing is run then. */
  const NoCommandsMessage: string := "No valid commands found."

  /** The status prefix of the success and error reports, character for character as
      the source spells it (two caret pairs standing in for lost glyphs). */
  const StatusPrefix: string := " ^z   ^o "

  /** What a failed run's report starts with. */
  const ErrorHeader: string := StatusPrefix + "Error:\n"

  /** What the report of a raised exception starts with. */
  const ExceptionHeader: string := "Execution error: "

  /** What the commands are joined with: they run in one shell session, each only if
      the previous one succeeded. */
  const JoinSeparator: string := " && "

  /** The report of a successful run that printed nothing. */
  function SuccessMessage(line: string): string {
    StatusPrefix + "Command '" + line + "' executed successfully."
  }

  /** What `subprocess.run` produced: a finished process, or the exception it raised
      (its `str(e)`). */
  datatype RunOutcome =
    | Completed(returncode: int, stdout: string, stderr: string)
    | Raised(message: string)

  /** The line handed to the shell (None when the shell is not called) and the returned text. */
  datatype Execution = Execution(launched: Option<string>, report: string)

  // ---------------------------------------------------------------------------
  // The report (ai_shell.py:73-79)
  // ---------------------------------------------------------------------------

  /** The text returned for a run of `line` with the given outcome. */
  function Report(line: string, outcome: RunOutcome): (r: string)
    ensures r != []
    ensures outcome.Raised? ==> StartsWith(r, ExceptionHeader) && r[|ExceptionHeader|..] == outcome.message
    ensures outcome.Completed? && outcome.returncode != 0 ==> StartsWith(r, ErrorHeader)
    ensures outcome.Completed? && outcome.returncode == 0 ==>
              (IsStripped(r) && r == Strip(outcome.stdout)) || r == SuccessMessage(line)
  {
    match outcome
    case Raised(message) => ExceptionHeader + message
    case Completed(returncode, stdout, stderr) =>
      if returncode == 0 then
        var out := Strip(stdout);
        if out != [] then out else SuccessMessage(line)
      else ErrorHeader + Strip(stderr)
  }

  /** A successful run reports its output, stripped, whenever it printed anything but
      whitespace; otherwise it reports the line. */
  lemma ReportSuccess(line: string, stdout: string, stderr: string)
    ensures Strip(stdout) != [] ==> Report(line, Completed(0, stdout, stderr)) == Strip(stdout)
    ensures AllSpace(stdout) ==> Report(line, Completed(0, stdout, stderr)) == SuccessMessage(line)
  {
    if AllSpace(stdout) {
      StripPadded(stdout, [], []);
      assert stdout + [] + [] == stdout;
    }
  }

  /** A failed run's report gives back its standard error, stripped. */
  lemma ReportErrorDecodes(line: string, code: int, stdout: string, stderr: string)
    requires code != 0
    ensures Report(line, Completed(code, stdout, stderr))[|ErrorHeader|..] == Strip(stderr)
  {
  }

  /** An exception's report is the header followed by the exception's message, whole. */
  lemma ReportRaisedDecodes(line: string, message: string)
    ensures StartsWith(Report(line, Raised(message)), ExceptionHeader)
    ensures Report(line, Raised(message))[|ExceptionHeader|..] == message
  {
  }

  /** On success the standard error is never shown, not even when the output is empty. */
  lemma ReportIgnoresStderrOnSuccess(line: string, stdout: string, e1: string, e2: string)
    ensures Report(line, Completed(0, stdout, e1)) == Report(line, Completed(0, stdout, e2))
  {
  }

  /** On failure neither the particular exit code nor the output matters. */
  lemma ReportIgnoresCodeOnFailure(line: string, c1: int, c2: int, o1: string, o2: string, stderr: string)
    requires c1 != 0 && c2 != 0
    ensures Report(line, Completed(c1, o1, stderr)) == Report(line, Completed(c2, o2, stderr))
  {
  }

  /** The report does not tell outcomes apart: a successful run that prints what an
      exception report says is reported identically to the exception. */
  lemma ReportAmbiguous(line: string, message: string)
    requires IsStripped(message) && message != []
    ensures Report(line, Completed(0, ExceptionHeader + message, [])) == Report(line, Raised(message))
  {
    var text := ExceptionHeader + message;
    assert text[0] == 'E';
    assert text[|text| - 1] == message[|message| - 1];
    StripFixed(text);
  }

  // ---------------------------------------------------------------------------
  // Joining and running (ai_shell.py:62-79)
  // ---------------------------------------------------------------------------

  /** `execute_command(raw)`, with `run` standing for the shell. */
  function ExecuteCommand(raw: string, run: string -> RunOutcome): (e: Execution)
    ensures e.launched == None <==> CleanAiResponse(raw) == []
    ensures e.launched == None ==> e.report == NoCommandsMessage
    ensures e.launched.Some? ==> e.launched.value == Join(CleanAiResponse(raw), JoinSeparator)
    ensures e.launched.Some? ==>
              StripAll(Split(e.launched.value, Separator)) == CleanAiResponse(raw)
    ensures e.launched.Some? ==> e.report == Report(e.launched.value, run(e.launched.value))
  {
    var cmds := CleanAiResponse(raw);
    if cmds == [] then Execution(None, NoCommandsMessage)
    else
      var line := Join(cmds, JoinSeparator);
      RecoverJoined(cmds);
      Execution(Some(line), Report(line, run(line)))
  }

  /** Every `&&`-piece of the line handed to the shell is an admissible segment of the
      reply: the joining adds no command of its own. */
  lemma LaunchedPiecesAdmissible(raw: string, run: string -> RunOutcome)
    requires ExecuteCommand(raw, run).launched.Some?
    ensures forall piece <- StripAll(Split(ExecuteCommand(raw, run).launched.value, Separator)) ::
              piece in Segments(raw) && Admissible(piece)
  {
    CleanAiResponseExact(raw);
  }

  /** Cutting the joined line on `&&` and stripping the pieces gives the commands back. */
  lemma RecoverJoined(xs: seq<string>)
    requires |xs| >= 1
    requires forall x <- xs :: IsStripped(x) && !Contains(x, Separator)
    ensures StripAll(Split(Join(xs, JoinSeparator), Separator)) == xs
  {
    RecoverPadded([], xs);
    assert [] + Join(xs, JoinSeparator) == Join(xs, JoinSeparator);
  }

  lemma {:induction false} RecoverPadded(p: string, xs: seq<string>)
    requires AllSpace(p) && |xs| >= 1
    requires forall x <- xs :: IsStripped(x) && !Contains(x, Separator)
    ensures StripAll(Split(p + Join(xs, JoinSeparator), Separator)) == xs
    decreases |xs|
  {
    var x := xs[0];
    assert x in xs;
    if |xs| == 1 {
      assert xs == [x];
      RecoverLast(p, x);
    } else {
      var rest := Join(xs[1..], JoinSeparator);
      assert p + Join(xs, JoinSeparator) == p + x + JoinSeparator + rest;
      var tail := xs[1..];
      forall y | y in tail ensures IsStripped(y) && !Contains(y, Separator) {
        assert y in xs;
      }
      RecoverPadded(" ", tail);
      RecoverNext(p, x, rest, tail);
      assert [x] + tail == xs;
    }
  }

  lemma RecoverLast(p: string, x: string)
    requires AllSpace(p) && IsStripped(x) && !Contains(x, Separator)
    ensures StripAll(Split(p + Join([x], JoinSeparator), Separator)) == [x]
  {
    SpacesKeepAbsence(p, x);
    assert Split(p + x, Separator) == [p + x];
    StripAllSingle(p + x);
    StripPadded(p, x, []);
    assert p + x + [] == p + x;
  }

  lemma RecoverNext(p: string, x: string, rest: string, tail: seq<string>)
    requires AllSpace(p) && IsStripped(x) && !Contains(x, Separator)
    requires StripAll(Split(" " + rest, Separator)) == tail
    ensures StripAll(Split(p + x + JoinSeparator + rest, Separator)) == [x] + tail
  {
    SplitJoinedStep(p, x, rest);
    StripAllCons(p + x + " ", Split(" " + rest, Separator));
    StripPadded(p, x, " ");
  }

  /** Leading whitespace adds no occurrence of `&&`. */
  lemma {:induction false} SpacesKeepAbsence(p: string, x: string)
    requires AllSpace(p) && !Contains(x, Separator)
    ensures !Contains(p + x, Separator)
    decreases |p|
  {
    if p == [] {
      assert p + x == x;
    } else {
      assert !IsSpace('&');
      assert (p + x)[0] == p[0];
      assert (p + x)[1..] == p[1..] + x;
      SpacesKeepAbsence(p[1..], x);
    }
  }

  /** In `p + x + " " + "&&" + b` no `&&` starts before the separator itself. */
  lemma NoSeparatorInside(p: string, x: string, b: string)
    requires AllSpace(p) && !Contains(x, Separator)
    ensures forall i | 0 <= i < |p + x + " "| ::
              !StartsWith((p + x + " " + Separator + b)[i..], Separator)
  {
    var a := p + x + " ";
    var s := a + Separator + b;
    assert !IsSpace('&');
    ContainsOccurs(x, Separator);
    forall i | 0 <= i < |a| ensures !StartsWith(s[i..], Separator) {
      if i < |p| {
        assert s[i] == p[i] && IsSpace(p[i]);
      } else if i + 1 < |p| + |x| {
        var j := i - |p|;
        assert !OccursAt(x, Separator, j);
        assert x[j..j + 2] == [s[i], s[i + 1]];
      } else if i + 1 == |p| + |x| {
        assert s[i + 1] == ' ';
      } else {
        assert s[i] == ' ';
      }
      assert StartsWith(s[i..], Separator) ==> s[i] == '&' && s[i + 1] == '&' by {
        if StartsWith(s[i..], Separator) {
          assert s[i..][..2] == Separator;
        }
      }
    }
  }

  /** The first command of a joined line, with its padding, is the first piece of its split. */
  lemma SplitJoinedStep(p: string, x: string, rest: string)
    requires AllSpace(p) && !Contains(x, Separator)
    ensures Split(p + x + JoinSeparator + rest, Separator)
         == [p + x + " "] + Split(" " + rest, Separator)
  {
    var a := p + x + " ";
    assert p + x + JoinSeparator + rest == a + Separator + (" " + rest);
    NoSeparatorInside(p, x, " " + rest);
    SplitAfterPiece(a, Separator, " " + rest);
  }

  /** A line whose run prints the no-command text is reported exactly like a reply with
      no command at all. */
  lemma NoCommandsAmbiguous()
    ensures ExecuteCommand("!ls", _ => Completed(0, NoCommandsMessage, [])).launched == Some("ls")
    ensures ExecuteCommand("!ls", _ => Completed(0, NoCommandsMessage, [])).report == NoCommandsMessage
    ensures ExecuteCommand("!", _ => Completed(0, NoCommandsMessage, [])).launched == None
    ensures ExecuteCommand("!", _ => Completed(0, NoCommandsMessage, [])).report == NoCommandsMessage
  {
    LsCommand();
    NoCommandsStripped();
    EmptyReply();
  }

  lemma LsCommand()
    ensures CleanAiResponse("!ls") == ["ls"]
  {
    LsFacts();
    SingleCommand("!", "ls");
  }

  lemma LsFacts()
    ensures "!ls" == "!" + "ls" && AllMarkers("!")
    ensures IsStripped("ls") && Marker !in "ls" && !Contains("ls", Separator) && Admissible("ls")
  {
    assert "ls" == "ls" + [];
    PlainSegmentAdmitted("ls", []);
    ContainsFirstChar("ls", Separator);
  }

  lemma NoCommandsStripped()
    ensures Strip(NoCommandsMessage) == NoCommandsMessage
  {
    assert IsStripped(NoCommandsMessage);
    StripFixed(NoCommandsMessage);
  }

  lemma EmptyReply()
    ensures CleanAiResponse("!") == []
  {
    EmptyReplySegments();
    BlankReply("!");
  }

  lemma EmptyReplySegments()
    ensures Segments("!") == [[]]
  {
    EmptyReplyText();
    assert Split([], Separator) == [[]];
    StripAllSingle([]);
    StripFixed([]);
    SegmentsThroughText("!", [], [[]]);
  }

  lemma EmptyReplyText()
    ensures CleanText("!") == []
  {
    assert "!" == "!" + [];
    CleanTextMarked("!", []);
  }
}
