# AI shell command sanitiser — Dafny model

`ai_shell.py` is a small terminal assistant. A language model answers each user
request. A reply that starts with `!` is taken as a shell command line. It is
sanitised by `clean_ai_response`, and the surviving commands are joined with ` && `
and run in one shell by `execute_command`. The result is printed.

This project models that path. It covers the cleaning of the reply, the cut on
`&&`, the per-segment admission rule (an echo redirection, or a first `shlex` word on
the allow-list), the joining, the text of the report, and the `!` gate of the main loop.

Modules, one per file:

- `Wrappers` (`wrappers.dfy`): `Option`.
- `Seqs` (`seqs.dfy`): order-preserving subsequences.
- `PyStr` (`pystr.dfy`): the Python string operations the code relies on.
  - `str.isspace`, with its full character set.
  - `strip`, `lstrip()` and `lstrip(c)`.
  - `in`, `replace(pat, "")`, `split(sep)` and `sep.join`.
- `Shlex` (`shlex.dfy`): `shlex.split` in POSIX mode, as a character-by-character state machine. Whitespace splitting is on and comments are off. It has the two failures the library raises: "No closing quotation" and "No escaped character".
- `Sanitizer` (`sanitizer.dfy`): `clean_ai_response`.
- `Executor` (`executor.dfy`): `execute_command`. The shell is a parameter of type `string -> RunOutcome`, where an outcome is a finished process or an exception message.
- `Shell` (`shell.dfy`): the `startswith("!")` gate of `main`.

Behaviour of the code worth knowing:

- **Only the first shell word of a segment is checked.** `!ls ; sudo rm -rf /` is
  returned whole and would be handed to the shell (`Sanitizer.ChainedCommandPasses`).
  Any segment that mentions `echo` and `>` is returned whatever else it contains
  (`Sanitizer.EchoRedirectKept`).
- **Sanitising is not idempotent.** Re-sanitising a returned command behind a fresh
  `!` gives it back unchanged when it contains no `!` (`Sanitizer.ResanitizeUnmarked`).
  A returned command that starts with `!` never comes back unchanged
  (`Sanitizer.ResanitizeMarkedDiffers`), and such commands are returned: the later
  segment `!echo>f` survives the first pass with its `!` (`Sanitizer.ResanitizeCanDiffer`).
- **A tool name at the very start of a reply is not deleted.** `lstrip("!")` takes its
  `!` before the tool names are removed, so `!file_manager ls` keeps the segment
  `file_manager ls`, which is dropped only because `file_manager` is not an allowed word
  (`Sanitizer.LeadingToolNameKept`).
- **The tool names are deleted before the cut on `&&`.** Deleting one can join two `&`
  into a separator: `!ls &!web_search& rm x` yields `ls` and `rm x`.
- **Each tool name is deleted in a single pass.** A marked tool name can reappear once
  an inner one is deleted: `!ls !file_!file_managermanager` yields `ls !file_manager`.
- On success the report ignores standard error.
- The commands run joined into one shell line; there is no step-by-step mode.
- `clean_ai_response` does not itself require the leading `!`; only the main loop checks it.
- The text "No valid commands found." is also what a command could print, so the
  returned string alone does not tell whether anything ran (`Executor.NoCommandsAmbiguous`).

## Model

| member | source | states |
|---|---|---|
| PyStr.Strip | ai_shell.py:26 | `strip()` leaves no whitespace at either end and never lengthens the text |
| PyStr.StripUnique | ai_shell.py:26 | any stripped string surrounded only by whitespace in s is exactly `s.strip()`; padding determines its core |
| PyStr.StripPaddedAt | ai_shell.py:26 | `s.strip()` occurs in s with nothing but whitespace before and after it |
| PyStr.StripPadded | ai_shell.py:38 | whitespace around a stripped string is exactly what `strip()` removes |
| PyStr.StripFixed | ai_shell.py:38 | a string is stripped if and only if `strip()` leaves it unchanged, so stripping twice is stripping once |
| PyStr.LStripDropsSpace | ai_shell.py:26 | `lstrip()` returns a suffix of the input and everything it dropped is whitespace |
| PyStr.RStripDropsSpace | ai_shell.py:26 | the trailing half of `strip()` returns a prefix and everything it dropped is whitespace |
| PyStr.LStripChar | ai_shell.py:26 | `lstrip("!")` returns a suffix, drops only `!` characters, and the result does not start with `!` |
| PyStr.ContainsOccurs | ai_shell.py:41 | Python's `sub in s` holds exactly when sub occurs at some index of s |
| PyStr.StripKeepsAbsence | ai_shell.py:38 | a substring absent from a string is absent from its stripped form |
| PyStr.RemoveAllAbsent | ai_shell.py:31 | `replace(pat, "")` changes nothing when pat does not occur |
| PyStr.RemoveAllSkipsPrefix | ai_shell.py:31 | `replace` passes over a prefix that does not contain the first character of pat |
| PyStr.RemoveAllIsJoinedSplit | ai_shell.py:31 | `s.replace(pat, "")` equals `"".join(s.split(pat))` |
| PyStr.Split | ai_shell.py:34 | `split(sep)` yields at least one piece, no piece contains sep, the first piece is a prefix, and text without sep is one piece |
| PyStr.JoinSplit | ai_shell.py:34 | joining the pieces of `s.split(sep)` with sep gives back s |
| PyStr.SplitAfterPiece | ai_shell.py:34 | a leading piece inside which no occurrence of sep starts comes out of the split whole |
| PyStr.SplitPiecesShort | ai_shell.py:34 | no piece of `split(sep)` is longer than the text |
| PyStr.StripAllAt | ai_shell.py:38 | stripping every piece strips the k-th piece into the k-th position |
| Seqs.SubsequenceBounds | ai_shell.py:37-58 | a subsequence is no longer than its source and draws every element from it |
| Shlex.TokenizeUnquoted | ai_shell.py:47 | on text without quotes or backslashes, `shlex.split` never fails and yields the maximal runs of non-whitespace |
| Shlex.Tokenize | ai_shell.py:46-49 | `shlex.split(segment)` in POSIX mode, with `None` for the ValueError it raises; its behaviour is stated by `TokenizeUnquoted`, `TokenizeLeadingWord`, `TokenizeBlank`, `UnclosedQuoteFails` and `TrailingEscapeFails` |
| Shlex.TokenizeLeadingWord | ai_shell.py:47 | in a text without quotes or backslashes, a non-empty first word followed by whitespace or the end is the first token, and the rest splits into its words |
| Shlex.TokenizeBlank | ai_shell.py:47-52 | `shlex.split` yields no tokens exactly when the text is whitespace only (the `if not parts` case) |
| Shlex.UnclosedQuoteFails | ai_shell.py:46-49 | a quote opened outside quotes and never closed makes `shlex.split` raise |
| Shlex.TrailingEscapeFails | ai_shell.py:46-49 | an unescaped backslash at the very end, outside quotes, makes `shlex.split` raise |
| Shlex.RunAppend | ai_shell.py:47 | lexing a + b is lexing a and then continuing with b |
| Shlex.Words | ai_shell.py:47 | every word of a quote-free text is non-empty and holds no shell whitespace |
| Sanitizer.StripMarker | ai_shell.py:26 | the text after `lstrip("!").strip()` has no whitespace at either end and is no longer than the reply |
| Sanitizer.MarkerRemoved | ai_shell.py:26 | any run of leading `!` followed by a stripped text that does not start with `!` cleans to that text |
| Sanitizer.DropToolPrefixes | ai_shell.py:29-31 | deleting the marked tool names never lengthens the text, leaves it stripped, and changes nothing in a stripped text without `!` |
| Sanitizer.DropToolPrefixesUntouched | ai_shell.py:29-31 | a stripped text that none of the deletions changes passes through all of them unchanged |
| Sanitizer.CleanText | ai_shell.py:26-31 | the text that is cut on `&&` is stripped and no longer than the reply, and a stripped reply without `!` passes through both steps unchanged |
| Sanitizer.CleanTextUntouched | ai_shell.py:26-31 | behind leading markers, a stripped text in which no marked tool name occurs is exactly what is cut into segments |
| Sanitizer.SegmentsOf | ai_shell.py:34-38 | cutting on `&&` and stripping gives at least one segment; each is stripped and free of `&&` |
| Sanitizer.SegmentsShort | ai_shell.py:34-38 | no segment is longer than the cleaned text it is cut from |
| Sanitizer.SegmentsOfSingle | ai_shell.py:34-38 | a stripped text without `&&` is one segment, itself |
| Sanitizer.SegmentsOfPair | ai_shell.py:34-38 | stripped a and b without `&`, joined by `&&` with any whitespace around it, are the two segments a and b |
| Sanitizer.Admissible | ai_shell.py:40-56 | the keep test: the segment mentions `echo` and `>` (`IsEchoRedirect`), or `shlex.split` succeeds and its first word is allowed (`LeadsWithAllowed`); `CleanAiResponseExact` states that exactly the admissible segments are returned |
| Sanitizer.KeepAdmissible | ai_shell.py:37-56 | the loop keeps segments in their order, keeps only admissible ones, and keeps every admissible one as often as it occurs |
| Sanitizer.CleanAiResponse | ai_shell.py:14-58 | the result is an ordered selection of the segments; each is non-empty, stripped, free of `&&`, and an echo redirection or led by an allowed word |
| Sanitizer.CleanAiResponseExact | ai_shell.py:37-58 | a string is returned exactly when it is a segment of the reply and admissible, with the segment's multiplicity |
| Sanitizer.EmptyNotAdmissible | ai_shell.py:51-52 | the empty segment is never returned |
| Sanitizer.PlainSegmentAdmitted | ai_shell.py:46-56 | a segment with no quote, backslash or `>`, whose first word is allowed and followed by shell whitespace or the end, is admitted through the allow-list, not the echo exception |
| Sanitizer.EchoRedirectKept | ai_shell.py:40-43 | a segment mentioning `echo` and `>` is returned, whatever else it holds |
| Sanitizer.DisallowedLeaderDropped | ai_shell.py:54-56 | a segment that is not an echo redirection and whose first token is not allowed is never returned |
| Sanitizer.SudoNeverReturned | ai_shell.py:20-23 | `sudo rm -rf /` is not returned from any reply |
| Sanitizer.ChainedCommandPasses | ai_shell.py:46-56 | `!ls ; sudo rm -rf /` is returned whole: only the first shell word is checked |
| Sanitizer.BlankReply | ai_shell.py:51-52 | a reply whose only segment is blank yields no command |
| Sanitizer.TwoCommands | ai_shell.py:34-56 | a marked reply of two stripped admissible commands containing no `!` or `&`, chained with `&&` and optional whitespace, yields both, in order |
| Sanitizer.PromptExample | ai_shell.py:105-106 | the two-step example of the system prompt sanitises to `mkdir mydir` and `touch mydir/hello.txt` |
| Sanitizer.SingleCommand | ai_shell.py:26-58 | behind any run of `!`, one admissible stripped command without `!` or `&&` comes back alone and unchanged |
| Sanitizer.SingleRejected | ai_shell.py:26-58 | behind any run of `!`, one stripped text without `!` or `&&` that is not admissible yields no command |
| Sanitizer.LeadingToolNameKept | ai_shell.py:26-31 | a marked tool name at the very start of a reply is not deleted: `!file_manager ls` cleans to `file_manager ls`, which then yields no command |
| Sanitizer.ResanitizeUnmarked | ai_shell.py:14-58 | a returned command without `!` sanitises to itself again behind a fresh `!` |
| Sanitizer.ResanitizeMarkedDiffers | ai_shell.py:26 | a command starting with `!` never comes back unchanged from sanitising it behind a fresh `!`: every command of the second pass is shorter |
| Sanitizer.ResanitizeCanDiffer | ai_shell.py:26 | such commands are returned: the reply `!ls&&!echo>f` yields `!echo>f`, which re-sanitises to `echo>f` |
| Executor.Report | ai_shell.py:73-79 | the report is never empty; an exception report is "Execution error: " followed by the whole message, a failure report with the error header, and a success report is the stripped output or the success line |
| Executor.ReportSuccess | ai_shell.py:74-75 | a successful run reports its stripped output when it printed anything but whitespace, and the success line otherwise |
| Executor.ReportRaisedDecodes | ai_shell.py:78-79 | an exception's report starts with "Execution error: " and the rest is exactly the exception's message |
| Executor.ReportErrorDecodes | ai_shell.py:76-77 | after the error header, a failure report is exactly the stripped standard error |
| Executor.ReportIgnoresStderrOnSuccess | ai_shell.py:74-75 | on success, standard error never affects the report |
| Executor.ReportIgnoresCodeOnFailure | ai_shell.py:76-77 | on failure, neither the non-zero exit code nor the output affects the report |
| Executor.ReportAmbiguous | ai_shell.py:73-79 | when the exception message is non-empty and stripped, a success that prints that exception's report text is reported identically to the exception |
| Executor.ExecuteCommand | ai_shell.py:62-79 | nothing runs exactly when no command survives; then the no-command text is returned; otherwise the launched line is the sanitised commands joined with ` && `, it splits and strips back into them, and the report is the run's report |
| Executor.RecoverJoined | ai_shell.py:70 | joining cleaned commands with ` && ` loses nothing: splitting on `&&` and stripping recovers them |
| Executor.LaunchedPiecesAdmissible | ai_shell.py:64-73 | every `&&`-piece of the launched line is an admissible segment of the reply |
| Executor.NoCommandsAmbiguous | ai_shell.py:66-75 | a command printing "No valid commands found." returns the same text as a reply with no command |
| Shell.Turn | ai_shell.py:169-171 | a report is printed exactly when the reply starts with `!`, and it is the report of executing that reply |
| Shell.TurnSingleCommand | ai_shell.py:169-171 | a reply of `!` followed by one stripped admissible command without `!` or `&&` runs exactly that command and prints its report |
| Shell.GateIsNeeded | ai_shell.py:169 | the sanitiser alone would accept the unmarked reply `ls`, but the turn does not run it |

## Left out

- `call_ollama` and its streaming, the HTTP request, and the JSON decoding: these are network I/O. The reply is an input of the model.
- `load_awareness` and `get_tool_for_command` from `tool_registry`: tool_registry.py is not part of this model.
- The I/O of `main`: `input`, `print`, the `exit`/`quit` check and the loop. Only its `startswith("!")` gate is modelled.
- `subprocess.run`: the shell is the parameter `run`. It maps the command line to an exit code, stdout and stderr, or to the exception message that `str(e)` would give.
- Shlex.Tokenize: its contract is stated only for quote-free text, blank text, an unclosed quote and a trailing backslash. Quoted and escaped words are modelled by `Shlex.Step`, but have no closed-form characterisation.
- Sanitizer.DropToolPrefixes: the general effect of the three deletions is stated only through the partner lemmas. These are `DropToolPrefixesUntouched` and the `PyStr.RemoveAll*` lemmas; there is no closed form for arbitrary text.
- `shlex.split` on non-`str` input, and `split` with an empty separator, cannot arise here. The separator is the constant `&&`.
