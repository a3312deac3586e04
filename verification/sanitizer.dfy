/**
 * `clean_ai_response` in ai_shell.py: turns a raw model reply into the ordered
 * list of command segments that may be handed to the shell.
 *
 * The reply is cleaned (leading markers and tool-name prefixes removed), cut
 * on the literal `&&`, and each stripped segment is kept when it is an echo
 * redirection or when its first shell word is on the allow-list.
 */
module Sanitizer {
  import opened Wrappers
  import opened Seqs
  import opened PyStr
  import opened Shlex

  /** The leading words a segment may start with. */
  const AllowedCommands: seq<string> :=
    ["ls", "cd", "pwd", "mkdir", "touch", "rm", "cp", "mv", "cat", "echo", "git", "npm", "pip"]

  /** Tool names whose marked form (`!` + name) is deleted wherever it appears. */
  const ToolPrefixes: seq<string> := ["file_manager", "web_search", "system_control"]

  /** The character that marks a reply as a command. */
  const Marker: char := '!'

  /** The literal the reply is cut on. */
  const Separator: string := "&&"

  /** A run of markers, as `lstrip("!")` removes it. */
  predicate AllMarkers(marks: string) {
    forall k | 0 <= k < |marks| :: marks[k] == Marker
  }

  // ---------------------------------------------------------------------------
  // Cleaning the reply (ai_shell.py:26-31)
  // ---------------------------------------------------------------------------

  /** Step 1: `raw.lstrip("!").strip()`. */
  function StripMarker(raw: string): (text: string)
    ensures IsStripped(text)
    ensures |text| <= |raw|
  {
    Strip(LStripChar(raw, Marker))
  }

  /** Step 1 removes every leading marker and then the surrounding whitespace. */
  lemma MarkerRemoved(marks: string, x: string)
    requires AllMarkers(marks)
    requires IsStripped(x) && (x == [] || x[0] != Marker)
    ensures StripMarker(marks + x) == x
  {
    var s := marks + x;
    var r := LStripChar(s, Marker);
    assert s[|marks|..] == x;
    if x != [] {
      assert s[|marks|] == x[0];
    }
    assert |r| == |x|;
    StripFixed(x);
  }

  /** Step 2: for each tool name in turn, `text.replace("!" + name, "").strip()`. */
  function DropToolPrefixes(text: string, tools: seq<string>): (r: string)
    ensures |r| <= |text|
    ensures IsStripped(text) || tools != [] ==> IsStripped(r)
    ensures IsStripped(text) && Marker !in text ==> r == text
    decreases |tools|
  {
    if tools == [] then text
    else
      var next := Strip(RemoveAll(text, [Marker] + tools[0]));
      ContainsFirstChar(text, [Marker] + tools[0]);
      RemoveAllAbsent(text, [Marker] + tools[0]);
      StripFixed(text);
      DropToolPrefixes(next, tools[1..])
  }

  /** Step 2 leaves a stripped text alone when no tool name occurs in it marked. */
  lemma {:induction false} DropToolPrefixesUntouched(text: string, tools: seq<string>)
    requires IsStripped(text)
    requires forall t <- tools :: RemoveAll(text, [Marker] + t) == text
    ensures DropToolPrefixes(text, tools) == text
    decreases |tools|
  {
    if tools != [] {
      StripFixed(text);
      assert Strip(RemoveAll(text, [Marker] + tools[0])) == text;
      DropToolPrefixesUntouched(text, tools[1..]);
    }
  }

  /** Steps 1 and 2: the text that is cut into segments. */
  function CleanText(raw: string): (text: string)
    ensures IsStripped(text) && |text| <= |raw|
    ensures IsStripped(raw) && Marker !in raw ==> text == raw
  {
    UnmarkedStripped(raw);
    DropToolPrefixes(StripMarker(raw), ToolPrefixes)
  }

  /** Step 1 leaves a stripped reply without markers as it is. */
  lemma UnmarkedStripped(raw: string)
    ensures IsStripped(raw) && Marker !in raw ==> StripMarker(raw) == raw
  {
    if IsStripped(raw) && Marker !in raw {
      assert [] + raw == raw;
      MarkerRemoved([], raw);
    }
  }

  /** Behind leading markers, a stripped text free of marked tool names is the cleaned text. */
  lemma CleanTextUntouched(marks: string, x: string)
    requires AllMarkers(marks)
    requires IsStripped(x) && (x == [] || x[0] != Marker)
    requires forall t <- ToolPrefixes :: RemoveAll(x, [Marker] + t) == x
    ensures CleanText(marks + x) == x
  {
    MarkerRemoved(marks, x);
    DropToolPrefixesUntouched(x, ToolPrefixes);
  }

  /** Behind leading markers, a stripped text without markers is the cleaned text. */
  lemma CleanTextMarked(marks: string, x: string)
    requires AllMarkers(marks)
    requires IsStripped(x) && Marker !in x
    ensures CleanText(marks + x) == x
  {
    MarkerRemoved(marks, x);
  }

  // ---------------------------------------------------------------------------
  // Cutting into segments (ai_shell.py:34, 38)
  // ---------------------------------------------------------------------------

  /** Steps 3 and 4 on a cleaned text: the pieces between occurrences of `&&`, each stripped. */
  function SegmentsOf(text: string): (segs: seq<string>)
    ensures |segs| >= 1
    ensures forall seg <- segs :: IsStripped(seg) && !Contains(seg, Separator)
  {
    var pieces := Split(text, Separator);
    StripAllKeepsAbsence(pieces, Separator);
    StripAll(pieces)
  }

  /** A stripped text without `&&` is a single segment, itself. */
  lemma SegmentsOfSingle(text: string)
    requires IsStripped(text) && !Contains(text, Separator)
    ensures SegmentsOf(text) == [text]
  {
    assert Split(text, Separator) == [text];
    StripAllSingle(text);
    StripFixed(text);
  }

  /** Two stripped pieces joined by `&&`, with whitespace around it, are two segments. */
  lemma SegmentsOfPair(a: string, p: string, q: string, b: string)
    requires IsStripped(a) && IsStripped(b) && AllSpace(p) && AllSpace(q)
    requires '&' !in a + p && '&' !in b
    ensures SegmentsOf(a + p + Separator + q + b) == [a, b]
  {
    SplitPair(a + p, q, b);
    PadFacts(a, p, q, b);
    SegmentsOfPieces(a + p + Separator + q + b, a + p, q + b);
  }

  lemma PadFacts(a: string, p: string, q: string, b: string)
    requires IsStripped(a) && IsStripped(b) && AllSpace(p) && AllSpace(q)
    ensures Strip(a + p) == a && Strip(q + b) == b
  {
    assert [] + a + p == a + p;
    StripPadded([], a, p);
    assert q + b + [] == q + b;
    StripPadded(q, b, []);
  }

  lemma SegmentsOfPieces(text: string, x: string, y: string)
    requires Split(text, Separator) == [x, y]
    ensures SegmentsOf(text) == [Strip(x), Strip(y)]
  {
    StripAllPair(x, y);
  }

  /** Cutting `a && q b` when `&` occurs in neither a nor b and q is whitespace. */
  lemma SplitPair(a: string, q: string, b: string)
    requires AllSpace(q) && '&' !in a && '&' !in b
    ensures Split(a + Separator + q + b, Separator) == [a, q + b]
  {
    assert a + Separator + q + b == a + Separator + (q + b);
    SplitAfterPlainPiece(a, Separator, q + b);
    assert '&' !in q by {
      forall k | 0 <= k < |q| ensures q[k] != '&' { assert IsSpace(q[k]); }
    }
    ContainsFirstChar(q + b, Separator);
  }

  /** No segment is longer than the text it was cut from. */
  lemma SegmentsShort(text: string)
    ensures forall seg <- SegmentsOf(text) :: |seg| <= |text|
  {
    var pieces := Split(text, Separator);
    SplitPiecesShort(text, Separator);
    forall k | 0 <= k < |pieces|
      ensures |StripAll(pieces)[k]| <= |text|
    {
      StripAllAt(pieces, k);
      assert pieces[k] in pieces;
    }
  }

  /** The segments of a raw reply. */
  function Segments(raw: string): seq<string> {
    SegmentsOf(CleanText(raw))
  }

  lemma SegmentsThroughText(raw: string, x: string, segs: seq<string>)
    requires CleanText(raw) == x && SegmentsOf(x) == segs
    ensures Segments(raw) == segs
  {
  }

  // ---------------------------------------------------------------------------
  // Which segments are kept (ai_shell.py:37-56)
  // ---------------------------------------------------------------------------

  /** The exception at ai_shell.py:41: the segment mentions `echo` and a `>`. */
  predicate IsEchoRedirect(seg: string) {
    Contains(seg, "echo") && Contains(seg, ">")
  }

  /** `shlex.split` succeeds on the segment and its first word is allowed. */
  predicate LeadsWithAllowed(seg: string) {
    match Tokenize(seg)
    case None => false
    case Some(parts) => |parts| > 0 && parts[0] in AllowedCommands
  }

  predicate Admissible(seg: string) {
    IsEchoRedirect(seg) || LeadsWithAllowed(seg)
  }

  /** The empty segment (what a blank piece strips to) is never admissible. */
  lemma EmptyNotAdmissible()
    ensures !Admissible([])
  {
    assert Tokenize([]) == Some([]);
  }

  lemma AdmissibleNonEmpty(c: string)
    requires Admissible(c)
    ensures c != []
  {
    EmptyNotAdmissible();
  }

  /** A plain segment `w rest` with an allowed first word w and no `>` is admitted
      by its first word alone. */
  lemma PlainSegmentAdmitted(w: string, rest: string)
    requires w in AllowedCommands
    requires Unquoted(w + rest) && '>' !in w + rest
    requires rest == [] || IsShellSpace(rest[0])
    ensures Admissible(w + rest) && !IsEchoRedirect(w + rest)
  {
    AllowedIsWord(w);
    TokenizeLeadingWord(w, rest);
    ContainsFirstChar(w + rest, ">");
  }

  /** Every allowed command name is one non-empty shell word. */
  lemma AllowedIsWord(w: string)
    requires w in AllowedCommands
    ensures w != [] && forall k | 0 <= k < |w| :: !IsShellSpace(w[k])
  {
  }

  /** The loop at ai_shell.py:37-56: keeps the admissible segments in their order. */
  function KeepAdmissible(segs: seq<string>): (kept: seq<string>)
    ensures IsSubsequence(kept, segs)
    ensures forall c <- kept :: Admissible(c)
    ensures forall c :: multiset(kept)[c] == if Admissible(c) then multiset(segs)[c] else 0
    decreases |segs|
  {
    if segs == [] then []
    else
      var rest := KeepAdmissible(segs[1..]);
      assert segs == [segs[0]] + segs[1..];
      if Admissible(segs[0]) then [segs[0]] + rest else rest
  }

  /** A single admissible segment is kept. */
  lemma KeepSingle(c: string)
    requires Admissible(c)
    ensures KeepAdmissible([c]) == [c]
  {
    assert KeepAdmissible([c][1..]) == [];
  }

  /** Two admissible segments are both kept. */
  lemma KeepPair(a: string, b: string)
    requires Admissible(a) && Admissible(b)
    ensures KeepAdmissible([a, b]) == [a, b]
  {
    assert [a, b][1..] == [b];
    KeepSingle(b);
  }

  // ---------------------------------------------------------------------------
  // The whole function (ai_shell.py:14-58)
  // ---------------------------------------------------------------------------

  /** `clean_ai_response(raw)`. */
  function CleanAiResponse(raw: string): (cmds: seq<string>)
    ensures IsSubsequence(cmds, Segments(raw)) && |cmds| <= |Segments(raw)|
    ensures forall c <- cmds :: c != [] && IsStripped(c) && !Contains(c, Separator)
    ensures forall c <- cmds :: IsEchoRedirect(c) || LeadsWithAllowed(c)
  {
    var segs := Segments(raw);
    var cmds := KeepAdmissible(segs);
    SubsequenceBounds(cmds, segs);
    EmptyNotAdmissible();
    cmds
  }

  /** A segment is returned exactly when it is admissible, as often as it occurs. */
  lemma CleanAiResponseExact(raw: string)
    ensures forall c :: c in CleanAiResponse(raw) <==> c in Segments(raw) && Admissible(c)
    ensures forall c :: multiset(CleanAiResponse(raw))[c]
                     == if Admissible(c) then multiset(Segments(raw))[c] else 0
  {
    var segs := Segments(raw);
    var cmds := CleanAiResponse(raw);
    assert forall c :: c in cmds <==> multiset(cmds)[c] > 0;
    assert forall c :: c in segs <==> multiset(segs)[c] > 0;
  }

  /** An echo redirection segment is returned verbatim, whatever else it contains. */
  lemma EchoRedirectKept(raw: string, k: int)
    requires 0 <= k < |Segments(raw)| && IsEchoRedirect(Segments(raw)[k])
    ensures Segments(raw)[k] in CleanAiResponse(raw)
  {
    CleanAiResponseExact(raw);
  }

  /** A segment that is not an echo redirection and whose first word is not allowed
      never reaches the output, wherever it stands in the reply. */
  lemma DisallowedLeaderDropped(raw: string, seg: string, parts: seq<string>)
    requires !IsEchoRedirect(seg)
    requires Tokenize(seg) == Some(parts) && |parts| > 0 && parts[0] !in AllowedCommands
    ensures seg !in CleanAiResponse(raw)
  {
    CleanAiResponseExact(raw);
  }

  /** `sudo rm -rf /` is dropped from any reply. */
  lemma SudoNeverReturned(raw: string)
    ensures "sudo rm -rf /" !in CleanAiResponse(raw)
  {
    SudoRejected();
    InadmissibleDropped(raw, "sudo rm -rf /");
  }

  lemma InadmissibleDropped(raw: string, seg: string)
    requires !Admissible(seg)
    ensures seg !in CleanAiResponse(raw)
  {
    CleanAiResponseExact(raw);
  }

  lemma SudoRejected()
    ensures !Admissible("sudo rm -rf /")
  {
    SudoNotEcho();
    SudoTokens();
    SudoNotAllowed();
    LeaderNotAllowed("sudo rm -rf /", "sudo", Words(" rm -rf /"));
  }

  lemma SudoNotAllowed()
    ensures "sudo" !in AllowedCommands
  {
  }

  /** A segment that is not an echo redirection and whose first word is not allowed
      is not admissible. */
  lemma LeaderNotAllowed(seg: string, w: string, rest: seq<string>)
    requires !IsEchoRedirect(seg) && w !in AllowedCommands
    requires Tokenize(seg) == Some([w] + rest)
    ensures !Admissible(seg)
  {
  }

  lemma SudoNotEcho()
    ensures !IsEchoRedirect("sudo rm -rf /")
  {
    ContainsFirstChar("sudo rm -rf /", ">");
  }

  lemma SudoTokens()
    ensures Tokenize("sudo rm -rf /") == Some(["sudo"] + Words(" rm -rf /"))
  {
    assert "sudo rm -rf /" == "sudo" + " rm -rf /";
    assert forall k | 0 <= k < |"sudo"| :: !IsShellSpace("sudo"[k]);
    TokenizeLeadingWord("sudo", " rm -rf /");
  }

  /** Only the first shell word is checked: a `;` chains a disallowed command onto an
      allowed one, and the whole segment is returned for the shell to run. */
  lemma ChainedCommandPasses()
    ensures CleanAiResponse("!ls ; sudo rm -rf /") == ["ls ; sudo rm -rf /"]
  {
    ChainedFacts();
    ChainedShape();
    ChainedNoSeparator();
    PlainSegmentAdmitted("ls", " ; sudo rm -rf /");
    SingleCommand("!", "ls ; sudo rm -rf /");
  }

  lemma ChainedFacts()
    ensures "ls ; sudo rm -rf /" == "ls" + " ; sudo rm -rf /"
    ensures Unquoted("ls ; sudo rm -rf /") && '>' !in "ls ; sudo rm -rf /"
  {
  }

  lemma ChainedShape()
    ensures "!ls ; sudo rm -rf /" == "!" + "ls ; sudo rm -rf /" && AllMarkers("!")
    ensures IsStripped("ls ; sudo rm -rf /") && Marker !in "ls ; sudo rm -rf /"
  {
  }

  lemma ChainedNoSeparator()
    ensures !Contains("ls ; sudo rm -rf /", Separator)
  {
    var c := "ls ; sudo rm -rf /";
    assert '&' !in c;
    ContainsFirstChar(c, Separator);
  }

  /** A reply whose only segment is admissible yields that segment. */
  lemma OneCommand(raw: string, c: string)
    requires Segments(raw) == [c] && Admissible(c)
    ensures CleanAiResponse(raw) == [c]
  {
    KeepSingle(c);
  }

  /** A reply that cleans to nothing yields no command. */
  lemma BlankReply(raw: string)
    requires Segments(raw) == [[]]
    ensures CleanAiResponse(raw) == []
  {
    EmptyNotAdmissible();
    assert KeepAdmissible([[]][1..]) == [];
  }

  /** A reply whose two segments are admissible yields both, in order. */
  lemma BothCommands(raw: string, a: string, b: string)
    requires Segments(raw) == [a, b] && Admissible(a) && Admissible(b)
    ensures CleanAiResponse(raw) == [a, b]
  {
    KeepPair(a, b);
  }

  /** A marked reply holding two admissible commands chained with `&&` yields both, in order. */
  lemma TwoCommands(a: string, p: string, q: string, b: string)
    requires IsStripped(a) && IsStripped(b) && AllSpace(p) && AllSpace(q)
    requires '&' !in a + p && '&' !in b
    requires Marker !in a + p && Marker !in q + b
    requires Admissible(a) && Admissible(b)
    ensures CleanAiResponse([Marker] + (a + p + Separator + q + b)) == [a, b]
  {
    AdmissibleNonEmpty(a);
    AdmissibleNonEmpty(b);
    TwoCommandsSegments(a, p, q, b);
    BothCommands([Marker] + (a + p + Separator + q + b), a, b);
  }

  lemma TwoCommandsSegments(a: string, p: string, q: string, b: string)
    requires IsStripped(a) && IsStripped(b) && AllSpace(p) && AllSpace(q)
    requires '&' !in a + p && '&' !in b
    requires Marker !in a + p && Marker !in q + b
    requires a != [] && b != []
    ensures Segments([Marker] + (a + p + Separator + q + b)) == [a, b]
  {
    var x := a + p + Separator + q + b;
    TwoCommandsText(a, p, q, b);
    SegmentsOfPair(a, p, q, b);
    SegmentsThroughText([Marker] + x, x, [a, b]);
  }

  lemma TwoCommandsText(a: string, p: string, q: string, b: string)
    requires IsStripped(a) && IsStripped(b) && AllSpace(p)
    requires a != [] && b != []
    requires Marker !in a + p && Marker !in q + b
    ensures CleanText([Marker] + (a + p + Separator + q + b)) == a + p + Separator + q + b
  {
    var x := a + p + Separator + q + b;
    assert x[0] == a[0] && x[|x| - 1] == b[|b| - 1];
    assert Marker !in x by {
      assert x == (a + p) + Separator + (q + b);
    }
    CleanTextMarked([Marker], x);
  }

  /** The two-step example of the system prompt (ai_shell.py:105-106). */
  lemma PromptExample()
    ensures CleanAiResponse("!mkdir mydir && touch mydir/hello.txt")
         == ["mkdir mydir", "touch mydir/hello.txt"]
  {
    PromptExampleAdmitted();
    PromptExampleShape();
    PromptExampleText();
    TwoCommands("mkdir mydir", " ", " ", "touch mydir/hello.txt");
  }

  lemma PromptExampleAdmitted()
    ensures Admissible("mkdir mydir") && Admissible("touch mydir/hello.txt")
  {
    MkdirFacts();
    PlainSegmentAdmitted("mkdir", " mydir");
    TouchFacts();
    PlainSegmentAdmitted("touch", " mydir/hello.txt");
  }

  lemma MkdirFacts()
    ensures "mkdir mydir" == "mkdir" + " mydir"
    ensures Unquoted("mkdir mydir") && '>' !in "mkdir mydir"
  {
  }

  lemma TouchFacts()
    ensures "touch mydir/hello.txt" == "touch" + " mydir/hello.txt"
    ensures Unquoted("touch mydir/hello.txt") && '>' !in "touch mydir/hello.txt"
  {
  }

  lemma PromptExampleShape()
    ensures IsStripped("mkdir mydir") && IsStripped("touch mydir/hello.txt")
    ensures AllSpace(" ") && '&' !in "mkdir mydir" + " " && '&' !in "touch mydir/hello.txt"
    ensures Marker !in "mkdir mydir" + " " && Marker !in " " + "touch mydir/hello.txt"
  {
  }

  lemma PromptExampleText()
    ensures "!mkdir mydir && touch mydir/hello.txt"
         == [Marker] + ("mkdir mydir" + " " + Separator + " " + "touch mydir/hello.txt")
  {
    PromptTextSplit();
    PromptTextHead();
  }

  lemma PromptTextSplit()
    ensures "!mkdir mydir && touch mydir/hello.txt" == "!mkdir mydir && " + "touch mydir/hello.txt"
  {
  }

  lemma PromptTextHead()
    ensures "!mkdir mydir && " == [Marker] + "mkdir mydir" + " " + Separator + " "
  {
  }

  // ---------------------------------------------------------------------------
  // Sanitising twice
  // ---------------------------------------------------------------------------

  /** Behind any run of markers, an admissible stripped command without markers or
      `&&` comes back alone and unchanged. */
  lemma SingleCommand(marks: string, c: string)
    requires AllMarkers(marks)
    requires IsStripped(c) && Marker !in c && !Contains(c, Separator) && Admissible(c)
    ensures CleanAiResponse(marks + c) == [c]
  {
    CleanTextMarked(marks, c);
    SegmentsOfSingle(c);
    SegmentsThroughText(marks + c, c, [c]);
    OneCommand(marks + c, c);
  }

  /** Behind any run of markers, a stripped text without markers or `&&` that is not
      admissible yields no command at all. */
  lemma SingleRejected(marks: string, c: string)
    requires AllMarkers(marks)
    requires IsStripped(c) && Marker !in c && !Contains(c, Separator) && !Admissible(c)
    ensures CleanAiResponse(marks + c) == []
  {
    CleanTextMarked(marks, c);
    SegmentsOfSingle(c);
    SegmentsThroughText(marks + c, c, [c]);
    assert KeepAdmissible([c][1..]) == [];
  }

  /** A marked tool name at the very start of a reply is never deleted: the `lstrip`
      of ai_shell.py:26 takes its marker before ai_shell.py:31 looks for it, and the
      bare tool name then fails the first-word check. */
  lemma LeadingToolNameKept()
    ensures CleanText("!file_manager ls") == "file_manager ls"
    ensures CleanAiResponse("!file_manager ls") == []
  {
    ToolNameFacts();
    CleanTextMarked("!", "file_manager ls");
    ToolNameRejected();
    SingleRejected("!", "file_manager ls");
  }

  lemma ToolNameFacts()
    ensures "!file_manager ls" == "!" + "file_manager ls"
    ensures AllMarkers("!") && IsStripped("file_manager ls") && Marker !in "file_manager ls"
  {
  }

  lemma ToolNameRejected()
    ensures !Contains("file_manager ls", Separator) && !Admissible("file_manager ls")
  {
    ToolNameUnchained();
    ToolNameNotEcho();
    ToolNameTokens();
    ToolNameNotAllowed();
    LeaderNotAllowed("file_manager ls", "file_manager", Words(" ls"));
  }

  lemma ToolNameUnchained()
    ensures !Contains("file_manager ls", Separator)
  {
    ContainsFirstChar("file_manager ls", Separator);
  }

  lemma ToolNameNotEcho()
    ensures !IsEchoRedirect("file_manager ls")
  {
    ContainsFirstChar("file_manager ls", ">");
  }

  lemma ToolNameNotAllowed()
    ensures "file_manager" !in AllowedCommands
  {
  }

  lemma ToolNameTokens()
    ensures Tokenize("file_manager ls") == Some(["file_manager"] + Words(" ls"))
  {
    assert "file_manager ls" == "file_manager" + " ls";
    assert forall k | 0 <= k < |"file_manager"| :: !IsShellSpace("file_manager"[k]);
    TokenizeLeadingWord("file_manager", " ls");
  }

  /** Sanitising a returned command again, behind a fresh marker, gives exactly that
      command back, provided it contains no marker character itself. */
  lemma ResanitizeUnmarked(raw: string, c: string)
    requires c in CleanAiResponse(raw) && Marker !in c
    ensures CleanAiResponse([Marker] + c) == [c]
  {
    CleanAiResponseExact(raw);
    ResanitizeCommand(c);
  }

  lemma ResanitizeCommand(c: string)
    requires IsStripped(c) && Marker !in c && !Contains(c, Separator) && Admissible(c)
    ensures CleanAiResponse([Marker] + c) == [c]
  {
    SingleCommand([Marker], c);
  }

  /** A command starting with the marker never survives re-sanitising unchanged: the
      second pass strips at least two markers, so every segment it returns is shorter. */
  lemma ResanitizeMarkedDiffers(c: string)
    requires c != [] && c[0] == Marker
    ensures c !in CleanAiResponse([Marker] + c)
    ensures forall x <- CleanAiResponse([Marker] + c) :: |x| < |c|
  {
    var raw := [Marker] + c;
    MarkedTextShorter(c);
    SegmentsShort(CleanText(raw));
    forall x <- CleanAiResponse(raw) ensures |x| < |c| {
      CleanAiResponseExact(raw);
      assert x in Segments(raw);
    }
  }

  /** Behind an extra marker, a text starting with the marker cleans to something shorter. */
  lemma MarkedTextShorter(c: string)
    requires c != [] && c[0] == Marker
    ensures |CleanText([Marker] + c)| < |c|
  {
    var s := [Marker] + c;
    var r := LStripChar(s, Marker);
    assert s[0] == Marker && s[1] == Marker;
    assert r == s[|s| - |r|..];
    assert |s| - |r| >= 2;
  }

  /** Without the proviso the re-sanitising round trip fails: a later segment may itself
      begin with the marker, and the second pass strips it. */
  lemma ResanitizeCanDiffer()
    ensures "!echo>f" in CleanAiResponse("!ls&&!echo>f")
    ensures CleanAiResponse("!" + "!echo>f") == ["echo>f"]
  {
    CanDifferFirstSegments();
    CanDifferEcho();
    EchoRedirectKept("!ls&&!echo>f", 1);
    CanDifferSecondShape();
    SingleCommand("!!", "echo>f");
  }

  lemma CanDifferFirstSegments()
    ensures Segments("!ls&&!echo>f") == ["ls", "!echo>f"]
  {
    var x := "ls&&!echo>f";
    CanDifferFirstText();
    CanDifferUntouched();
    CleanTextUntouched("!", x);
    SegmentsOfPair("ls", [], [], "!echo>f");
    SegmentsThroughText("!" + x, x, ["ls", "!echo>f"]);
  }

  lemma CanDifferFirstText()
    ensures "!ls&&!echo>f" == "!" + "ls&&!echo>f"
    ensures "ls&&!echo>f" == "ls" + [] + Separator + [] + "!echo>f"
    ensures AllMarkers("!") && IsStripped("ls&&!echo>f") && IsStripped("ls") && IsStripped("!echo>f")
    ensures AllSpace([]) && '&' !in "ls" + [] && '&' !in "!echo>f"
  {
  }

  lemma CanDifferUntouched()
    ensures forall t <- ToolPrefixes :: RemoveAll("ls&&!echo>f", [Marker] + t) == "ls&&!echo>f"
  {
    forall t <- ToolPrefixes ensures RemoveAll("ls&&!echo>f", [Marker] + t) == "ls&&!echo>f" {
      assert "ls&&!echo>f" == "ls&&" + "!echo>f";
      RemoveAllSkipsPrefix("ls&&", "!echo>f", [Marker] + t);
    }
  }

  lemma CanDifferEcho()
    ensures IsEchoRedirect("!echo>f") && IsEchoRedirect("echo>f")
  {
    assert OccursAt("!echo>f", "echo", 1);
    assert OccursAt("!echo>f", ">", 5);
    ContainsOccurs("!echo>f", "echo");
    ContainsOccurs("!echo>f", ">");
    assert StartsWith("echo>f", "echo");
    assert OccursAt("echo>f", ">", 4);
    ContainsOccurs("echo>f", ">");
  }

  lemma CanDifferSecondShape()
    ensures "!" + "!echo>f" == "!!" + "echo>f"
    ensures AllMarkers("!!") && IsStripped("echo>f") && Marker !in "echo>f"
    ensures !Contains("echo>f", Separator)
  {
    ContainsFirstChar("echo>f", Separator);
  }
}
