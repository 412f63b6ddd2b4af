/** Deciding to retain a raw tree (src/session.rs), and reading that decision back (src/api.rs). */
module RawMarker {
  import opened RawEvidence
  import opened Wrappers
  import opened Bytes
  import Utf8

  // ---- The decision --------------------------------------------------------

  datatype Phase = Normal | PanicRecovery | SetupFailure | ServiceRestart

  datatype Teardown = Teardown(complete: bool, quiescent: bool)

  function RetentionDecision(teardown: Teardown, acceptedArchive: bool, phase: Phase): Option<Cause> {
    if !teardown.quiescent then Some(ContainerQuiescenceUnproved)
    else if !acceptedArchive then
      Some(match phase
           case Normal => RequiredBundleFailure
           case PanicRecovery => PanicRecoveryBundleFailure
           case SetupFailure => SetupForensicBundleFailure
           case ServiceRestart => ServiceRestartBundleFailure)
    else if !teardown.complete then Some(ContainerTeardownIncomplete)
    else None
  }

  /**
   * A decision can be told apart from a contradiction at the next startup exactly when no bundle
   * was accepted without quiescence.
   */
  lemma DecisionFitsExactly(teardown: Teardown, accepted: bool, phase: Phase)
    ensures (RetentionDecision(teardown, accepted, phase).Some? ==>
               CauseFits(RetentionDecision(teardown, accepted, phase).value, accepted))
            <==> !(accepted && !teardown.quiescent)
    ensures RetentionDecision(teardown, accepted, phase).None? <==> accepted && teardown.quiescent && teardown.complete
    ensures RetentionDecision(teardown, accepted, phase) == Some(ContainerQuiescenceUnproved) <==> !teardown.quiescent
    ensures RetentionDecision(teardown, accepted, phase) == Some(ContainerTeardownIncomplete) <==>
            teardown.quiescent && accepted && !teardown.complete
    ensures teardown.quiescent && !accepted ==>
              var decision := RetentionDecision(teardown, accepted, phase);
              && (decision == Some(RequiredBundleFailure) <==> phase.Normal?)
              && (decision == Some(PanicRecoveryBundleFailure) <==> phase.PanicRecovery?)
              && (decision == Some(SetupForensicBundleFailure) <==> phase.SetupFailure?)
              && (decision == Some(ServiceRestartBundleFailure) <==> phase.ServiceRestart?)
  {
  }

  // ---- The marker ----------------------------------------------------------

  const HEADER := "RAW_SESSION_TREE_RETAINED"
  const MAX_MARKER_BYTES: nat := 4096

  function CauseName(cause: Cause): string {
    match cause
    case RequiredBundleFailure => "required-bundle-failure"
    case PanicRecoveryBundleFailure => "panic-recovery-bundle-failure"
    case SetupForensicBundleFailure => "setup-forensic-bundle-failure"
    case ServiceRestartBundleFailure => "service-restart-bundle-failure"
    case ContainerQuiescenceUnproved => "container-quiescence-unproved"
    case ContainerTeardownIncomplete => "container-teardown-incomplete"
    case RawStateCleanupFailure => "raw-state-cleanup-failure"
  }

  const CAUSES := [RequiredBundleFailure, PanicRecoveryBundleFailure, SetupForensicBundleFailure,
                   ServiceRestartBundleFailure, ContainerQuiescenceUnproved, ContainerTeardownIncomplete,
                   RawStateCleanupFailure]

  function CauseLine(cause: Cause): string {
    "cause=" + CauseName(cause)
  }

  function FindCause(line: string, causes: seq<Cause>): Option<Cause> {
    if causes == [] then None
    else if line == CauseLine(causes[0]) then Some(causes[0]) else FindCause(line, causes[1..])
  }

  function ParseCause(line: string): Option<Cause> {
    FindCause(line, CAUSES)
  }

  /** The text of the marker for the tree at `path`. */
  function Marker(cause: Cause, path: string): string {
    HEADER + "\n" + CauseLine(cause) + "\n" + ("path=" + path) + "\n"
  }

  /** A line ends at a line feed, and loses one carriage return before it; a last empty line is none. */
  function StripReturn(line: string): string {
    if line != "" && line[|line| - 1] == '\r' then line[..|line| - 1] else line
  }

  function FirstFeed(s: string): (n: nat)
    ensures n <= |s| && '\n' !in s[..n] && (n < |s| ==> s[n] == '\n')
  {
    if s == "" || s[0] == '\n' then 0
    else
      assert s[..1 + FirstFeed(s[1..])] == [s[0]] + s[1..][..FirstFeed(s[1..])];
      1 + FirstFeed(s[1..])
  }

  function Lines(s: string): seq<string>
    decreases |s|
  {
    if s == "" then []
    else
      var n := FirstFeed(s);
      if n == |s| then [s] else [StripReturn(s[..n])] + Lines(s[n + 1..])
  }

  function ParseMarker(contents: seq<byte>, path: string): Option<Cause> {
    if |contents| > MAX_MARKER_BYTES || Utf8.Decode(contents).None? then None
    else
      var lines := Lines(Utf8.Decode(contents).value);
      var cause := ParseCause(if |lines| > 1 then lines[1] else "");
      if |lines| == 0 || lines[0] != HEADER then None
      else if cause.None? then None
      else if |lines| != 3 || lines[2] != "path=" + path then None
      else cause
  }

  /** The paths whose marker is read back as it was written. */
  predicate Printable(cause: Cause, path: string) {
    && '\n' !in path && (path != "" ==> path[|path| - 1] != '\r')
    && |Utf8.Encode(Marker(cause, path))| <= MAX_MARKER_BYTES
  }

  lemma {:induction false} FirstFeedAt(line: string, rest: string)
    requires '\n' !in line
    ensures FirstFeed(line + "\n" + rest) == |line|
  {
    var s := line + "\n" + rest;
    if line == "" {
      assert s[0] == '\n';
    } else {
      assert s[0] == line[0];
      assert s[1..] == line[1..] + "\n" + rest;
      FirstFeedAt(line[1..], rest);
    }
  }

  lemma LinesStep(line: string, rest: string)
    requires '\n' !in line
    ensures Lines(line + "\n" + rest) == [StripReturn(line)] + Lines(rest)
  {
    var s := line + "\n" + rest;
    FirstFeedAt(line, rest);
    assert s[..|line|] == line;
    assert s[|line| + 1..] == rest;
  }

  /** Names are told apart by their length and two of their letters. */
  function NameKey(cause: Cause): (nat, char, char) {
    match cause
    case RequiredBundleFailure => (23, 'r', 'u')
    case PanicRecoveryBundleFailure => (29, 'p', 'v')
    case SetupForensicBundleFailure => (29, 's', 'n')
    case ServiceRestartBundleFailure => (30, 's', 's')
    case ContainerQuiescenceUnproved => (29, 'c', 'q')
    case ContainerTeardownIncomplete => (29, 'c', 't')
    case RawStateCleanupFailure => (25, 'r', 'c')
  }

  lemma NameHasItsKey(cause: Cause)
    ensures |CauseName(cause)| == NameKey(cause).0
    ensures CauseName(cause)[0] == NameKey(cause).1 && CauseName(cause)[10] == NameKey(cause).2
  {
  }

  /** A text of printable ASCII characters only. */
  predicate Plain(s: string) {
    forall i | 0 <= i < |s| :: ' ' <= s[i] <= '~'
  }

  lemma RunFailureIsPlain(cause: Cause)
    requires cause.RequiredBundleFailure? || cause.PanicRecoveryBundleFailure?
    ensures Plain(CauseName(cause))
  {
  }

  lemma ForensicFailureIsPlain(cause: Cause)
    requires cause.SetupForensicBundleFailure? || cause.ServiceRestartBundleFailure?
    ensures Plain(CauseName(cause))
  {
  }

  lemma ContainerCauseIsPlain(cause: Cause)
    requires cause.ContainerQuiescenceUnproved? || cause.ContainerTeardownIncomplete? || cause.RawStateCleanupFailure?
    ensures Plain(CauseName(cause))
  {
  }

  lemma NameIsPlain(cause: Cause)
    ensures Plain(CauseName(cause))
  {
    hide CauseName, Plain;
    if cause.RequiredBundleFailure? || cause.PanicRecoveryBundleFailure? {
      RunFailureIsPlain(cause);
    } else if cause.SetupForensicBundleFailure? || cause.ServiceRestartBundleFailure? {
      ForensicFailureIsPlain(cause);
    } else {
      ContainerCauseIsPlain(cause);
    }
  }

  lemma LinesDiffer(a: Cause, b: Cause)
    ensures CauseLine(a) == CauseLine(b) ==> a == b
  {
    hide CauseName;
    NameHasItsKey(a);
    NameHasItsKey(b);
    if CauseLine(a) == CauseLine(b) {
      assert CauseLine(a)[6..] == CauseName(a) && CauseLine(b)[6..] == CauseName(b);
    }
  }

  lemma CauseFound(cause: Cause, causes: seq<Cause>)
    requires cause in causes
    ensures FindCause(CauseLine(cause), causes) == Some(cause)
  {
    hide CauseLine;
    LinesDiffer(cause, causes[0]);
    if cause != causes[0] {
      CauseFound(cause, causes[1..]);
    }
  }

  lemma CauseLineRead(cause: Cause)
    ensures '\n' !in CauseLine(cause)
    ensures StripReturn(CauseLine(cause)) == CauseLine(cause)
    ensures ParseCause(CauseLine(cause)) == Some(cause)
  {
    hide CauseName;
    NameIsPlain(cause);
    NameHasItsKey(cause);
    assert CauseLine(cause)[|CauseLine(cause)| - 1] == CauseName(cause)[|CauseName(cause)| - 1];
    assert CAUSES[0] == RequiredBundleFailure && CAUSES[1] == PanicRecoveryBundleFailure
           && CAUSES[2] == SetupForensicBundleFailure && CAUSES[3] == ServiceRestartBundleFailure
           && CAUSES[4] == ContainerQuiescenceUnproved && CAUSES[5] == ContainerTeardownIncomplete
           && CAUSES[6] == RawStateCleanupFailure;
    CauseFound(cause, CAUSES);
  }

  lemma LinesNonempty(s: string)
    requires s != ""
    ensures |Lines(s)| >= 1
    ensures '\n' !in Lines(s)[0]
  {
  }

  lemma MarkerLines(cause: Cause, path: string)
    ensures Lines(Marker(cause, path)) == [HEADER, CauseLine(cause)] + Lines("path=" + path + "\n")
  {
    hide CauseLine, ParseCause, Lines;
    var c := CauseLine(cause);
    var tail := "path=" + path + "\n";
    CauseLineRead(cause);
    assert Marker(cause, path) == HEADER + "\n" + (c + "\n" + tail);
    LinesStep(HEADER, c + "\n" + tail);
    LinesStep(c, tail);
    assert StripReturn(HEADER) == HEADER;
  }

  lemma PathLine(path: string)
    ensures var lines := Lines("path=" + path + "\n");
            |lines| >= 1
            && (|lines| == 1 && lines[0] == "path=" + path
                <==> '\n' !in path && (path != "" ==> path[|path| - 1] != '\r'))
  {
    var p := "path=" + path;
    assert p[5..] == path;
    if '\n' in path {
      LinesNonempty(p + "\n");
    } else {
      LinesStep(p, "");
      assert p + "\n" + "" == p + "\n";
      assert p[|p| - 1] == if path == "" then '=' else path[|path| - 1];
    }
  }

  /** A marker is read back as its cause exactly when its path is printable. */
  lemma MarkerReadBack(cause: Cause, path: string)
    ensures ParseMarker(Utf8.Encode(Marker(cause, path)), path) == (if Printable(cause, path) then Some(cause) else None)
  {
    hide CauseLine, ParseCause, Lines, Marker, Utf8.Encode, Utf8.Decode;
    Utf8.DecodeEncode(Marker(cause, path));
    MarkerLines(cause, path);
    CauseLineRead(cause);
    PathLine(path);
  }

  // ---- The paths of sessions -----------------------------------------------

  /** The only state directory the configuration admits. */
  const STATE_DIR := "/home/user/Desktop/" + "agent_service" + "/.runtime/state"

  predicate SafeSessionId(id: string) {
    && |id| == 66 && id[0] == 's' && id[1] == '-'
    && forall i | 2 <= i < |id| :: '0' <= id[i] <= '9' || 'a' <= id[i] <= 'f'
  }

  function SessionRoot(stateDir: string, id: string): string {
    stateDir + "/sessions/" + id
  }

  lemma PlainAppend(s: string, t: string)
    requires Plain(s) && Plain(t)
    ensures Plain(s + t)
  {
  }

  lemma StateDirIsPlain()
    ensures Plain(STATE_DIR) && Plain("/sessions/") && |STATE_DIR| < 100
  {
    assert Plain("/home/user/Desktop/") && Plain("agent_service") && Plain("/.runtime/state");
    assert Plain("/sessions/");
    PlainAppend("/home/user/Desktop/", "agent_service");
    PlainAppend("/home/user/Desktop/" + "agent_service", "/.runtime/state");
  }

  lemma SessionRootIsPlain(id: string)
    requires SafeSessionId(id)
    ensures Plain(SessionRoot(STATE_DIR, id)) && |SessionRoot(STATE_DIR, id)| < 200
  {
    StateDirIsPlain();
    assert Plain(id);
    hide Plain;
    PlainAppend(STATE_DIR, "/sessions/");
    PlainAppend(STATE_DIR + "/sessions/", id);
  }

  lemma MarkerIsAscii(cause: Cause, path: string)
    requires Plain(path)
    ensures var m := Marker(cause, path);
            |m| <= 100 + |path| && forall i | 0 <= i < |m| :: m[i] as int < 0x80
  {
    hide CauseName;
    NameIsPlain(cause);
    NameHasItsKey(cause);
    var head, line, tail := HEADER + "\n", CauseLine(cause) + "\n", "path=" + path + "\n";
    assert forall i | 0 <= i < |head| :: head[i] as int < 0x80;
    assert forall i | 0 <= i < |line| :: line[i] as int < 0x80;
    assert forall i | 0 <= i < |tail| :: tail[i] as int < 0x80;
    assert Marker(cause, path) == head + line + tail;
  }

  /** Every marker of a session's own tree is read back. */
  lemma SessionRootsArePrintable(cause: Cause, id: string)
    requires SafeSessionId(id)
    ensures Printable(cause, SessionRoot(STATE_DIR, id))
  {
    hide Marker, SessionRoot, SafeSessionId, Utf8.Encode;
    var path := SessionRoot(STATE_DIR, id);
    SessionRootIsPlain(id);
    MarkerIsAscii(cause, path);
    Utf8.AsciiLength(Marker(cause, path));
  }
}
