/** Declared deliverables: admission, canonical record and strict reader (src/deliverables.rs). */
module Deliverables {
  import opened Wrappers
  import opened Bytes
  import Utf8
  import JsonStrings

  const ARTIFACTS_ROOT: string := "/artifacts"
  const NAME_MAX: nat := 255
  const PATH_MAX: nat := 4096
  const MAX_DELIVERABLE_PATH_BYTES: nat := PATH_MAX - 1 - (|ARTIFACTS_ROOT| + 1)
  const MAX_ARG_STRLEN: nat := 32 * 4096
  const ARGUMENT_PREFIX: string := "--deliverables="
  const MAX_DELIVERABLES_JSON_BYTES: nat := MAX_ARG_STRLEN - |ARGUMENT_PREFIX| - 1
  const RECORD_PREFIX: string := "{\"deliverables\":"
  const RECORD_SUFFIX: string := "}\n"
  const MAX_RECORD_BYTES: nat := |RECORD_PREFIX| + MAX_DELIVERABLES_JSON_BYTES + |RECORD_SUFFIX|

  /** Length in bytes, which is what every bound measures. */
  function Size(s: string): nat {
    |Utf8.Encode(s)|
  }

  // ---- The rule for one path -----------------------------------------------

  datatype Fault =
    | Empty
    | ContainsNul
    | Absolute
    | EmptyComponent
    | DotComponent(component: string)
    | LongComponent(bytes: nat)
    | LongPath(bytes: nat)

  function Split(path: string): (components: seq<string>)
    ensures components != []
  {
    if path == [] then [[]]
    else
      var rest := Split(path[1..]);
      if path[0] == '/' then [[]] + rest else [[path[0]] + rest[0]] + rest[1..]
  }

  function Join(components: seq<string>): string
    requires components != []
  {
    if |components| == 1 then components[0] else components[0] + "/" + Join(components[1..])
  }

  function ComponentFault(component: string): Option<Fault> {
    if component == "" then Some(EmptyComponent)
    else if component == "." || component == ".." then Some(DotComponent(component))
    else if Size(component) > NAME_MAX then Some(LongComponent(Size(component)))
    else None
  }

  function FirstComponentFault(components: seq<string>): Option<Fault> {
    if components == [] then None
    else if ComponentFault(components[0]).Some? then ComponentFault(components[0])
    else FirstComponentFault(components[1..])
  }

  function PathFault(path: string): Option<Fault> {
    if path == "" then Some(Empty)
    else if '\0' in path then Some(ContainsNul)
    else if path[0] == '/' then Some(Absolute)
    else if FirstComponentFault(Split(path)).Some? then FirstComponentFault(Split(path))
    else if Size(path) > MAX_DELIVERABLE_PATH_BYTES then Some(LongPath(Size(path)))
    else None
  }

  method CheckPath(path: string) returns (fault: Option<Fault>)
    ensures fault == PathFault(path)
  {
    if path == "" {
      return Some(Empty);
    }
    if '\0' in path {
      return Some(ContainsNul);
    }
    if path[0] == '/' {
      return Some(Absolute);
    }
    var components := Split(path);
    assert components[0..] == components;
    for k := 0 to |components|
      invariant FirstComponentFault(components) == FirstComponentFault(components[k..])
    {
      assert components[k..][0] == components[k] && components[k..][1..] == components[k + 1..];
      var component := components[k];
      if component == "" {
        return Some(EmptyComponent);
      }
      if component == "." || component == ".." {
        return Some(DotComponent(component));
      }
      if Size(component) > NAME_MAX {
        return Some(LongComponent(Size(component)));
      }
    }
    if Size(path) > MAX_DELIVERABLE_PATH_BYTES {
      return Some(LongPath(Size(path)));
    }
    return None;
  }

  // ---- What the rule means to the kernel -----------------------------------

  function Enter(directory: seq<string>, c: string): seq<string> {
    if c == "" || c == "." then directory
    else if c == ".." then (if directory == [] then [] else directory[..|directory| - 1])
    else directory + [c]
  }

  /** Lexical resolution of components from a directory, as a path walk without links makes it. */
  function Resolve(directory: seq<string>, components: seq<string>): seq<string>
    decreases |components|
  {
    if components == [] then directory else Resolve(Enter(directory, components[0]), components[1..])
  }

  /** Every step of the walk names a new entry of the directory reached so far. */
  ghost predicate Descends(directory: seq<string>, components: seq<string>) {
    forall k | 0 <= k <= |components| :: Resolve(directory, components[..k]) == directory + components[..k]
  }

  predicate Ordinary(component: string) {
    component != "" && component != "." && component != ".."
  }

  lemma OrdinaryEnters(directory: seq<string>, c: string)
    ensures Enter(directory, c) == directory + [c] <==> Ordinary(c)
  {
    assert |directory + [c]| == |directory| + 1;
  }

  lemma {:induction false} DescendsExactly(directory: seq<string>, components: seq<string>)
    ensures Descends(directory, components) <==> forall k | 0 <= k < |components| :: Ordinary(components[k])
    decreases |components|
  {
    hide Enter, Ordinary;
    if components == [] {
      assert directory + [] == directory;
    } else {
      var c, rest := components[0], components[1..];
      OrdinaryEnters(directory, c);
      var next := directory + [c];
      DescendsExactly(next, rest);
      assert forall k | 1 <= k < |components| :: components[k] == rest[k - 1];
      if Descends(directory, components) {
        assert Resolve(directory, components[..1]) == directory + components[..1];
        assert components[..1] == [c] && Resolve(Enter(directory, c), [c][1..]) == Enter(directory, c);
      }
      if Ordinary(c) {
        forall k | 1 <= k <= |components|
          ensures Resolve(directory, components[..k]) == Resolve(next, rest[..k - 1])
          ensures directory + components[..k] == next + rest[..k - 1]
        {
          assert components[..k][1..] == rest[..k - 1];
        }
        if Descends(directory, components) {
          forall k | 0 <= k <= |rest| ensures Resolve(next, rest[..k]) == next + rest[..k] {
            assert Resolve(directory, components[..k + 1]) == directory + components[..k + 1];
          }
        }
        assert directory + components[..0] == directory;
      }
    }
  }

  lemma {:induction false} FaultFreeComponents(components: seq<string>)
    ensures FirstComponentFault(components).None? <==>
            forall k | 0 <= k < |components| :: Ordinary(components[k]) && Size(components[k]) <= NAME_MAX
  {
    if components != [] {
      FaultFreeComponents(components[1..]);
      assert forall k | 1 <= k < |components| :: components[k] == components[1..][k - 1];
    }
  }

  lemma {:induction false} JoinSplit(path: string)
    ensures Join(Split(path)) == path
    ensures forall k | 0 <= k < |Split(path)| :: '/' !in Split(path)[k]
  {
    if path != [] {
      var rest := Split(path[1..]);
      JoinSplit(path[1..]);
      var all := Split(path);
      if path[0] == '/' {
        assert all[1..] == rest;
        assert Join(all) == [] + "/" + Join(rest);
        assert forall k | 1 <= k < |all| :: all[k] == rest[k - 1];
      } else {
        assert forall k | 1 <= k < |all| :: all[k] == rest[k];
        if |rest| > 1 {
          assert all[1..] == rest[1..];
          assert Join(all) == [path[0]] + rest[0] + "/" + Join(rest[1..]);
        }
      }
    }
  }

  /**
   * A path is admitted exactly when it is NUL-free, its walk from `/artifacts` descends one new
   * entry per component, every component fits NAME_MAX and the whole opened path fits PATH_MAX
   * with its NUL.
   */
  lemma PathRuleMeansStrictDescent(path: string)
    ensures PathFault(path).None? <==>
            && '\0' !in path
            && Descends(["artifacts"], Split(path))
            && (forall k | 0 <= k < |Split(path)| :: Size(Split(path)[k]) <= NAME_MAX)
            && Size(ARTIFACTS_ROOT + "/" + path) + 1 <= PATH_MAX
    ensures PathFault(path).None? ==>
              && Resolve(["artifacts"], Split(path)) == ["artifacts"] + Split(path)
              && Join(Split(path)) == path
              && forall k | 0 <= k < |Split(path)| :: '/' !in Split(path)[k]
  {
    hide Size, Split, Join, Descends, Resolve, FirstComponentFault;
    FaultFreeComponents(Split(path));
    DescendsExactly(["artifacts"], Split(path));
    WholePathResolves(["artifacts"], Split(path));
    JoinSplit(path);
    OpenedSize(path);
    FirstComponent(path);
  }

  lemma OpenedSize(path: string)
    ensures Size(ARTIFACTS_ROOT + "/" + path) == |ARTIFACTS_ROOT| + 1 + Size(path)
  {
    hide Utf8.Encode;
    Utf8.EncodeAppend(ARTIFACTS_ROOT + "/", path);
    Utf8.AsciiLength(ARTIFACTS_ROOT + "/");
  }

  /** An empty or absolute path starts with an empty component. */
  lemma FirstComponent(path: string)
    ensures path == "" || path[0] == '/' ==> Split(path)[0] == ""
  {
  }

  lemma WholePathResolves(directory: seq<string>, components: seq<string>)
    ensures Descends(directory, components) ==> Resolve(directory, components) == directory + components
  {
    assert components[..|components|] == components;
  }

  // ---- Admission -----------------------------------------------------------

  datatype Deliverables = Deliverables(paths: seq<string>, json: string)

  datatype Broken = Rule(fault: Fault) | Repeats(earlier: nat)

  datatype Refusal =
    | Entry(index: nat, broken: Broken)
    | ListTooLong(bytes: nat)
    | RecordTooLong(bytes: nat)
    | NotUtf8
    | NotEnveloped
    | NotAnArrayOfStrings
    | NotCanonical

  function FirstIndex(paths: seq<string>, path: string): (i: nat)
    requires path in paths
    ensures i < |paths| && paths[i] == path && forall k | 0 <= k < i :: paths[k] != path
  {
    if paths[0] == path then 0 else 1 + FirstIndex(paths[1..], path)
  }

  /** What is wrong with entry `i`, seen after the entries before it. */
  function EntryFault(paths: seq<string>, i: nat): Option<Broken>
    requires i < |paths|
  {
    match PathFault(paths[i])
    case Some(fault) => Some(Rule(fault))
    case None => if paths[i] in paths[..i] then Some(Repeats(FirstIndex(paths[..i], paths[i]))) else None
  }

  function FirstEntryFault(paths: seq<string>, from: nat): Option<(nat, Broken)>
    requires from <= |paths|
    decreases |paths| - from
  {
    if from == |paths| then None
    else
      match EntryFault(paths, from)
      case Some(broken) => Some((from, broken))
      case None => FirstEntryFault(paths, from + 1)
  }

  function Admitted(paths: seq<string>): Result<Deliverables, Refusal> {
    match FirstEntryFault(paths, 0)
    case Some((index, broken)) => Err(Entry(index, broken))
    case None =>
      var json := JsonStrings.Print(paths);
      if Size(json) > MAX_DELIVERABLES_JSON_BYTES then Err(ListTooLong(Size(json)))
      else Ok(Deliverables(paths, json))
  }

  method New(paths: seq<string>) returns (r: Result<Deliverables, Refusal>)
    ensures r == Admitted(paths)
  {
    hide PathFault, FirstIndex, JsonStrings.Print, Size;
    var firstIndex: map<string, nat> := map[];
    for index := 0 to |paths|
      invariant FirstEntryFault(paths, 0) == FirstEntryFault(paths, index)
      invariant forall p :: p in firstIndex <==> p in paths[..index]
      invariant forall p | p in firstIndex :: firstIndex[p] == FirstIndex(paths[..index], p)
    {
      var path := paths[index];
      var fault := CheckPath(path);
      if fault.Some? {
        return Err(Entry(index, Rule(fault.value)));
      }
      if path in firstIndex {
        return Err(Entry(index, Repeats(firstIndex[path])));
      }
      assert paths[..index + 1] == paths[..index] + [path];
      forall p | p in paths[..index + 1]
        ensures FirstIndex(paths[..index + 1], p) == if p == path then index else firstIndex[p]
      {
        FirstIndexAppend(paths[..index], path, p);
      }
      firstIndex := firstIndex[path := index];
    }
    var json := JsonStrings.Print(paths);
    if Size(json) > MAX_DELIVERABLES_JSON_BYTES {
      return Err(ListTooLong(Size(json)));
    }
    return Ok(Deliverables(paths, json));
  }

  lemma FirstIndexAppend(paths: seq<string>, last: string, p: string)
    requires p in paths + [last]
    ensures FirstIndex(paths + [last], p) == if p in paths then FirstIndex(paths, p) else |paths|
  {
    var i := if p in paths then FirstIndex(paths, p) else |paths|;
    var whole := paths + [last];
    assert whole[i] == p && forall k | 0 <= k < i :: whole[k] == paths[k];
  }

  lemma {:induction false} FirstEntryFaultIsFirst(paths: seq<string>, from: nat)
    requires from <= |paths|
    ensures match FirstEntryFault(paths, from)
            case None => forall i | from <= i < |paths| :: EntryFault(paths, i).None?
            case Some((index, broken)) =>
              && from <= index < |paths| && EntryFault(paths, index) == Some(broken)
              && forall i | from <= i < index :: EntryFault(paths, i).None?
    decreases |paths| - from
  {
    hide EntryFault;
    if from < |paths| && EntryFault(paths, from).None? {
      FirstEntryFaultIsFirst(paths, from + 1);
    }
  }

  ghost predicate Distinct(paths: seq<string>) {
    forall i, j | 0 <= i < j < |paths| :: paths[i] != paths[j]
  }

  /** Entry `i` breaks a rule of its own or repeats an earlier entry. */
  ghost predicate Offends(paths: seq<string>, i: nat)
    requires i < |paths|
  {
    PathFault(paths[i]).Some? || exists j | 0 <= j < i :: paths[j] == paths[i]
  }

  lemma FaultMeansOffence(paths: seq<string>, i: nat)
    requires i < |paths|
    ensures EntryFault(paths, i).Some? <==> Offends(paths, i)
    ensures EntryFault(paths, i).Some? && EntryFault(paths, i).value.Repeats? ==>
              var j := EntryFault(paths, i).value.earlier;
              j < i && paths[j] == paths[i] && forall k | 0 <= k < j :: paths[k] != paths[i]
  {
    if j :| 0 <= j < i && paths[j] == paths[i] {
      assert paths[..i][j] == paths[i];
    }
    if paths[i] in paths[..i] {
      var first := FirstIndex(paths[..i], paths[i]);
      assert forall k | 0 <= k < first :: paths[k] == paths[..i][k];
    }
  }

  lemma NoOffence(paths: seq<string>)
    ensures (forall i | 0 <= i < |paths| :: !Offends(paths, i)) <==>
            (forall i | 0 <= i < |paths| :: PathFault(paths[i]).None?) && Distinct(paths)
  {
    hide PathFault;
    if forall i | 0 <= i < |paths| :: !Offends(paths, i) {
      forall j | 0 <= j < |paths| ensures PathFault(paths[j]).None? && forall i | 0 <= i < j :: paths[i] != paths[j] {
        assert !Offends(paths, j);
      }
    }
  }

  /**
   * A list is admitted exactly when every path passes, all differ and the JSON fits; it is
   * carried unchanged. Otherwise an entry refusal names the least offending index.
   */
  lemma AdmissionIsExact(paths: seq<string>)
    ensures Admitted(paths).Ok? <==>
            && (forall i | 0 <= i < |paths| :: PathFault(paths[i]).None?)
            && Distinct(paths)
            && Size(JsonStrings.Print(paths)) <= MAX_DELIVERABLES_JSON_BYTES
    ensures Admitted(paths).Ok? ==> Admitted(paths).value == Deliverables(paths, JsonStrings.Print(paths))
    ensures Admitted(paths).Err? ==>
              match Admitted(paths).error
              case Entry(index, _) =>
                index < |paths| && Offends(paths, index) && forall i | 0 <= i < index :: !Offends(paths, i)
              case ListTooLong(bytes) =>
                bytes == Size(JsonStrings.Print(paths)) && forall i | 0 <= i < |paths| :: !Offends(paths, i)
              case _ => false
  {
    hide EntryFault, PathFault, JsonStrings.Print, Size, FirstEntryFault;
    FirstEntryFaultIsFirst(paths, 0);
    forall i | 0 <= i < |paths| ensures EntryFault(paths, i).Some? <==> Offends(paths, i) {
      FaultMeansOffence(paths, i);
    }
    NoOffence(paths);
  }

  /**
   * An admitted list is carried as the shortest JSON text that reads as it, and no other text of
   * that length does, unless a path holds a control character without a short escape.
   */
  lemma AdmittedJsonIsCompact(paths: seq<string>, text: string)
    requires Admitted(paths).Ok? && JsonStrings.Parse(text) == Some(paths)
    ensures var json := Admitted(paths).value.json;
            && JsonStrings.Parse(json) == Some(paths) && |json| <= |text|
            && (|json| == |text| && JsonStrings.AllUnhexed(paths) ==> json == text)
  {
    hide JsonStrings.Parse, JsonStrings.Print, JsonStrings.AllUnhexed, Admitted;
    AdmissionIsExact(paths);
    JsonStrings.ParsePrint(paths);
    JsonStrings.PrintIsShortest(text, paths);
  }

  // ---- The record and its reader -------------------------------------------

  function Argument(d: Deliverables): string {
    ARGUMENT_PREFIX + d.json
  }

  function Record(d: Deliverables): string {
    RECORD_PREFIX + d.json + RECORD_SUFFIX
  }

  /** The text between the record's fixed prefix and suffix. */
  function Enveloped(text: string): Option<string> {
    if RECORD_PREFIX <= text then
      var rest := text[|RECORD_PREFIX|..];
      var cut := |rest| - |RECORD_SUFFIX|;
      if cut >= 0 && rest[cut..] == RECORD_SUFFIX then Some(rest[..cut]) else None
    else None
  }

  function FromRecord(bytes: seq<byte>): Result<Deliverables, Refusal> {
    if |bytes| > MAX_RECORD_BYTES then Err(RecordTooLong(|bytes|))
    else
      match Utf8.Decode(bytes)
      case None => Err(NotUtf8)
      case Some(text) =>
        match Enveloped(text)
        case None => Err(NotEnveloped)
        case Some(json) =>
          match JsonStrings.Parse(json)
          case None => Err(NotAnArrayOfStrings)
          case Some(paths) =>
            var deliverables :- Admitted(paths);
            if deliverables.json != json then Err(NotCanonical) else Ok(deliverables)
  }

  lemma EnvelopeOfRecord(d: Deliverables)
    ensures Enveloped(Record(d)) == Some(d.json)
  {
    var rest := d.json + RECORD_SUFFIX;
    assert Record(d) == RECORD_PREFIX + rest;
    assert Record(d)[|RECORD_PREFIX|..] == rest;
    assert rest[|d.json|..] == RECORD_SUFFIX && rest[..|d.json|] == d.json;
  }

  lemma RecordOfEnvelope(text: string, json: string)
    requires Enveloped(text) == Some(json)
    ensures text == RECORD_PREFIX + json + RECORD_SUFFIX
  {
    var rest := text[|RECORD_PREFIX|..];
    assert text == RECORD_PREFIX + rest;
    assert rest == json + RECORD_SUFFIX;
  }

  /** One bound in three places: the list, the argument with its NUL and the record. */
  lemma BoundsAreEquivalent(d: Deliverables)
    ensures Size(d.json) <= MAX_DELIVERABLES_JSON_BYTES <==> Size(Argument(d)) + 1 <= MAX_ARG_STRLEN
    ensures Size(d.json) <= MAX_DELIVERABLES_JSON_BYTES <==> Size(Record(d)) <= MAX_RECORD_BYTES
  {
    hide Utf8.Encode;
    Utf8.EncodeAppend(ARGUMENT_PREFIX, d.json);
    Utf8.AsciiLength(ARGUMENT_PREFIX);
    Utf8.EncodeAppend(RECORD_PREFIX + d.json, RECORD_SUFFIX);
    Utf8.EncodeAppend(RECORD_PREFIX, d.json);
    Utf8.AsciiLength(RECORD_PREFIX);
    Utf8.AsciiLength(RECORD_SUFFIX);
  }

  /**
   * The reader accepts exactly the record bytes of admitted lists, and returns that list: every
   * admitted list round-trips, and nothing but its one spelling decodes to it.
   */
  lemma RecordsRoundTripExactly(bytes: seq<byte>, d: Deliverables)
    ensures FromRecord(bytes) == Ok(d) <==> Admitted(d.paths) == Ok(d) && bytes == Utf8.Encode(Record(d))
  {
    hide Utf8.Encode, Utf8.Decode, JsonStrings.Parse, JsonStrings.Print, Enveloped, Admitted;
    if Admitted(d.paths) == Ok(d) && bytes == Utf8.Encode(Record(d)) {
      AdmissionIsExact(d.paths);
      BoundsAreEquivalent(d);
      Utf8.DecodeEncode(Record(d));
      EnvelopeOfRecord(d);
      JsonStrings.ParsePrint(d.paths);
    }
    if FromRecord(bytes) == Ok(d) {
      var text := Utf8.Decode(bytes).value;
      Utf8.EncodeDecode(bytes);
      RecordOfEnvelope(text, d.json);
      AdmissionIsExact(JsonStrings.Parse(d.json).value);
    }
  }

  /** Bytes are refused for their length first, then if no text has them, then if the text has not the record's ends. */
  lemma ReaderRefusesBytes(bytes: seq<byte>)
    ensures var r := FromRecord(bytes);
            && (r == Err(RecordTooLong(|bytes|)) <==> |bytes| > 131_074)
            && (|bytes| <= 131_074 ==>
                  && (r == Err(NotUtf8) <==> forall text :: Utf8.Encode(text) != bytes)
                  && forall text | Utf8.Encode(text) == bytes ::
                       r == Err(NotEnveloped) <==> forall json :: text != "{\"deliverables\":" + json + "}\n")
  {
    hide Utf8.Encode, Utf8.Decode, JsonStrings.Parse, Enveloped;
    AdmittedNamesNoForm();
    if Utf8.Decode(bytes).Some? {
      Utf8.EncodeDecode(bytes);
    }
    forall text ensures Utf8.Encode(text) == bytes ==> Utf8.Decode(bytes) == Some(text) {
      Utf8.DecodeEncode(text);
    }
    forall text: string ensures Enveloped(text).None? <==> forall json :: text != "{\"deliverables\":" + json + "}\n" {
      forall json | text == "{\"deliverables\":" + json + "}\n" ensures Enveloped(text).Some? {
        EnvelopeOfRecord(Deliverables([], json));
      }
      if Enveloped(text).Some? {
        RecordOfEnvelope(text, Enveloped(text).value);
      }
    }
  }

  /** Then if the list is no array of strings, then for what admission refuses, and last if it is spelled otherwise. */
  lemma ReaderRefusesTheList(json: string)
    requires Size(Record(Deliverables([], json))) <= 131_074
    ensures var r := FromRecord(Utf8.Encode(Record(Deliverables([], json))));
            match JsonStrings.Parse(json)
            case None => r == Err(NotAnArrayOfStrings)
            case Some(paths) =>
              && (Admitted(paths).Err? ==> r == Err(Admitted(paths).error))
              && (Admitted(paths).Ok? && json != JsonStrings.Print(paths) ==> r == Err(NotCanonical))
              && (Admitted(paths).Ok? && json == JsonStrings.Print(paths) ==> r == Ok(Deliverables(paths, json)))
  {
    hide Utf8.Encode, Utf8.Decode, JsonStrings.Parse, JsonStrings.Print, Enveloped, Admitted;
    Utf8.DecodeEncode(Record(Deliverables([], json)));
    EnvelopeOfRecord(Deliverables([], json));
    if JsonStrings.Parse(json).Some? {
      AdmissionIsExact(JsonStrings.Parse(json).value);
    }
  }

  /** Admission refuses an entry or the list's length, never a record's form. */
  lemma AdmittedNamesNoForm()
    ensures forall paths | Admitted(paths).Err? :: Admitted(paths).error.Entry? || Admitted(paths).error.ListTooLong?
  {
    hide JsonStrings.Print, Size, FirstEntryFault;
  }

  /** Two records that decode to lists with the same paths are the same bytes. */
  lemma RecordIsDeterminedByItsPaths(x: seq<byte>, y: seq<byte>)
    requires FromRecord(x).Ok? && FromRecord(y).Ok?
    requires FromRecord(x).value.paths == FromRecord(y).value.paths
    ensures x == y
  {
    RecordsRoundTripExactly(x, FromRecord(x).value);
    RecordsRoundTripExactly(y, FromRecord(y).value);
  }
}
