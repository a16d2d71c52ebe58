/** The action's entry point: reading its input from the environment, reading
    the pull-request body from the event payload, and the pass/fail decision.
    The process environment is a map from variable names to values, the
    event files are a map from paths to their parsed payloads, and every
    `process.exit(1)` is a `Failed` outcome carrying the reason that the
    action prints. */
module Gate {
  import opened Wrappers
  import opened Seqs
  import opened Text
  import opened Checklist

  type Env = map<string, string>

  /** Why the action exits with status 1. */
  datatype Failure =
    | InputMissing(name: string)
    | NoChecklistLines
    | EventPathUnset
    | PayloadUnreadable(path: string)
    | NotPullRequest
    | MissingApprovals(items: seq<string>)

  datatype Outcome = Passed | Failed(reason: Failure)

  /** The `pull_request` object of a payload; its body is None when the
      payload holds anything but a string there (or nothing). */
  datatype PullRequest = PullRequest(body: Option<string>)

  /** A parsed event payload; pullRequest is None when `pull_request` is
      absent or falsy. */
  datatype Payload = Payload(pullRequest: Option<PullRequest>)

  const ConfigInput := "checklist_lines"
  const EventPathVar := "GITHUB_EVENT_PATH"

  /** `process.env[key]`, with an unset variable read as the empty string:
      the action treats the two alike, both being falsy. */
  function EnvValue(env: Env, key: string): (v: string)
    ensures v == "" <==> key !in env || env[key] == ""
    ensures v != "" ==> key in env && v == env[key]
  {
    if key in env then env[key] else ""
  }

  /** `toUpperCase` on ASCII letters. */
  function UpperAscii(c: char): (u: char)
    ensures !('a' <= u <= 'z')
    ensures 'a' <= c <= 'z' ==> u as int == c as int - 32
    ensures !('a' <= c <= 'z') ==> u == c
  {
    if 'a' <= c <= 'z' then (c as int - 32) as char else c
  }

  /** The environment variable holding input name: `INPUT_`, then the name
      with every space turned into `_`, upper-cased. */
  function InputKey(name: string): (key: string)
    ensures |key| == 6 + |name| && key[..6] == "INPUT_"
    ensures ' ' !in key[6..]
    ensures forall i :: 6 <= i < |key| ==> !('a' <= key[i] <= 'z')
    ensures forall i :: 0 <= i < |name| && name[i] == ' ' ==> key[6 + i] == '_'
    ensures forall i :: 0 <= i < |name| && 'a' <= name[i] <= 'z' ==> key[6 + i] as int == name[i] as int - 32
    ensures forall i :: 0 <= i < |name| && name[i] != ' ' && !('a' <= name[i] <= 'z') ==> key[6 + i] == name[i]
  {
    "INPUT_" + seq(|name|, i requires 0 <= i < |name| => UpperAscii(if name[i] == ' ' then '_' else name[i]))
  }

  lemma ConfigInputKey()
    ensures InputKey(ConfigInput) == "INPUT_CHECKLIST_LINES"
  {
  }

  /** getInput: the trimmed value of the input's variable, "" when it is
      unset or empty; a required input whose value trims to nothing is an
      error. */
  function GetInput(env: Env, name: string, required: bool): (r: Result<string, Failure>)
    ensures r.Success? ==> r.value == Trim(EnvValue(env, InputKey(name)))
    ensures r.Failure? <==> required && AllWs(EnvValue(env, InputKey(name)))
    ensures r.Failure? ==> r.error == InputMissing(name)
  {
    var key := InputKey(name);
    var value := if key in env && env[key] != "" then Trim(env[key]) else "";
    TrimEmptyIff(EnvValue(env, key));
    if required && value == "" then Failure(InputMissing(name)) else Success(value)
  }

  /** A required input that is read is trimmed and not empty. */
  lemma RequiredInputIsNonBlank(env: Env, name: string)
    requires GetInput(env, name, true).Success?
    ensures var v := GetInput(env, name, true).value; v != "" && IsTrimmed(v)
  {
    TrimEmptyIff(EnvValue(env, InputKey(name)));
  }

  /** readPullRequestBody: the body of the pull request of the event whose
      payload file `GITHUB_EVENT_PATH` names, or "" when that body is not a
      string. It fails, in this order, when the variable is unset or empty,
      when the file cannot be read or parsed, and when the payload has no
      pull request. */
  function ReadPullRequestBody(env: Env, files: map<string, Payload>): (r: Result<string, Failure>)
    ensures var path := EnvValue(env, EventPathVar);
      && (r == Failure(EventPathUnset) <==> path == "")
      && (r == Failure(PayloadUnreadable(path)) <==> path != "" && path !in files)
      && (r == Failure(NotPullRequest) <==> path != "" && path in files && files[path].pullRequest.None?)
      && (r.Success? <==> path != "" && path in files && files[path].pullRequest.Some?)
    ensures r.Success? ==>
      var body := files[EnvValue(env, EventPathVar)].pullRequest.value.body;
      && (body.Some? ==> r.value == body.value)
      && (body.None? ==> r.value == "")
  {
    var eventPath := EnvValue(env, EventPathVar);
    if eventPath == "" then Failure(EventPathUnset)
    else if eventPath !in files then Failure(PayloadUnreadable(eventPath))
    else
      match files[eventPath].pullRequest
      case None => Failure(NotPullRequest)
      case Some(pr) =>
        match pr.body
        case Some(body) => Success(body)
        case None => Success("")
  }

  /** main: the configuration is read first, then the event; exits become
      Failed outcomes. The "No checklist lines configured" exit is never
      taken: a required input that is read is non-blank, hence configures
      some label. */
  function RunGate(env: Env, files: map<string, Payload>): (o: Outcome)
    ensures o != Failed(NoChecklistLines)
  {
    match GetInput(env, ConfigInput, true)
    case Failure(f) => Failed(f)
    case Success(rawConfig) =>
      RequiredInputIsNonBlank(env, ConfigInput);
      NonBlankConfigHasItems(rawConfig);
      var configuredItems := ParseChecklistConfig(rawConfig);
      if |configuredItems| == 0 then Failed(NoChecklistLines)
      else
        match ReadPullRequestBody(env, files)
        case Failure(f) => Failed(f)
        case Success(prBody) =>
          var checklistLines := ExtractChecklistEntries(prBody);
          var uncheckedItems := UncheckedOf(configuredItems, checklistLines);
          if |uncheckedItems| > 0 then Failed(MissingApprovals(uncheckedItems))
          else Passed
  }

  /** A configuration that is not blank and starts with a non-white
      character has a first line that is not blank, so it configures at
      least one label. */
  lemma NonBlankConfigHasItems(raw: string)
    requires raw != "" && !IsWs(raw[0])
    ensures ParseChecklistConfig(raw) != []
  {
    var lines := SplitLines(raw);
    var first := lines[0];
    assert first != "" && first[0] == raw[0] by {
      match IndexOf(raw, '\n')
      case None =>
      case Some(i) =>
        assert i != 0;
        assert first == DropCr(raw[..i]);
    }
    TrimEmptyIff(first);
    var entries := ExtractChecklistEntries(raw);
    assert entries[0] == Trim(first) && entries[0] in entries;
  }

  /** The decision once the configuration and the body are read: the gate
      fails listing the unchecked labels, in configured order, and passes
      when there are none. */
  lemma GateDecision(env: Env, files: map<string, Payload>, raw: string, body: string)
    requires GetInput(env, ConfigInput, true) == Success(raw)
    requires ReadPullRequestBody(env, files) == Success(body)
    ensures var unchecked := UncheckedOf(ParseChecklistConfig(raw), ExtractChecklistEntries(body));
      RunGate(env, files) == if unchecked == [] then Passed else Failed(MissingApprovals(unchecked))
  {
    RequiredInputIsNonBlank(env, ConfigInput);
    NonBlankConfigHasItems(raw);
  }

  /** Every way the gate can end. It passes exactly when the configuration
      input is set, the pull-request body is read and no configured label is
      left unchecked; otherwise it reports the first failure in the order
      the action meets them. */
  lemma GateOutcomes(env: Env, files: map<string, Payload>)
    ensures RunGate(env, files) == Failed(InputMissing(ConfigInput)) <==> AllWs(EnvValue(env, InputKey(ConfigInput)))
    ensures !AllWs(EnvValue(env, InputKey(ConfigInput))) && ReadPullRequestBody(env, files).Failure? ==>
      RunGate(env, files) == Failed(ReadPullRequestBody(env, files).error)
    ensures RunGate(env, files) == Passed <==>
      && GetInput(env, ConfigInput, true).Success?
      && ReadPullRequestBody(env, files).Success?
      && UncheckedOf(ParseChecklistConfig(GetInput(env, ConfigInput, true).value),
                     ExtractChecklistEntries(ReadPullRequestBody(env, files).value)) == []
    ensures RunGate(env, files).Failed? && RunGate(env, files).reason.MissingApprovals? ==>
      var items := RunGate(env, files).reason.items;
      items != [] && IsSubsequence(items, ParseChecklistConfig(GetInput(env, ConfigInput, true).value))
  {
    var input := GetInput(env, ConfigInput, true);
    if input.Success? {
      RequiredInputIsNonBlank(env, ConfigInput);
      NonBlankConfigHasItems(input.value);
      var read := ReadPullRequestBody(env, files);
      if read.Success? {
        var items := ParseChecklistConfig(input.value);
        UncheckedInConfiguredOrder(items, ExtractChecklistEntries(read.value));
      }
    }
  }

  /** A pull request whose body is empty passes whatever is configured: no
      line carries a configured label, and such labels are not reported. */
  lemma EmptyBodyPasses(env: Env, files: map<string, Payload>)
    requires GetInput(env, ConfigInput, true).Success?
    requires ReadPullRequestBody(env, files) == Success("")
    ensures RunGate(env, files) == Passed
  {
    var raw := GetInput(env, ConfigInput, true).value;
    EntriesOfEmptyBody();
    var items := ParseChecklistConfig(raw);
    forall item, l | item in items && l in [""] ensures !LineMatches(item, l) {
    }
    UnmatchedLabelsNotReported(items, [""]);
    GateDecision(env, files, raw, "");
  }

  /** With a single label configured (the self-tests use `Test line`) and a
      body of one line `- [m] label` and a line feed, the gate fails exactly
      when the label is the configured one and the box is empty. */
  lemma SingleLabelGate(env: Env, files: map<string, Payload>, item: string, mark: char, content: string)
    requires GetInput(env, ConfigInput, true) == Success(item)
    requires '\n' !in item && '[' !in item
    requires IsBoxMark(mark) && content != "" && IsTrimmed(content) && '\n' !in content
    requires ReadPullRequestBody(env, files) == Success("- [" + [mark] + "] " + content + "\n")
    ensures RunGate(env, files) ==
      if content == item && mark == ' ' then Failed(MissingApprovals([item])) else Passed
  {
    RequiredInputIsNonBlank(env, ConfigInput);
    SingleItemConfig(item);
    NoBracketNoCheckMark(item);
    SingleChecklistLine(item, mark, content);
    GateDecision(env, files, item, "- [" + [mark] + "] " + content + "\n");
  }

  /** A string without `[` holds no check mark. */
  lemma NoBracketNoCheckMark(s: string)
    requires '[' !in s
    ensures !HasCheckMark(s)
  {
  }
}
