# Checklist gate — a Dafny model

The checklist gate is a GitHub Action that fails a pull request when a
configured checklist label appears on some checklist line of the pull
request's description and none of the lines carrying it holds `[x]` or
`[X]`; a label that no line carries is skipped. The action also fails when
its configuration input or the event payload cannot be read. The action is
the single script `dist/index.js`. This
project models that script's decision logic and proves what it does:

- **Config parsing.** `parseChecklistConfig` reads the configured labels
  (input `checklist_lines`, one per line).
- **Body splitting.** `extractChecklistEntries` turns the pull-request body
  into trimmed lines.
- **Line recognition.** `evaluateChecklist` finds lines of the form
  `- [ ] label` or `* [x] label`. The pattern is `^[*-]\s+\[[ xX]\]`. Labels
  are compared exactly, after trimming.
- **Reporting.** A label is reported unchecked when some line carries it and
  none of those lines holds `[x]` or `[X]`.
- **Decision.** `main` fails when its configuration input is missing or
  blank, when the event payload cannot be read or is not a pull-request
  event, and when any label is reported; it passes otherwise.

Modules:

- `Wrappers` has `Option` and `Result`.
- `Seqs` has order-preserving filtering and subsequences.
- `Text` has the JavaScript string primitives the script relies on:
  - the white-space set shared by `String.prototype.trim` and the regex
    class `\s`;
  - `trim`;
  - `split(/\r?\n/)`.
- `Checklist` has config parsing, entry extraction, the line grammar and
  `evaluateChecklist`.
  - `EvaluateChecklist` is a method with the source's `for` loop. It is
    proved equal to the function `UncheckedOf`, and the properties are
    proved about that function.
- `Gate` has `getInput`, the result of `readPullRequestBody`, and `main`.
  - `main` is the function `Gate.RunGate`. Its contract says the empty-config
    exit is never taken. The lemmas below state what it decides.
  - Each `process.exit(1)` is a `Failed` outcome naming the reason.
  - The process environment is a map from variable names to values.
  - The event files are a map from paths to parsed payloads. A path missing
    from the map is a file that cannot be read or parsed.

## Model

| member | source | states |
|---|---|---|
| Text.IsWs | dist/index.js:44 | the white space of `trim` and `\s` includes space, tab, carriage return and line feed, and no printable ASCII character |
| Text.WsRun | dist/index.js:56 | the greedy `\s+` (and `\s*`, dist/index.js:60) run starting at a position stays inside the line |
| Text.WsRunIsMaximal | dist/index.js:56 | that run is all white space and is followed by the end of the line or a non-white character |
| Text.WsRunStopsAt | dist/index.js:56 | a white-space stretch ending before a non-white character is exactly the run |
| Text.Trim | dist/index.js:44 | `trim` leaves no white space at either end |
| Text.TrimSlice | dist/index.js:44 | `trim` returns a contiguous piece of its input, with only white space before and after it |
| Text.TrimUnique | dist/index.js:44 | any cut of white space off both ends that leaves a trimmed core gives exactly the trim result |
| Text.TrimEmptyIff | dist/index.js:6 | `trim` yields the empty string exactly when the input is all white space |
| Text.TrimIdempotent | dist/index.js:43-45 | trimming twice is trimming once |
| Text.TrimSkipsLeadingWs | dist/index.js:60 | white space before a string does not change its trimmed form, so the `\s*` in the replacement is redundant before `trim` |
| Text.TrimAddsNothing | dist/index.js:48 | trimming introduces no character, e.g. no line feed |
| Text.TrimDropCr | dist/index.js:48 | dropping a carriage return at the end of a line does not change its trimmed form |
| Text.SplitLines | dist/index.js:15 | `split(/\r?\n/)` gives one more piece than there are line feeds, and no piece holds a line feed |
| Text.SplitLinesOfJoin | dist/index.js:15 | `split(/\r?\n/)` undoes joining with `\r\n`, and with `\n` when no piece but the last ends in a carriage return |
| Checklist.ExtractChecklistEntries | dist/index.js:47-49 | one entry per line of the body (line feeds + 1), each trimmed and without a line feed |
| Checklist.EntriesOfEmptyBody | dist/index.js:47-49 | the empty body gives the single entry `""` |
| Checklist.EntriesOfSingleLine | dist/index.js:47-49 | a body without a line feed gives one entry, the trimmed body |
| Checklist.EntriesAtFirstLf | dist/index.js:47-49 | the body up to its first line feed gives the first entry, trimmed, whether or not a carriage return precedes the line feed; the rest of the body gives the remaining entries |
| Checklist.EntriesOfJoin | dist/index.js:47-49 | lines without line feeds joined by `\n` or `\r\n` come back as the entries, line k trimmed as entry k |
| Checklist.BodyPieces | dist/index.js:47-49 | every body is some lines without line feeds joined by `\n`, and its entries are those lines trimmed, in order, so mixed `\r\n` and `\n` endings are covered |
| Checklist.EntriesOfMixedEndings | dist/index.js:47-49 | `a\r\nb\nc` gives the entries `a`, `b`, `c`, each trimmed |
| Checklist.EntriesOfJoinTrimmed | dist/index.js:47-49 | trimmed lines joined by `\n` or `\r\n` come back unchanged as the entries |
| Checklist.EntriesOfLineAndLf | dist/index.js:47-49 | a line without a line feed, followed by one, gives that line trimmed, then `""` |
| Checklist.ParseChecklistConfig | dist/index.js:13-18 | every label is non-empty, trimmed and without a line feed; the labels are exactly the non-blank trimmed lines, each as often as it occurs, in their original order (a subsequence of the lines) |
| Checklist.ConfigOfJoin | dist/index.js:13-18 | labels written one per line are parsed back as the same list |
| Checklist.SingleItemConfig | dist/index.js:13-18 | a one-line configuration configures that one label |
| Checklist.ConfigReparse | dist/index.js:13-18 | writing the parsed configuration out one per line and parsing it again changes nothing |
| Checklist.NormalizeChecklistLine | dist/index.js:43-45 | the normalised line is the trimmed line, and normalising it again leaves it unchanged |
| Checklist.CheckboxPrefixEnd | dist/index.js:56 | a recognised line has a bullet `-`/`*`, at least one white-space character, then `[`, one of space/`x`/`X`, and `]` |
| Checklist.CheckboxPrefixComplete | dist/index.js:56 | every line of that grammar is recognised, and its prefix ends right after the `]` |
| Checklist.CheckboxAtUnique | dist/index.js:56 | a line can be read as a checklist line in at most one way |
| Checklist.ChecklistLabel | dist/index.js:56-61 | only lines the pattern accepts have a label: the trimmed text after the closing bracket |
| Checklist.MatchingLines | dist/index.js:55-62 | the lines kept for an item are exactly the lines whose label is that item |
| Checklist.LineMatchesIff | dist/index.js:55-62 | a line matches an item exactly when it has the checkbox prefix and the trimmed rest equals the item, case-sensitively |
| Checklist.CheckboxMatches | dist/index.js:55-62 | a checklist line whose trimmed rest is the item matches it |
| Checklist.MatchedCheckbox | dist/index.js:55-62 | a matching line has a checkbox prefix, and its trimmed rest is the item |
| Checklist.AnyChecked | dist/index.js:68 | `some` holds exactly when some position of the matching lines holds a line with a check mark |
| Checklist.HasCheckMark | dist/index.js:68 | `/\[[xX]\]/` finds `[x]` or `[X]` anywhere in the line |
| Checklist.CheckMarkOfChecklistLine | dist/index.js:68 | on a checklist line, a check mark is the box itself or lies inside the label |
| Checklist.IsUncheckedIff | dist/index.js:64-71 | an item is reported exactly when at least one line matches it and no matching line has a check mark; an item nothing matches is not reported |
| Checklist.EvaluateChecklist | dist/index.js:51-75 | the loop returns `UncheckedOf`: the configured items that are reported, in configured order |
| Checklist.UncheckedOfSnoc | dist/index.js:54-72 | one more configured item adds that item exactly when it is reported |
| Checklist.UncheckedInConfiguredOrder | dist/index.js:54-72 | the result is a subsequence of the configured items |
| Checklist.UncheckedMembership | dist/index.js:54-72 | a label is in the result exactly when it is configured and reported |
| Checklist.UncheckedRepetitions | dist/index.js:54-72 | a label configured n times is evaluated each time: it appears n times or not at all |
| Checklist.UncheckedOfAppend | dist/index.js:54-72 | evaluating two configurations one after the other is evaluating their concatenation |
| Checklist.UncheckedIffEmptyBoxes | dist/index.js:68-71 | a label containing `[x]` is never reported; any other label is reported exactly when some line matches and every matching line has an empty box |
| Checklist.UnmatchedLabelsNotReported | dist/index.js:64-66 | labels that no line carries are never reported |
| Checklist.BulletLine | dist/index.js:55-68 | `- [m] label` has the label `label`, and is checked exactly when m is `x`/`X` or the label holds a check mark |
| Checklist.OneLineVerdict | dist/index.js:51-75 | with a one-line body ending in a line feed, an item is reported exactly when that line carries it with no check mark |
| Checklist.SingleChecklistLine | dist/index.js:51-75 | for an item without a check mark and the body `- [m] label` plus a line feed, the item is reported exactly when the label is the item and the box is empty |
| Gate.EnvValue | dist/index.js:5 | `process.env[key]`, an unset variable read as `""`; the value is empty (falsy) exactly when the variable is unset or empty, as at dist/index.js:5 and :21-22 |
| Gate.UpperAscii | dist/index.js:4 | upper-casing maps `a`..`z` to `A`..`Z` and leaves other characters alone |
| Gate.InputKey | dist/index.js:4 | the variable name is `INPUT_` followed by one character per character of the name: a space becomes `_`, `a`..`z` become `A`..`Z`, every other character stays; so no space and no lower-case ASCII letter remains |
| Gate.ConfigInputKey | dist/index.js:78 | the configuration is read from `INPUT_CHECKLIST_LINES` |
| Gate.GetInput | dist/index.js:3-11 | the value is the variable's trimmed value (`""` when unset); a required input fails exactly when that value is all white space, with the input's name as the reason |
| Gate.RequiredInputIsNonBlank | dist/index.js:5-10 | a required input that is returned is non-empty and trimmed |
| Gate.ReadPullRequestBody | dist/index.js:20-41 | fails, in order, when `GITHUB_EVENT_PATH` is unset or empty, when the payload cannot be read, and when it has no pull request; otherwise returns the body if it is a string, else `""` |
| Gate.NonBlankConfigHasItems | dist/index.js:78-84 | a configuration that starts with a non-white character configures at least one label |
| Gate.RunGate | dist/index.js:77-97 | `main` never takes the "No checklist lines configured" exit (dist/index.js:81-84); its other outcomes are stated by `Gate.GateDecision` and `Gate.GateOutcomes` |
| Gate.GateDecision | dist/index.js:86-96 | once configuration and body are read, the gate fails listing exactly the unchecked labels, and passes when there are none |
| Gate.GateOutcomes | dist/index.js:77-97 | a missing configuration is the first failure; a failed event read is the next; the gate passes exactly when both reads succeed and nothing is unchecked; a reported list is non-empty and in configured order |
| Gate.EmptyBodyPasses | dist/index.js:86-96 | a pull request with an empty body passes whatever is configured |
| Gate.SingleLabelGate | dist/index.js:77-97 | with one configured label without `[` and the body `- [m] label` plus a line feed, the gate fails exactly when the label is the configured one and the box is empty |
| Gate.NoBracketNoCheckMark | dist/index.js:68 | a string without `[` has no check mark |

## Left out

- Console output.
  - The messages of `getInput`, `readPullRequestBody` and `main` are not modelled.
  - The `- [ ] item` lines printed for unchecked labels (dist/index.js:91-92) are not modelled.
  - A `Failed` outcome carries the reason and, for unchecked labels, the list that is printed.
- Exit codes. `process.exit(1)` is `Failed` and a normal end is `Passed`. The model does not stop a process.
- File reading and JSON parsing. `readFileSync` and `JSON.parse` are the `files` map, from a path to the parsed payload. The model does not say which files fail to read or parse; a path outside the map is one that does.
- Payload shape. Only two things about a payload are modelled:
  - whether `pull_request` is truthy;
  - whether its `body` is a string.
- Gate.UpperAscii: it upper-cases ASCII letters only. `toUpperCase` also maps letters of other scripts (`é` to `É`, and `ß` to the two letters `SS`). `getInput` is only ever called with `checklist_lines`, so this does not affect the gate.
- Gate.InputKey: for the same reason, a non-ASCII letter of the input name stays as it is in the variable name, and the key has exactly one character per character of the name, whereas `toUpperCase` can lengthen it (`ß`).
- Characters. Dafny characters are Unicode scalar values, while JavaScript strings are UTF-16 code units.
  - No JavaScript white space is a surrogate, so trimming and `\s` agree.
  - Strings holding lone surrogates cannot be expressed in the model.
- The top-level `main()` call (dist/index.js:99) and exceptions the script does not catch.
- test/action.test.js is not part of this model. It spawns processes and writes temporary files. Its scenarios are stated as `Gate.SingleLabelGate` and `Gate.EmptyBodyPasses`.

## Behaviour notes

This section covers places where the code differs from other material in the repository. The model follows the code.

- **Unmatched labels are skipped silently** (dist/index.js:64-66). The self-tests expect these cases to fail:
  - a body line whose label differs from the configured one, `- [ ] Test line extra data` (test/action.test.js:27);
  - an empty body (test/action.test.js:89-113).

  With `INPUT_CHECKLIST_LINES` set to `Test line`, the code passes both. (The harness itself sets only `GITHUB_EVENT_PATH`, so unless the surrounding environment sets that input, both runs stop at `getInput`, dist/index.js:6-8; see "Configuration source" below.)
  - `Gate.SingleLabelGate` gives `Passed` for the label `Test line extra data`;
  - `Gate.EmptyBodyPasses` gives `Passed` for the empty body.
- **Configuration source.** The self-tests write `config/checklist-items.txt`. The script never reads that file; it reads its configuration from `INPUT_CHECKLIST_LINES` (`Gate.ConfigInputKey`).
- **A label containing `[x]` is never reported.** The check-mark test looks at the whole line, including the label, so an empty box whose label holds `[x]` counts as checked (`Checklist.UncheckedIffEmptyBoxes`).
- **The "No checklist lines configured" branch is dead** (dist/index.js:81-84). A required input that is returned is trimmed and non-empty, so its first line is non-blank (`Gate.RunGate`).
- **The broader design is not in this script.** The repository's description of the gate mentions a richer design that `dist/index.js` does not contain:
  - status tokens `✔` and `NA`;
  - separate "missing" and "invalid status" buckets;
  - an excluded-author bypass.

  Only `[ ]`, `[x]` and `[X]` boxes exist, and labels without a matching line are skipped.
- **White space.** `Text.IsWs` is the ECMAScript set: the WhiteSpace and LineTerminator code points. The proofs depend only on a few facts:
  - space, tab, carriage return and line feed are white space;
  - brackets, bullets, `x` and letters are not.
