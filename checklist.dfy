/** The decision logic of the checklist gate: reading the configured labels,
    splitting the pull-request body into lines, recognising checklist lines
    and deciding which configured labels are left unchecked. */
module Checklist {
  import opened Wrappers
  import opened Seqs
  import opened Text

  // ---------------------------------------------------------------------
  // Configuration and body lines
  // ---------------------------------------------------------------------

  /** `lines.map((line) => line.trim())` */
  function TrimEach(lines: seq<string>): (r: seq<string>)
    ensures |r| == |lines|
    ensures forall k :: 0 <= k < |lines| ==> r[k] == Trim(lines[k])
  {
    seq(|lines|, k requires 0 <= k < |lines| => Trim(lines[k]))
  }

  /** `line.length > 0` */
  predicate IsNonBlank(line: string)
  {
    |line| > 0
  }

  /** extractChecklistEntries: one trimmed entry per line of the body, blank
      lines included; a body without a line feed is a single entry. */
  function ExtractChecklistEntries(body: string): (entries: seq<string>)
    ensures |entries| == multiset(body)['\n'] + 1
    ensures forall k :: 0 <= k < |entries| ==> IsTrimmed(entries[k]) && '\n' !in entries[k]
  {
    var lines := SplitLines(body);
    forall k | 0 <= k < |lines| ensures '\n' !in Trim(lines[k]) {
      TrimAddsNothing(lines[k], '\n');
    }
    TrimEach(lines)
  }

  /** parseChecklistConfig: the non-blank trimmed lines of the raw
      configuration, in their original order. */
  function ParseChecklistConfig(raw: string): (items: seq<string>)
    ensures forall k :: 0 <= k < |items| ==> items[k] != "" && IsTrimmed(items[k]) && '\n' !in items[k]
    ensures forall x :: x in items <==> x != "" && x in ExtractChecklistEntries(raw)
    ensures IsSubsequence(items, ExtractChecklistEntries(raw))
    ensures forall x :: multiset(items)[x] == if x != "" then multiset(ExtractChecklistEntries(raw))[x] else 0
  {
    var entries := ExtractChecklistEntries(raw);
    var items := Filter(entries, IsNonBlank);
    FilterIsSubsequence(entries, IsNonBlank);
    forall x ensures multiset(items)[x] == if x != "" then multiset(entries)[x] else 0 {
      FilterMultiplicity(entries, IsNonBlank, x);
    }
    forall k | 0 <= k < |items| ensures items[k] != "" && IsTrimmed(items[k]) && '\n' !in items[k] {
      assert items[k] in entries;
      var j :| 0 <= j < |entries| && entries[j] == items[k];
    }
    items
  }

  /** normalizeChecklistLine: the line without surrounding white space;
      normalising again changes nothing. */
  function NormalizeChecklistLine(line: string): (r: string)
    ensures r == Trim(line)
    ensures IsTrimmed(r) && Trim(r) == r
  {
    TrimIdempotent(line);
    Trim(line)
  }

  lemma EntriesOfEmptyBody()
    ensures ExtractChecklistEntries("") == [""]
  {
    assert SplitLines("") == [""];
    assert AllWs("");
  }

  /** A body without a line feed is one entry, its trimmed self. */
  lemma EntriesOfSingleLine(body: string)
    requires '\n' !in body
    ensures ExtractChecklistEntries(body) == [Trim(body)]
  {
    assert IndexOf(body, '\n').None?;
  }

  /** The first line of a body, up to its first line feed, gives the first
      entry, trimmed; a carriage return ending it is trimmed away with the
      rest of the white space. */
  lemma EntriesAtFirstLf(head: string, rest: string)
    requires '\n' !in head
    ensures ExtractChecklistEntries(head + ['\n'] + rest) == [Trim(head)] + ExtractChecklistEntries(rest)
  {
    SplitLinesAtFirstLf(head, rest);
    TrimDropCr(head);
    var lines := SplitLines(rest);
    assert TrimEach([DropCr(head)] + lines) == [Trim(DropCr(head))] + TrimEach(lines);
  }

  /** Lines without line feeds, joined with "\n" or "\r\n" (or a mix: a
      line ending in a carriage return reads the same either way), come back
      as the body's entries, each trimmed: indented or padded lines lose
      their padding. */
  lemma {:induction false} EntriesOfJoin(lines: seq<string>, sep: string)
    requires |lines| >= 1 && (sep == "\n" || sep == "\r\n")
    requires forall k :: 0 <= k < |lines| ==> '\n' !in lines[k]
    ensures ExtractChecklistEntries(Join(lines, sep)) == TrimEach(lines)
  {
    if |lines| == 1 {
      EntriesOfSingleLine(lines[0]);
    } else {
      var tail := lines[1..];
      assert forall k :: 0 <= k < |tail| ==> tail[k] == lines[k + 1];
      EntriesOfJoinStep(lines, sep);
      EntriesOfJoin(tail, sep);
      TrimEachCons(lines);
    }
  }

  lemma TrimEachCons(lines: seq<string>)
    requires |lines| >= 1
    ensures TrimEach(lines) == [Trim(lines[0])] + TrimEach(lines[1..])
  {
  }

  /** One step of EntriesOfJoin: the first separator ends the first entry. */
  lemma EntriesOfJoinStep(lines: seq<string>, sep: string)
    requires |lines| >= 2 && '\n' !in lines[0] && (sep == "\n" || sep == "\r\n")
    ensures ExtractChecklistEntries(Join(lines, sep)) == [Trim(lines[0])] + ExtractChecklistEntries(Join(lines[1..], sep))
  {
    var head := if sep == "\n" then lines[0] else lines[0] + ['\r'];
    var rest := Join(lines[1..], sep);
    assert Join(lines, sep) == head + ['\n'] + rest;
    EntriesAtFirstLf(head, rest);
    if sep == "\r\n" {
      TrimDropCr(head);
      assert DropCr(head) == lines[0];
    }
  }

  /** Every body is its lines joined with "\n", each line keeping any
      carriage return before its line feed, and its entries are those lines
      trimmed. */
  lemma {:induction false} BodyPieces(body: string) returns (lines: seq<string>)
    ensures |lines| >= 1 && forall k :: 0 <= k < |lines| ==> '\n' !in lines[k]
    ensures Join(lines, "\n") == body
    ensures ExtractChecklistEntries(body) == TrimEach(lines)
    decreases |body|
  {
    match IndexOf(body, '\n')
    case None =>
      EntriesOfSingleLine(body);
      lines := [body];
    case Some(i) =>
      var head := body[..i];
      var rest := body[i + 1..];
      assert body == head + ['\n'] + rest;
      var tail := BodyPieces(rest);
      lines := [head] + tail;
      assert lines[0] == head && lines[1..] == tail;
      assert Join(lines, "\n") == head + "\n" + Join(tail, "\n");
      EntriesAtFirstLf(head, rest);
      TrimEachCons(lines);
  }

  /** A body mixing both line endings: each entry is its line trimmed. */
  lemma EntriesOfMixedEndings(a: string, b: string, c: string)
    requires '\n' !in a && '\n' !in b && '\n' !in c
    ensures ExtractChecklistEntries(a + "\r\n" + b + "\n" + c) == [Trim(a), Trim(b), Trim(c)]
  {
    var r := b + ['\n'] + c;
    assert a + "\r\n" + b + "\n" + c == (a + ['\r']) + ['\n'] + r;
    EntriesAtFirstLf(a + ['\r'], r);
    TrimDropCr(a + ['\r']);
    assert DropCr(a + ['\r']) == a;
    EntriesAtFirstLf(b, c);
    EntriesOfSingleLine(c);
  }

  /** Trimmed lines come back unchanged. */
  lemma EntriesOfJoinTrimmed(lines: seq<string>, sep: string)
    requires |lines| >= 1 && (sep == "\n" || sep == "\r\n")
    requires forall k :: 0 <= k < |lines| ==> IsTrimmed(lines[k]) && '\n' !in lines[k]
    ensures ExtractChecklistEntries(Join(lines, sep)) == lines
  {
    forall k | 0 <= k < |lines| ensures Trim(lines[k]) == lines[k] {
      TrimOfTrimmed(lines[k]);
    }
    EntriesOfJoin(lines, sep);
  }

  /** Configured labels written one per line are read back as they were. */
  lemma ConfigOfJoin(items: seq<string>)
    requires forall k :: 0 <= k < |items| ==> items[k] != "" && IsTrimmed(items[k]) && '\n' !in items[k]
    ensures ParseChecklistConfig(Join(items, "\n")) == items
  {
    if items == [] {
      EntriesOfEmptyBody();
    } else {
      EntriesOfJoinTrimmed(items, "\n");
      FilterAllKept(items, IsNonBlank);
    }
  }

  /** A configuration of one label on one line configures that label. */
  lemma SingleItemConfig(item: string)
    requires item != "" && IsTrimmed(item) && '\n' !in item
    ensures ParseChecklistConfig(item) == [item]
  {
    assert Join([item], "\n") == item;
    ConfigOfJoin([item]);
  }

  /** Writing the parsed configuration back one label per line and parsing it
      again gives the same configuration. */
  lemma ConfigReparse(raw: string)
    ensures ParseChecklistConfig(Join(ParseChecklistConfig(raw), "\n")) == ParseChecklistConfig(raw)
  {
    ConfigOfJoin(ParseChecklistConfig(raw));
  }

  // ---------------------------------------------------------------------
  // Checklist lines
  // ---------------------------------------------------------------------

  /** `[*-]` */
  predicate IsBullet(c: char)
  {
    c == '-' || c == '*'
  }

  /** `[ xX]` */
  predicate IsBoxMark(c: char)
  {
    c == ' ' || c == 'x' || c == 'X'
  }

  /** line starts with the checkbox prefix `[*-]\s+\[[ xX]\]` whose opening
      bracket is at position k. */
  ghost predicate CheckboxAt(line: string, k: nat)
  {
    && 2 <= k && k + 3 <= |line|
    && IsBullet(line[0])
    && (forall i :: 1 <= i < k ==> IsWs(line[i]))
    && line[k] == '[' && IsBoxMark(line[k + 1]) && line[k + 2] == ']'
  }

  /** `/^[*-]\s+\[[ xX]\]/`: the end of line's checkbox prefix, if it has one.
      The greedy `\s+` takes the whole white-space run after the bullet; as
      `[` is not white space, backtracking cannot find another match. */
  function CheckboxPrefixEnd(line: string): (e: Option<nat>)
    ensures e.Some? ==> e.value >= 5 && CheckboxAt(line, e.value - 3)
  {
    if line == [] || !IsBullet(line[0]) then None
    else
      WsRunIsMaximal(line, 1);
      var k := 1 + WsRun(line, 1);
      if k >= 2 && k + 3 <= |line| && line[k] == '[' && IsBoxMark(line[k + 1]) && line[k + 2] == ']'
      then Some(k + 3)
      else None
  }

  /** Every line of the checkbox grammar is recognised, at its only bracket. */
  lemma CheckboxPrefixComplete(line: string, k: nat)
    requires CheckboxAt(line, k)
    ensures CheckboxPrefixEnd(line) == Some(k + 3)
  {
    WsRunStopsAt(line, 1, k);
  }

  /** There is at most one way to read a line as a checklist line. */
  lemma CheckboxAtUnique(line: string, k1: nat, k2: nat)
    requires CheckboxAt(line, k1) && CheckboxAt(line, k2)
    ensures k1 == k2
  {
    CheckboxPrefixComplete(line, k1);
    CheckboxPrefixComplete(line, k2);
  }

  /** The label of a checklist line:
      `normalizeChecklistLine(line.replace(/^[*-]\s+\[[ xX]\]\s*\/, ''))`
      for a line the first pattern accepts; None for any other line. The
      `\s*` of the replacement makes no difference after trimming. */
  function ChecklistLabel(line: string): (content: Option<string>)
    ensures content.Some? <==> CheckboxPrefixEnd(line).Some?
    ensures content.Some? ==> content.value == Trim(line[CheckboxPrefixEnd(line).value..])
  {
    match CheckboxPrefixEnd(line)
    case None => None
    case Some(e) =>
      var n := WsRun(line, e);
      WsRunIsMaximal(line, e);
      assert line[e..] == line[e..e + n] + line[e + n..];
      assert AllWs(line[e..e + n]);
      TrimSkipsLeadingWs(line[e..e + n], line[e + n..]);
      Some(NormalizeChecklistLine(line[e + n..]))
  }

  /** The filter in evaluateChecklist: line is a checklist line labelled
      exactly item. */
  predicate LineMatches(item: string, line: string)
  {
    ChecklistLabel(line) == Some(item)
  }

  /** A line matches item exactly when it has the checkbox prefix and what
      follows the closing bracket, trimmed, is item (case-sensitive). */
  lemma LineMatchesIff(item: string, line: string)
    ensures LineMatches(item, line) <==> exists k: nat :: CheckboxAt(line, k) && Trim(line[k + 3..]) == item
  {
    if LineMatches(item, line) {
      var k := MatchedCheckbox(item, line);
    }
    if exists k: nat :: CheckboxAt(line, k) && Trim(line[k + 3..]) == item {
      var k: nat :| CheckboxAt(line, k) && Trim(line[k + 3..]) == item;
      CheckboxMatches(item, line, k);
    }
  }

  /** A checklist line whose trimmed rest is item matches item. */
  lemma CheckboxMatches(item: string, line: string, k: nat)
    requires CheckboxAt(line, k) && Trim(line[k + 3..]) == item
    ensures LineMatches(item, line)
  {
    CheckboxPrefixComplete(line, k);
  }

  /** The checkbox of a matching line, and its label. */
  lemma MatchedCheckbox(item: string, line: string) returns (k: nat)
    requires LineMatches(item, line)
    ensures CheckboxAt(line, k) && Trim(line[k + 3..]) == item
  {
    var e := CheckboxPrefixEnd(line).value;
    k := e - 3;
    assert line[k + 3..] == line[e..];
  }

  /** A check mark `[x]` or `[X]` starts at position i of line. */
  ghost predicate CheckMarkAt(line: string, i: nat)
  {
    i + 3 <= |line| && line[i] == '[' && (line[i + 1] == 'x' || line[i + 1] == 'X') && line[i + 2] == ']'
  }

  /** `/\[[xX]\]/.test(line)`: a check mark anywhere in line. */
  function HasCheckMark(line: string): (b: bool)
    ensures b <==> exists i :: CheckMarkAt(line, i)
  {
    if |line| < 3 then false
    else if line[0] == '[' && (line[1] == 'x' || line[1] == 'X') && line[2] == ']' then
      assert CheckMarkAt(line, 0);
      true
    else
      var rest := HasCheckMark(line[1..]);
      assert !CheckMarkAt(line, 0);
      assert forall i: nat :: CheckMarkAt(line[1..], i) ==> CheckMarkAt(line, i + 1);
      assert forall i: nat :: CheckMarkAt(line, i) && i > 0 ==> CheckMarkAt(line[1..], i - 1);
      rest
  }

  /** On a checklist line a check mark is either the box itself or lies
      inside the label: so an unchecked box whose label contains `[x]` still
      counts as checked. */
  lemma CheckMarkOfChecklistLine(line: string, k: nat)
    requires CheckboxAt(line, k)
    ensures HasCheckMark(line) <==> line[k + 1] != ' ' || HasCheckMark(Trim(line[k + 3..]))
  {
    var tail := line[k + 3..];
    var j := TrimSlice(tail);
    var core := Trim(tail);
    assert tail == tail[..j] + core + tail[j + |core|..];
    HasCheckMarkPadded(tail[..j], core, tail[j + |core|..]);
    if HasCheckMark(line) {
      var i: nat :| CheckMarkAt(line, i);
      CheckMarkPosition(line, k, i);
      if i != k {
        assert CheckMarkAt(tail, i - (k + 3));
      }
    }
    if HasCheckMark(tail) {
      var i: nat :| CheckMarkAt(tail, i);
      assert CheckMarkAt(line, i + k + 3);
    }
    if line[k + 1] != ' ' {
      assert CheckMarkAt(line, k);
    }
  }

  /** On a checklist line no check mark starts inside the prefix except at
      the box. */
  lemma CheckMarkPosition(line: string, k: nat, i: nat)
    requires CheckboxAt(line, k) && CheckMarkAt(line, i)
    ensures i == k || i >= k + 3
  {
  }

  /** A check mark contains no white space, so white space around a string
      neither adds nor hides one. */
  lemma HasCheckMarkPadded(w1: string, core: string, w2: string)
    requires AllWs(w1) && AllWs(w2)
    ensures HasCheckMark(w1 + core + w2) <==> HasCheckMark(core)
  {
    var s := w1 + core + w2;
    if HasCheckMark(s) {
      var i: nat :| CheckMarkAt(s, i);
      assert |w1| <= i && i + 3 <= |w1| + |core|;
      assert CheckMarkAt(core, i - |w1|);
    }
    if HasCheckMark(core) {
      var i: nat :| CheckMarkAt(core, i);
      assert CheckMarkAt(s, i + |w1|);
    }
  }

  // ---------------------------------------------------------------------
  // Evaluation
  // ---------------------------------------------------------------------

  /** `checklistLines.filter(...)` for one configured item. */
  function MatchingLines(lines: seq<string>, item: string): (r: seq<string>)
    ensures forall l :: l in r <==> l in lines && LineMatches(item, l)
  {
    Filter(lines, (line: string) => LineMatches(item, line))
  }

  /** `matchingLines.some((line) => /\[[xX]\]/.test(line))` */
  predicate AnyChecked(lines: seq<string>): (b: bool)
    ensures b <==> exists k :: 0 <= k < |lines| && HasCheckMark(lines[k])
  {
    exists line :: line in lines && HasCheckMark(line)
  }

  /** evaluateChecklist's verdict on one configured item, step by step as the
      loop body takes it. */
  predicate IsUnchecked(item: string, lines: seq<string>)
  {
    var matching := MatchingLines(lines, item);
    if |matching| == 0 then false else !AnyChecked(matching)
  }

  /** An item is reported exactly when at least one line matches it and none
      of the matching lines carries a check mark; a label no line matches is
      not reported. */
  lemma IsUncheckedIff(item: string, lines: seq<string>)
    ensures IsUnchecked(item, lines) <==>
      (exists l :: l in lines && LineMatches(item, l))
      && (forall l :: l in lines && LineMatches(item, l) ==> !HasCheckMark(l))
  {
    var matching := MatchingLines(lines, item);
    if |matching| != 0 {
      assert matching[0] in matching;
    }
  }

  /** What evaluateChecklist returns: the configured items that are
      reported, in configured order and with repetitions. */
  function UncheckedOf(items: seq<string>, lines: seq<string>): seq<string>
  {
    Filter(items, (item: string) => IsUnchecked(item, lines))
  }

  /** evaluateChecklist */
  method EvaluateChecklist(configuredItems: seq<string>, checklistLines: seq<string>)
    returns (uncheckedItems: seq<string>)
    ensures uncheckedItems == UncheckedOf(configuredItems, checklistLines)
  {
    uncheckedItems := [];
    for i := 0 to |configuredItems|
      invariant uncheckedItems == UncheckedOf(configuredItems[..i], checklistLines)
    {
      var item := configuredItems[i];
      assert configuredItems[..i + 1] == configuredItems[..i] + [item];
      UncheckedOfSnoc(configuredItems[..i], item, checklistLines);
      var matchingLines := MatchingLines(checklistLines, item);
      if |matchingLines| == 0 {
        continue;
      }
      var isChecked := AnyChecked(matchingLines);
      if !isChecked {
        uncheckedItems := uncheckedItems + [item];
      }
    }
    assert configuredItems[..|configuredItems|] == configuredItems;
  }

  lemma UncheckedOfSnoc(items: seq<string>, item: string, lines: seq<string>)
    ensures UncheckedOf(items + [item], lines)
         == UncheckedOf(items, lines) + (if IsUnchecked(item, lines) then [item] else [])
  {
    FilterAppend(items, [item], (item: string) => IsUnchecked(item, lines));
  }

  /** The result lists configured items only, in configured order. */
  lemma UncheckedInConfiguredOrder(items: seq<string>, lines: seq<string>)
    ensures IsSubsequence(UncheckedOf(items, lines), items)
  {
    FilterIsSubsequence(items, (item: string) => IsUnchecked(item, lines));
  }

  /** A label is listed exactly when it is configured and reported. */
  lemma UncheckedMembership(items: seq<string>, lines: seq<string>, x: string)
    ensures x in UncheckedOf(items, lines) <==> x in items && IsUnchecked(x, lines)
  {
  }

  /** A label configured n times is evaluated each time: it is listed n times
      or not at all. */
  lemma UncheckedRepetitions(items: seq<string>, lines: seq<string>, x: string)
    ensures multiset(UncheckedOf(items, lines))[x] == if IsUnchecked(x, lines) then multiset(items)[x] else 0
  {
    FilterMultiplicity(items, (item: string) => IsUnchecked(item, lines), x);
  }

  /** Evaluating a concatenated configuration evaluates each part. */
  lemma UncheckedOfAppend(a: seq<string>, b: seq<string>, lines: seq<string>)
    ensures UncheckedOf(a + b, lines) == UncheckedOf(a, lines) + UncheckedOf(b, lines)
  {
    FilterAppend(a, b, (item: string) => IsUnchecked(item, lines));
  }

  /** With a check-mark-free label, the label is reported exactly when some
      line matches it and every matching line has an empty box; a label that
      itself contains `[x]` or `[X]` is never reported. */
  lemma UncheckedIffEmptyBoxes(item: string, lines: seq<string>)
    ensures HasCheckMark(item) ==> !IsUnchecked(item, lines)
    ensures !HasCheckMark(item) ==>
      (IsUnchecked(item, lines) <==>
         (exists l :: l in lines && LineMatches(item, l))
         && forall l, k: nat :: l in lines && LineMatches(item, l) && CheckboxAt(l, k) ==> l[k + 1] == ' ')
  {
    forall l, k: nat | LineMatches(item, l) && CheckboxAt(l, k)
      ensures HasCheckMark(l) <==> l[k + 1] != ' ' || HasCheckMark(item)
    {
      CheckboxPrefixComplete(l, k);
      CheckMarkOfChecklistLine(l, k);
    }
    forall l | LineMatches(item, l)
      ensures exists k: nat :: CheckboxAt(l, k)
    {
      var k := MatchedCheckbox(item, l);
    }
    IsUncheckedIff(item, lines);
  }

  /** A configured label no checklist line carries is never reported. */
  lemma UnmatchedLabelsNotReported(items: seq<string>, lines: seq<string>)
    requires forall item, l :: item in items && l in lines ==> !LineMatches(item, l)
    ensures UncheckedOf(items, lines) == []
  {
    forall item | item in items ensures !IsUnchecked(item, lines) {
      IsUncheckedIff(item, lines);
    }
    FilterNoneKept(items, (item: string) => IsUnchecked(item, lines));
  }

  /** A body of one line and a final line feed yields that line, trimmed,
      and an empty last entry. */
  lemma EntriesOfLineAndLf(line: string)
    requires '\n' !in line
    ensures ExtractChecklistEntries(line + "\n") == [Trim(line), ""]
  {
    assert line + "\n" == line + ['\n'] + "";
    EntriesAtFirstLf(line, "");
    EntriesOfEmptyBody();
  }

  /** `- [m] label` is a checklist line labelled label, checked exactly when
      m is a mark or the label itself holds one. */
  lemma BulletLine(mark: char, content: string)
    requires IsBoxMark(mark)
    requires content != "" && IsTrimmed(content)
    ensures var line := "- [" + [mark] + "] " + content;
      && IsTrimmed(line) && DropCr(line) == line && ChecklistLabel(line) == Some(content)
      && (HasCheckMark(line) <==> mark != ' ' || HasCheckMark(content))
  {
    var line := "- [" + [mark] + "] " + content;
    assert line[|line| - 1] == content[|content| - 1];
    assert CheckboxAt(line, 2);
    CheckboxPrefixComplete(line, 2);
    assert line[5..] == " " + content;
    assert AllWs(" ");
    TrimSkipsLeadingWs(" ", content);
    TrimOfTrimmed(content);
    CheckMarkOfChecklistLine(line, 2);
  }

  /** A one-line body with a final line feed: the item is reported exactly
      when that line carries it with no check mark. */
  lemma OneLineVerdict(item: string, line: string)
    requires item != "" && '\n' !in line && IsTrimmed(line)
    ensures UncheckedOf([item], ExtractChecklistEntries(line + "\n"))
         == if LineMatches(item, line) && !HasCheckMark(line) then [item] else []
  {
    TrimOfTrimmed(line);
    EntriesOfLineAndLf(line);
    var lines := [line, ""];
    LineThenBlank(item, line);
    assert [item] == [] + [item];
    UncheckedOfSnoc([], item, lines);
  }

  lemma LineThenBlank(item: string, line: string)
    requires item != ""
    ensures IsUnchecked(item, [line, ""]) <==> LineMatches(item, line) && !HasCheckMark(line)
  {
    assert !LineMatches(item, "");
    IsUncheckedIff(item, [line, ""]);
  }

  /** The one-line bodies `- [m] label` followed by a line feed, against a
      single configured item: the item is reported exactly when the label is
      the item and the box is empty. */
  lemma SingleChecklistLine(item: string, mark: char, content: string)
    requires item != "" && !HasCheckMark(item)
    requires IsBoxMark(mark)
    requires content != "" && IsTrimmed(content) && '\n' !in content
    ensures UncheckedOf([item], ExtractChecklistEntries("- [" + [mark] + "] " + content + "\n"))
         == if content == item && mark == ' ' then [item] else []
  {
    var line := "- [" + [mark] + "] " + content;
    BulletLine(mark, content);
    assert '\n' !in line;
    OneLineVerdict(item, line);
  }
}
