/**
 * `mergeGitIgnoreFiles`: the project's entries whose key no template entry has are new; each
 * new entry goes to the end of the template section its category picks, or, failing that,
 * under a `# Project-specific entries` heading appended at the end.
 */
module Merge {
  import opened Strings
  import opened EntryKeys
  import opened Entries
  import opened Sections
  import opened Placement

  /** `templateEntriesSet`: the keys of the template's entries. */
  function TemplateKeys(template: string): set<string> {
    set e | e in ProcessGitignoreEntries(template) :: Normalize(e)
  }

  /** A project line that counts as new: an entry line whose key no template entry has. */
  predicate IsNewEntry(keys: set<string>, line: string) {
    IsEntryLine(line) && Normalize(Trim(line)) !in keys
  }

  /** The new entries of `lines`, trimmed, in order, duplicates kept. */
  function NewEntriesOf(keys: set<string>, lines: seq<string>): seq<string>
    decreases |lines|
  {
    if lines == [] then []
    else
      var line := lines[|lines| - 1];
      NewEntriesOf(keys, lines[..|lines| - 1]) + (if IsNewEntry(keys, line) then [Trim(line)] else [])
  }

  /** Every line trimmed. */
  function TrimAll(lines: seq<string>): (r: seq<string>)
    ensures |r| == |lines|
  {
    seq(|lines|, i requires 0 <= i < |lines| => Trim(lines[i]))
  }

  /** The entries whose choice under `pick` is `s`, in order. */
  function Chosen(pick: string -> int, entries: seq<string>, s: int): seq<string>
    decreases |entries|
  {
    if entries == [] then []
    else
      var e := entries[|entries| - 1];
      Chosen(pick, entries[..|entries| - 1], s) + (if pick(e) == s then [e] else [])
  }

  /** The non-negative choices some entry makes. */
  function ChosenKeys(pick: string -> int, entries: seq<string>): set<int> {
    set e | e in entries && pick(e) >= 0 :: pick(e)
  }

  /** For every non-negative choice, the entries that make it, in order. */
  function GroupBy(pick: string -> int, entries: seq<string>): map<int, seq<string>> {
    map s | s in ChosenKeys(pick, entries) :: Chosen(pick, entries, s)
  }

  /** An entry's choice: the section `findBestSectionForEntry` picks for it. */
  function BestSection(lines: seq<string>): string -> int {
    e => SectionOf(e, lines)
  }

  /** `insertions`: for every chosen section end, its entries in order. */
  function Groups(lines: seq<string>, entries: seq<string>): map<int, seq<string>> {
    GroupBy(BestSection(lines), entries)
  }

  /** `fallbackEntries`: the entries no section takes. */
  function Fallback(lines: seq<string>, entries: seq<string>): seq<string> {
    Chosen(BestSection(lines), entries, -1)
  }

  /** The heading of the section appended for entries no template section takes. */
  const ProjectHeading: string := "# Project-specific entries"

  /** The heading has no line break; MergedLinesOneLine needs it to show that joining and
      splitting the merged lines gives them back. */
  lemma ProjectHeadingChars()
    ensures forall i | 0 <= i < |ProjectHeading| :: ProjectHeading[i] != '\n'
  {
  }

  /** The lines appended at the end for the fallback entries, if there are any. */
  function ProjectSection(fallback: seq<string>): seq<string> {
    if fallback == [] then [] else ["", ProjectHeading] + fallback
  }

  /** The merged lines: the template laid out with the groups, then the fallback section. */
  function MergedLines(lines: seq<string>, entries: seq<string>): seq<string> {
    Layout(lines, Groups(lines, entries)) + ProjectSection(Fallback(lines, entries))
  }

  /** The `{content, newEntries}` record `mergeGitIgnoreFiles` returns. */
  datatype MergeResult = MergeResult(content: string, newEntries: seq<string>)

  /** What `mergeGitIgnoreFiles` computes. */
  function Merge(template: string, project: string): MergeResult {
    var entries := NewEntriesOf(TemplateKeys(template), Split(project));
    if entries == [] then MergeResult(template, [])
    else MergeResult(Join(MergedLines(Split(template), entries)), entries)
  }

  // ---------------------------------------------------------------------------------------
  // The new entries

  lemma {:induction false} NewEntriesOfLast(keys: set<string>, lines: seq<string>, line: string)
    ensures NewEntriesOf(keys, lines + [line])
            == NewEntriesOf(keys, lines) + (if IsNewEntry(keys, line) then [Trim(line)] else [])
  {
    assert (lines + [line])[..|lines|] == lines;
  }

  /** An entry line trims to an entry line that trimming leaves alone, with the same key. */
  lemma {:induction false} TrimEntry(line: string)
    requires IsEntryLine(line)
    ensures IsEntryLine(Trim(line)) && Trim(Trim(line)) == Trim(line)
    ensures Normalize(Trim(line)) == Normalize(line)
  {
    TrimIdempotent(line);
  }

  /** A new entry is a trimmed entry line whose key is not among the template keys. */
  lemma {:induction false} NewEntriesAreNew(keys: set<string>, lines: seq<string>)
    ensures forall x | x in NewEntriesOf(keys, lines) ::
      IsEntryLine(x) && Trim(x) == x && Normalize(x) !in keys
    decreases |lines|
  {
    if lines != [] {
      var line := lines[|lines| - 1];
      NewEntriesAreNew(keys, lines[..|lines| - 1]);
      if IsNewEntry(keys, line) {
        TrimEntry(line);
      }
    }
  }

  /** `x` is a new entry exactly when some project line is new and trims to `x`. */
  lemma {:induction false} NewEntriesMember(keys: set<string>, lines: seq<string>, x: string)
    ensures x in NewEntriesOf(keys, lines) <==> exists l | l in lines && IsNewEntry(keys, l) :: x == Trim(l)
    decreases |lines|
  {
    if lines != [] {
      var init, line := lines[..|lines| - 1], lines[|lines| - 1];
      assert lines == init + [line];
      NewEntriesMember(keys, init, x);
      if exists l | l in lines && IsNewEntry(keys, l) :: x == Trim(l) {
        var l :| l in lines && IsNewEntry(keys, l) && x == Trim(l);
        if l != line {
          assert l in init;
        }
      }
    }
  }

  /** The new entries keep the order of the project lines. */
  lemma {:induction false} NewEntriesInOrder(keys: set<string>, lines: seq<string>)
    ensures IsSubsequence(NewEntriesOf(keys, lines), TrimAll(lines))
    decreases |lines|
  {
    if lines == [] {
      assert TrimAll(lines) == [];
    } else {
      var init, line := lines[..|lines| - 1], lines[|lines| - 1];
      NewEntriesInOrder(keys, init);
      assert TrimAll(lines) == TrimAll(init) + [Trim(line)];
      var tail := if IsNewEntry(keys, line) then [Trim(line)] else [];
      if tail == [] {
        SubsequenceRefl<string>([]);
        assert IsSubsequence(tail, [Trim(line)]);
      } else {
        SubsequenceRefl(tail);
      }
      SubsequenceConcat(NewEntriesOf(keys, init), TrimAll(init), tail, [Trim(line)]);
    }
  }

  /** Duplicates among the project's new entries are kept: a new entry occurs as often as
      there are project lines that trim to it. */
  lemma {:induction false} NewEntriesCount(keys: set<string>, lines: seq<string>, x: string)
    requires IsEntryLine(x) && Trim(x) == x && Normalize(x) !in keys
    ensures multiset(NewEntriesOf(keys, lines))[x] == multiset(TrimAll(lines))[x]
    decreases |lines|
  {
    if lines == [] {
      assert TrimAll(lines) == [];
    } else {
      var init, line := lines[..|lines| - 1], lines[|lines| - 1];
      NewEntriesCount(keys, init, x);
      assert TrimAll(lines) == TrimAll(init) + [Trim(line)];
      if Trim(line) == x {
        assert IsNewEntry(keys, line);
      }
    }
  }

  /** Nothing is new exactly when every project entry line has a template key. */
  lemma {:induction false} NewEntriesNone(keys: set<string>, lines: seq<string>)
    ensures NewEntriesOf(keys, lines) == [] <==> forall l | l in lines :: !IsNewEntry(keys, l)
  {
    if NewEntriesOf(keys, lines) != [] {
      var x := NewEntriesOf(keys, lines)[0];
      NewEntriesMember(keys, lines, x);
    }
    if exists l | l in lines :: IsNewEntry(keys, l) {
      var l :| l in lines && IsNewEntry(keys, l);
      NewEntriesMember(keys, lines, Trim(l));
    }
  }

  // ---------------------------------------------------------------------------------------
  // Grouping by section

  lemma {:induction false} ChosenLast(pick: string -> int, entries: seq<string>, e: string, s: int)
    ensures Chosen(pick, entries + [e], s) == Chosen(pick, entries, s) + (if pick(e) == s then [e] else [])
  {
    assert (entries + [e])[..|entries|] == entries;
  }

  /** The entries of a group are exactly the entries that chose it. */
  lemma {:induction false} ChosenMember(pick: string -> int, entries: seq<string>, s: int, x: string)
    ensures x in Chosen(pick, entries, s) <==> x in entries && pick(x) == s
    decreases |entries|
  {
    if entries != [] {
      var init := entries[..|entries| - 1];
      assert entries == init + [entries[|entries| - 1]];
      ChosenMember(pick, init, s, x);
    }
  }

  /** Grouping keeps the order of the entries. */
  lemma {:induction false} ChosenInOrder(pick: string -> int, entries: seq<string>, s: int)
    ensures IsSubsequence(Chosen(pick, entries, s), entries)
    decreases |entries|
  {
    if entries == [] {
      SubsequenceRefl(entries);
    } else {
      var init, e := entries[..|entries| - 1], entries[|entries| - 1];
      assert entries == init + [e];
      ChosenInOrder(pick, init, s);
      var tail := if pick(e) == s then [e] else [];
      if tail == [] {
        assert IsSubsequence(tail, [e]);
      } else {
        SubsequenceRefl(tail);
      }
      SubsequenceConcat(Chosen(pick, init, s), init, tail, [e]);
    }
  }

  /** Adding one entry: it joins the group of its choice, which is created when missing. */
  lemma {:induction false} GroupByLast(pick: string -> int, entries: seq<string>, e: string)
    ensures var g := GroupBy(pick, entries);
            var s := pick(e);
            GroupBy(pick, entries + [e])
            == if s >= 0 then g[s := (if s in g then g[s] else []) + [e]] else g
  {
    var g := GroupBy(pick, entries);
    var g' := GroupBy(pick, entries + [e]);
    var s := pick(e);
    var want := if s >= 0 then g[s := (if s in g then g[s] else []) + [e]] else g;
    forall t ensures t in g' <==> t in want {
      assert t in ChosenKeys(pick, entries + [e]) <==>
        t in ChosenKeys(pick, entries) || (t == s && s >= 0);
    }
    forall t | t in g' ensures g'[t] == want[t] {
      ChosenLast(pick, entries, e, t);
      if t == s && s !in g && Chosen(pick, entries, t) != [] {
        ChosenMember(pick, entries, t, Chosen(pick, entries, t)[0]);
      }
    }
    assert g' == want;
  }

  /** One more entry of `entries` grouped: it joins its section's group or the fallback
      entries. */
  lemma {:induction false} GroupsPrefix(lines: seq<string>, entries: seq<string>, i: int)
    requires 0 <= i < |entries|
    ensures var e, g, s := entries[i], Groups(lines, entries[..i]), SectionOf(entries[i], lines);
            && Groups(lines, entries[..i + 1])
               == (if s >= 0 then g[s := (if s in g then g[s] else []) + [e]] else g)
            && Fallback(lines, entries[..i + 1])
               == Fallback(lines, entries[..i]) + (if s < 0 then [e] else [])
  {
    var e := entries[i];
    assert entries[..i + 1] == entries[..i] + [e];
    assert BestSection(lines)(e) == SectionOf(e, lines);
    GroupByLast(BestSection(lines), entries[..i], e);
    ChosenLast(BestSection(lines), entries[..i], e, -1);
  }

  /** Used by GroupBySection to match its loop body to GroupsPrefix. The two-step update of
      the grouping loop (create the group when missing, then append)
      is one append to the group, or to the empty group. */
  lemma AddToGroup(g: map<int, seq<string>>, s: int, e: string)
    ensures var h := if s in g then g else g[s := []];
            h[s := h[s] + [e]] == g[s := (if s in g then g[s] else []) + [e]]
  {
  }

  /** Each key of the insertions is the end of a section of the template. */
  lemma {:induction false} GroupsAreSections(lines: seq<string>, entries: seq<string>)
    ensures forall t | t in Groups(lines, entries) :: IsSectionEnd(lines, t)
  {
    forall t | t in Groups(lines, entries) ensures IsSectionEnd(lines, t) {
      var e :| e in entries && SectionOf(e, lines) >= 0 && SectionOf(e, lines) == t;
      SectionOfFound(e, lines);
    }
  }

  /** An entry that picks a section is in that section's group; one that picks none is a
      fallback entry. */
  lemma {:induction false} EntryGrouped(lines: seq<string>, entries: seq<string>, x: string)
    requires x in entries
    ensures var s := SectionOf(x, lines);
            && (s >= 0 ==> s in Groups(lines, entries) && x in Groups(lines, entries)[s])
            && (s < 0 ==> x in Fallback(lines, entries))
  {
    var s := SectionOf(x, lines);
    SectionOfNone(x, lines);
    if s >= 0 {
      assert s in ChosenKeys(BestSection(lines), entries);
    }
    ChosenMember(BestSection(lines), entries, s, x);
  }

  // ---------------------------------------------------------------------------------------
  // The operations

  /** The new-entry loop of `mergeGitIgnoreFiles`: every project line whose trimmed text is
      an entry and whose key no template entry has is pushed, trimmed, to `uniqueEntries` and
      `newEntries` alike. */
  method CollectNewEntries(templateEntriesSet: set<string>, projectLines: seq<string>)
    returns (uniqueEntries: seq<string>, newEntries: seq<string>)
    ensures uniqueEntries == newEntries == NewEntriesOf(templateEntriesSet, projectLines)
  {
    uniqueEntries, newEntries := [], [];
    for i := 0 to |projectLines|
      invariant uniqueEntries == newEntries == NewEntriesOf(templateEntriesSet, projectLines[..i])
    {
      var line := projectLines[i];
      NewEntriesOfLast(templateEntriesSet, projectLines[..i], line);
      assert projectLines[..i + 1] == projectLines[..i] + [line];
      var trimmedLine := Trim(line);
      if trimmedLine == "" || StartsWith(trimmedLine, "#") {
        continue;
      }
      var normalizedEntry := Normalize(trimmedLine);
      if normalizedEntry !in templateEntriesSet {
        uniqueEntries := uniqueEntries + [trimmedLine];
        newEntries := newEntries + [trimmedLine];
      }
    }
    assert projectLines[..|projectLines|] == projectLines;
  }

  /** The grouping loop of `mergeGitIgnoreFiles`: each entry joins the group of its best
      section, or the fallback entries when no section scores. */
  method GroupBySection(uniqueEntries: seq<string>, templateLines: seq<string>)
    returns (insertions: map<int, seq<string>>, fallbackEntries: seq<string>)
    ensures insertions == Groups(templateLines, uniqueEntries)
    ensures fallbackEntries == Fallback(templateLines, uniqueEntries)
  {
    insertions, fallbackEntries := map[], [];
    for i := 0 to |uniqueEntries|
      invariant insertions == Groups(templateLines, uniqueEntries[..i])
      invariant fallbackEntries == Fallback(templateLines, uniqueEntries[..i])
    {
      var entry := uniqueEntries[i];
      GroupsPrefix(templateLines, uniqueEntries, i);
      var bestSection := FindBestSectionForEntry(entry, templateLines);
      AddToGroup(insertions, bestSection, entry);
      if bestSection >= 0 {
        if bestSection !in insertions {
          insertions := insertions[bestSection := []];
        }
        insertions := insertions[bestSection := insertions[bestSection] + [entry]];
      } else {
        fallbackEntries := fallbackEntries + [entry];
      }
    }
    assert uniqueEntries[..|uniqueEntries|] == uniqueEntries;
  }

  /** `mergeGitIgnoreFiles`. */
  method MergeGitIgnoreFiles(template: string, projectGitignore: string) returns (result: MergeResult)
    ensures result == Merge(template, projectGitignore)
  {
    var templateLines := Split(template);
    var projectLines := Split(projectGitignore);
    var templateEntries := ProcessGitignoreEntries(template);
    var templateEntriesSet := set e | e in templateEntries :: Normalize(e);
    assert templateEntriesSet == TemplateKeys(template);
    var uniqueEntries, newEntries := CollectNewEntries(templateEntriesSet, projectLines);
    if |uniqueEntries| == 0 {
      return MergeResult(template, []);
    }
    var insertions, fallbackEntries := GroupBySection(uniqueEntries, templateLines);
    GroupsAreSections(templateLines, uniqueEntries);
    var mergedLines := SpliceInsertions(templateLines, insertions);
    ghost var laidOut := mergedLines;
    if |fallbackEntries| > 0 {
      mergedLines := mergedLines + ["", ProjectHeading] + fallbackEntries;
    }
    assert mergedLines == laidOut + ProjectSection(fallbackEntries);
    assert mergedLines == MergedLines(templateLines, uniqueEntries);
    return MergeResult(Join(mergedLines), newEntries);
  }

  // ---------------------------------------------------------------------------------------
  // Properties of the merge

  /** The merge reports nothing new exactly when every entry line of the project has the key
      of some template entry; the template then comes back unchanged. */
  lemma {:induction false} MergeNothingNew(template: string, project: string)
    ensures Merge(template, project).newEntries == [] <==>
      forall l | l in Split(project) && IsEntryLine(l) :: Normalize(l) in TemplateKeys(template)
    ensures Merge(template, project).newEntries == [] ==> Merge(template, project).content == template
  {
    var keys, lines := TemplateKeys(template), Split(project);
    NewEntriesNone(keys, lines);
    forall l | l in lines && IsEntryLine(l) ensures Normalize(l) in keys <==> !IsNewEntry(keys, l) {
      TrimEntry(l);
    }
  }

  /** An empty project file adds nothing. */
  lemma {:induction false} MergeEmptyProject(template: string)
    ensures Merge(template, "") == MergeResult(template, [])
  {
    SplitSingle("");
    MergeNothingNew(template, "");
  }

  /** An entry line of a text is one of its entries, and its key is one of its keys. */
  lemma {:induction false} EntryLineKey(content: string, e: string)
    requires e in Split(content) && IsEntryLine(e)
    ensures e in ProcessGitignoreEntries(content) && Normalize(e) in TemplateKeys(content)
  {
    ProcessGitignoreEntriesExact(content);
    assert multiset(Split(content))[e] > 0;
  }

  /** Merging a template with itself adds nothing. */
  lemma {:induction false} MergeWithItself(template: string)
    ensures Merge(template, template) == MergeResult(template, [])
  {
    MergeNothingNew(template, template);
    forall l | l in Split(template) && IsEntryLine(l) ensures Normalize(l) in TemplateKeys(template) {
      EntryLineKey(template, l);
    }
  }

  /** `newEntries`: the project's entry lines whose key no template entry has, trimmed, in
      project order, each as often as it occurs. */
  lemma {:induction false} MergeNewEntries(template: string, project: string)
    ensures var keys, lines := TemplateKeys(template), Split(project);
            var news := Merge(template, project).newEntries;
            && (forall x | x in news :: IsEntryLine(x) && Trim(x) == x && Normalize(x) !in keys)
            && (forall x :: x in news <==> exists l | l in lines && IsNewEntry(keys, l) :: x == Trim(l))
            && IsSubsequence(news, TrimAll(lines))
            && (forall x | IsEntryLine(x) && Trim(x) == x && Normalize(x) !in keys ::
                  multiset(news)[x] == multiset(TrimAll(lines))[x])
  {
    var keys, lines := TemplateKeys(template), Split(project);
    NewEntriesAreNew(keys, lines);
    forall x ensures x in NewEntriesOf(keys, lines) <==> exists l | l in lines && IsNewEntry(keys, l) :: x == Trim(l) {
      NewEntriesMember(keys, lines, x);
    }
    NewEntriesInOrder(keys, lines);
    forall x | IsEntryLine(x) && Trim(x) == x && Normalize(x) !in keys
      ensures multiset(NewEntriesOf(keys, lines))[x] == multiset(TrimAll(lines))[x]
    {
      NewEntriesCount(keys, lines, x);
    }
  }

  /** A new entry is a line break free, as the project line it was trimmed from. */
  lemma {:induction false} NewEntriesOneLine(keys: set<string>, lines: seq<string>)
    requires forall l | l in lines :: '\n' !in l
    ensures forall x | x in NewEntriesOf(keys, lines) :: '\n' !in x
  {
    forall x | x in NewEntriesOf(keys, lines) ensures '\n' !in x {
      NewEntriesMember(keys, lines, x);
      var l :| l in lines && IsNewEntry(keys, l) && x == Trim(l);
      if '\n' in x {
        TrimChars(l, '\n');
      }
    }
  }

  /** A merged line is a template line, one of the entries, a blank separator or the
      project-section heading. */
  lemma {:induction false} MergedLinesFrom(lines: seq<string>, entries: seq<string>, x: string)
    requires x in MergedLines(lines, entries)
    ensures x in lines || x in entries || x == "" || x == ProjectHeading
  {
    var groups, fallback := Groups(lines, entries), Fallback(lines, entries);
    if x in Layout(lines, groups) {
      LayoutLines(lines, groups, 0, x);
      if exists t | t in groups :: x in groups[t] {
        var t :| t in groups && x in groups[t];
        ChosenMember(BestSection(lines), entries, t, x);
      }
    } else if x in fallback {
      ChosenMember(BestSection(lines), entries, -1, x);
    }
  }

  lemma {:induction false} MergedLinesOneLine(lines: seq<string>, entries: seq<string>)
    requires forall l | l in lines :: '\n' !in l
    requires forall e | e in entries :: '\n' !in e
    ensures forall x | x in MergedLines(lines, entries) :: '\n' !in x
  {
    ProjectHeadingChars();
    forall x | x in MergedLines(lines, entries) ensures '\n' !in x {
      MergedLinesFrom(lines, entries, x);
    }
  }

  /** Joining the merged lines and splitting the result again gives them back. */
  lemma {:induction false} MergedLinesSplit(lines: seq<string>, entries: seq<string>)
    requires |lines| >= 1
    requires forall l | l in lines :: '\n' !in l
    requires forall e | e in entries :: '\n' !in e
    ensures Split(Join(MergedLines(lines, entries))) == MergedLines(lines, entries)
  {
    var merged := MergedLines(lines, entries);
    LayoutKeepsTemplate(lines, Groups(lines, entries));
    SubsequenceMember(lines, Layout(lines, Groups(lines, entries)), lines[0]);
    MergedLinesOneLine(lines, entries);
    SplitJoin(merged);
  }

  /** When something is new, the lines of the merged content are the merged lines. */
  lemma {:induction false} MergeContentLines(template: string, project: string)
    requires Merge(template, project).newEntries != []
    ensures Split(Merge(template, project).content)
            == MergedLines(Split(template), Merge(template, project).newEntries)
  {
    NewEntriesOneLine(TemplateKeys(template), Split(project));
    MergedLinesSplit(Split(template), Merge(template, project).newEntries);
  }

  /** No template line is lost or reordered: the template's lines are a subsequence of the
      merged content's lines. */
  lemma {:induction false} MergeKeepsTemplate(template: string, project: string)
    ensures IsSubsequence(Split(template), Split(Merge(template, project).content))
  {
    var r := Merge(template, project);
    var lines := Split(template);
    if r.newEntries == [] {
      SubsequenceRefl(lines);
    } else {
      MergeContentLines(template, project);
      var groups := Groups(lines, r.newEntries);
      LayoutKeepsTemplate(lines, groups);
      SubsequenceConcat(lines, Layout(lines, groups), [], ProjectSection(Fallback(lines, r.newEntries)));
      assert lines + [] == lines;
    }
  }

  /** Every line of the merged content is a template line, a new entry, a blank separator or
      the project-section heading. */
  lemma {:induction false} MergeAddsOnlyEntries(template: string, project: string, x: string)
    requires x in Split(Merge(template, project).content)
    ensures x in Split(template) || x in Merge(template, project).newEntries
            || x == "" || x == ProjectHeading
  {
    if Merge(template, project).newEntries != [] {
      MergeContentLines(template, project);
      MergedLinesFrom(Split(template), Merge(template, project).newEntries, x);
    }
  }

  /** Where an entry goes when a section scores for it: the entry is in that section's
      group, which is inserted right after the section's last non-blank line (followed by a
      blank line when the next line is a comment). */
  lemma {:induction false} EntryPlacedInSection(lines: seq<string>, entries: seq<string>, x: string)
    requires x in entries && SectionOf(x, lines) >= 0
    ensures var groups, s := Groups(lines, entries), SectionOf(x, lines);
            var i := LastNonBlank(lines, s);
            && s in groups && x in groups[s]
            && 0 <= LastHeading(lines, s) <= i <= s
            && !IsBlank(lines[i])
            && (forall k | i < k <= s :: IsBlank(lines[k]))
            && MergedLines(lines, entries)
               == LayoutRange(lines, groups, 0, i) + [lines[i]]
                  + (groups[s] + Separator(lines, i + 1))
                  + LayoutRange(lines, groups, i + 1, |lines|)
                  + ProjectSection(Fallback(lines, entries))
  {
    var groups, s := Groups(lines, entries), SectionOf(x, lines);
    EntryGrouped(lines, entries, x);
    GroupsAreSections(lines, entries);
    assert IsSectionEnd(lines, s);
    LayoutPlacement(lines, groups, s);
    assert MergedLines(lines, entries) == Layout(lines, groups) + ProjectSection(Fallback(lines, entries));
  }

  /** Where an entry goes when no section scores for it: into the project section appended
      at the end, after a blank line and the `# Project-specific entries` heading. */
  lemma {:induction false} EntryPlacedAtEnd(lines: seq<string>, entries: seq<string>, x: string)
    requires x in entries && SectionOf(x, lines) < 0
    ensures x in Fallback(lines, entries)
    ensures MergedLines(lines, entries)
            == Layout(lines, Groups(lines, entries)) + ["", ProjectHeading] + Fallback(lines, entries)
  {
    EntryGrouped(lines, entries, x);
  }

  /** Every new entry is a line of the merged content. */
  lemma {:induction false} MergeContainsNewEntries(template: string, project: string, x: string)
    requires x in Merge(template, project).newEntries
    ensures x in Split(Merge(template, project).content)
  {
    var lines, news := Split(template), Merge(template, project).newEntries;
    MergeContentLines(template, project);
    if SectionOf(x, lines) >= 0 {
      EntryPlacedInSection(lines, news, x);
    } else {
      EntryPlacedAtEnd(lines, news, x);
    }
  }

  /** Merging the same project file into the merged content again adds nothing: every
      project entry now has a key among the merged content's entries. */
  lemma {:induction false} MergeIdempotent(template: string, project: string)
    ensures var r := Merge(template, project);
            Merge(r.content, project) == MergeResult(r.content, [])
  {
    var r := Merge(template, project);
    var keys := TemplateKeys(template);
    MergeNothingNew(r.content, project);
    if r.newEntries != [] {
      var out := Split(r.content);
      forall l | l in Split(project) && IsEntryLine(l) ensures Normalize(l) in TemplateKeys(r.content) {
        TrimEntry(l);
        if Normalize(l) in keys {
          var e :| e in ProcessGitignoreEntries(template) && Normalize(e) == Normalize(l);
          MergeKeepsTemplate(template, project);
          SubsequenceMember(Split(template), out, e);
          EntryLineKey(r.content, e);
        } else {
          assert IsNewEntry(keys, l);
          NewEntriesMember(keys, Split(project), Trim(l));
          MergeContainsNewEntries(template, project, Trim(l));
          EntryLineKey(r.content, Trim(l));
        }
      }
    }
  }
}
