# gitprune .gitignore merger, modelled in Dafny

This project models the merging logic of gitprune, in `src/utils/gitignoreUtils.ts`. gitprune
merges a project's `.gitignore` into a template `.gitignore`. The model covers:

- **The comparison key** (`normalizeEntryForComparison`). The entry is trimmed, every
  character outside `[\w\s-]` is deleted, white space is deleted and the rest is lower-cased.
  Two entries with equal keys are duplicates, so `node_modules/` duplicates `node_modules`.
- **Entry lines** (`processGitignoreEntries`). An entry line is a line whose trimmed text is
  non-empty and does not start with `#`.
- **Section choice** (`findBestSectionForEntry`). A heading is a trimmed line starting with
  `#` but not `##`. A heading scores 10 for an entry when one of seven fixed categories has a
  pattern contained in the entry's key and a keyword contained in the heading's lower-cased
  text. The first scoring heading wins, and its section ends at the line before the next
  heading, or at the last line.
- **The merge** (`mergeGitIgnoreFiles`):
  - A project entry line whose key no template entry has is new. It is kept trimmed, in
    order, with duplicates.
  - When nothing is new, the template comes back unchanged.
  - Otherwise the new entries are grouped by chosen section and spliced in, last section
    first. Each group goes right after its section's last non-blank line. A blank line follows
    the group when the next non-blank line is a `#` line and the line right after the group is
    not blank.
  - Entries that no section takes are appended after a blank line and a
    `# Project-specific entries` heading, and the lines are joined with `\n`.

Modules, one per file:

- `Strings` (`strings.dfy`): JavaScript's `trim`, `startsWith`, `includes`, `toLowerCase`,
  `split('\n')` and `join('\n')`.
- `EntryKeys` (`entry_keys.dfy`): the comparison key, and a character-by-character reference
  definition of it.
- `Entries` (`entries.dfy`): line kinds, `processGitignoreEntries`, and subsequences.
- `Sections` (`sections.dfy`): the category table, heading scores and
  `findBestSectionForEntry`.
- `Placement` (`placement.dfy`): the splice loop. It is proved against `Layout`, a
  declarative description of where each group ends up, stated in template line numbers.
- `Merge` (`merge.dfy`): `mergeGitIgnoreFiles` and the properties of its result.

The source's functions become Dafny in two ways:

- The pure ones (`normalizeEntryForComparison`, `processGitignoreEntries`) are functions.
- The ones that loop (`findBestSectionForEntry`, `mergeGitIgnoreFiles`) are methods with
  loops. Each is proved equal to a specification function (`SectionOf`, `Layout`, `Merge`),
  and lemmas state the properties of those functions.

Some inline loops of the source are separate methods, each proved against its own
specification. These are `ScoreHeading`, `ScanToNextHeading`, `CollectNewEntries`,
`GroupBySection`, `SpliceGroup` (one iteration of the splice loop) and `SpliceInsertions` (the
splice loop).

Two consequences of `gitignoreUtils.ts` worth stating plainly:
- Duplicates are detected by the punctuation-, space- and case-insensitive key, not by
  trimmed text.
- New entries are placed under the template's matching sections, and only entries with no
  matching section are appended at the end.

## Model

| member | source | states |
|---|---|---|
| Strings.TrimSpec | src/utils/gitignoreUtils.ts:14 | `trim` removes exactly the leading and trailing JavaScript white space: the result is a slice of the input that starts and ends with a non-space, and only white space was removed around it |
| Strings.TrimIdempotent | src/utils/gitignoreUtils.ts:132 | trimming an already trimmed line changes nothing |
| Strings.TrimChars | src/utils/gitignoreUtils.ts:132 | a trimmed line holds only characters of the line, so it has no line break when the line has none |
| Strings.TrimEmpty | src/utils/gitignoreUtils.ts:135 | a line trims to `''` exactly when every character of it is JavaScript white space |
| Strings.ContainsAt | src/utils/gitignoreUtils.ts:72-80 | `includes` holds exactly when the word occurs at some index |
| Strings.JoinSplit | src/utils/gitignoreUtils.ts:117 | joining the lines of `split('\n')` with `\n` gives back the text |
| Strings.SplitJoin | src/utils/gitignoreUtils.ts:216-219 | splitting the `\n`-join of at least one line without line breaks gives back the lines |
| EntryKeys.KeyOf | src/utils/gitignoreUtils.ts:13-27 | the reference key holds only lower-case ASCII letters, digits, `_` and `-` |
| EntryKeys.KeyIsKeyOf | src/utils/gitignoreUtils.ts:13-27 | trim, the two `replace` passes and `toLowerCase` compose to the reference key: each character of the entry in `[\w-]` is kept, lower-cased, in order, and nothing else survives |
| EntryKeys.NormalizeAlphabet | src/utils/gitignoreUtils.ts:21-24 | a key has no punctuation, no white space and no upper-case letter |
| EntryKeys.NormalizeIdempotent | src/utils/gitignoreUtils.ts:13-27 | normalizing a key again returns it unchanged |
| EntryKeys.NormalizeIgnoresPunctuation | src/utils/gitignoreUtils.ts:16-21 | inserting any character outside `[\w-]` anywhere in an entry does not change its key |
| EntryKeys.NormalizeIgnoresCase | src/utils/gitignoreUtils.ts:24 | lower-casing any one character of an entry does not change its key |
| EntryKeys.NormalizeLower | src/utils/gitignoreUtils.ts:24 | an entry and its lower-case spelling have the same key |
| EntryKeys.KeyOfTrim | src/utils/gitignoreUtils.ts:14 | surrounding white space does not change the key |
| EntryKeys.SameKeyExamples | src/utils/gitignoreUtils.ts:17-20 | `e/` and `e*` have the key of `e`, as in the `node_modules/` and `pnpm-debug.log*` cases the source names |
| Entries.EntryLines | src/utils/gitignoreUtils.ts:34-37 | the filter keeps only entry lines, and each entry line as often as it occurs |
| Entries.EntryLinesInOrder | src/utils/gitignoreUtils.ts:34-37 | the kept lines appear in the input in the same order |
| Entries.ProcessGitignoreEntries | src/utils/gitignoreUtils.ts:32-38 | each result is an entry line and a line of the content |
| Entries.ProcessGitignoreEntriesExact | src/utils/gitignoreUtils.ts:32-38 | the result is exactly the entry lines of the content, unmodified, in order and with their multiplicity |
| Sections.CategoryScore | src/utils/gitignoreUtils.ts:69-87 | a heading's score is 0 or 10 |
| Sections.CategoryScoreFits | src/utils/gitignoreUtils.ts:69-87 | the score is 10 exactly when some category has a pattern in the key and a keyword in the heading text |
| Sections.ScoreHeading | src/utils/gitignoreUtils.ts:69-87 | the category loop, with its `break`, computes that score |
| Sections.ScanToNextHeading | src/utils/gitignoreUtils.ts:93-100 | the `while` scan stops at the first heading after line `i`, or at the end of the lines |
| Sections.FirstScoringHeadingSpec | src/utils/gitignoreUtils.ts:61-91 | the heading found scores, and no earlier line is a scoring heading |
| Sections.FindBestSectionForEntry | src/utils/gitignoreUtils.ts:43-107 | the loop returns `SectionOf`: -1 when no heading scores, or the section end of the first scoring heading (the strict `>` keeps the first of equal scores) |
| Sections.SectionOfNone | src/utils/gitignoreUtils.ts:58-102 | the result is -1 exactly when no heading of the template scores for the entry's key |
| Sections.SectionOfFound | src/utils/gitignoreUtils.ts:89-101 | otherwise the result `e` and the first scoring heading `h` satisfy: `h <= e`; `h` scores 10; no earlier line scores; no heading lies in `(h, e]`; line `e + 1` is a heading or the end; `e` is a section end |
| Sections.HeadingSection | src/utils/gitignoreUtils.ts:92-101 | the line before the next heading ends the section of a heading, and that heading is the last one at or before it |
| Sections.SectionEndSpec | src/utils/gitignoreUtils.ts:92-101 | a section end has a heading at or before it, and no heading between that heading and the end |
| Sections.DottedPatternNeverMatches | src/utils/gitignoreUtils.ts:72-74 | a pattern containing `.` is never contained in a key, because keys have no `.` |
| Sections.IdeCategoryNeverMatches | src/utils/gitignoreUtils.ts:54 | so no entry ever matches the IDE category, whose patterns are `.vscode`, `.idea` and `.sublime` |
| Placement.KeysDescendingSpec | src/utils/gitignoreUtils.ts:176 | the section ends are visited in strictly decreasing order, and each is a key of the insertions |
| Placement.LastNonBlankSpec | src/utils/gitignoreUtils.ts:182-186 | the backward scan stops at a non-blank line, with only blank lines after it up to the section end |
| Placement.NextNonBlankSpec | src/utils/gitignoreUtils.ts:189-192 | the forward scan stops at a non-blank line or the end, with only blank lines before it |
| Placement.SeparatorCases | src/utils/gitignoreUtils.ts:194-207 | "the next non-blank line is a `#` line and the line after the entries is not blank" holds exactly when the line at the insertion point is a `#` line |
| Placement.SpliceGroup | src/utils/gitignoreUtils.ts:179-208 | one iteration puts the entries right after the last non-blank line at or before the section end, then a blank line exactly when the line they now precede is a `#` line |
| Placement.SpliceStep | src/utils/gitignoreUtils.ts:178-209 | splicing one group, in decreasing order, keeps the lines before it equal to the template and the lines after it equal to the final layout |
| Placement.SpliceInsertions | src/utils/gitignoreUtils.ts:175-209 | the splice loop produces `Layout`: the template lines in order, each group after its section's last non-blank line, and earlier splices do not shift later positions |
| Placement.LayoutKeepsTemplate | src/utils/gitignoreUtils.ts:198 | splicing only inserts lines: the template lines are a subsequence of the layout |
| Placement.LayoutNoGroups | src/utils/gitignoreUtils.ts:156 | with no groups, the layout is the template itself |
| Placement.LayoutPlacement | src/utils/gitignoreUtils.ts:181-207 | a group's position `i` is a non-blank line at or after its section's heading, with only blank lines from `i + 1` to the section end; the group and its separator come right after line `i` |
| Placement.LayoutLines | src/utils/gitignoreUtils.ts:198-206 | a laid-out line is a template line, a blank separator or an entry of some group |
| Merge.NewEntriesAreNew | src/utils/gitignoreUtils.ts:131-145 | each new entry is a trimmed entry line whose key is not a template key |
| Merge.NewEntriesMember | src/utils/gitignoreUtils.ts:131-145 | a string is a new entry exactly when it is the trimmed text of a project entry line whose key is not a template key |
| Merge.NewEntriesInOrder | src/utils/gitignoreUtils.ts:131-145 | new entries keep the order of the project lines |
| Merge.NewEntriesCount | src/utils/gitignoreUtils.ts:131-145 | duplicates are kept: a new entry occurs as often as project lines trim to it |
| Merge.NewEntriesNone | src/utils/gitignoreUtils.ts:131-145 | nothing is new exactly when no project line is a new entry |
| Merge.CollectNewEntries | src/utils/gitignoreUtils.ts:128-145 | the loop fills `uniqueEntries` and `newEntries` with the same list: the new entries |
| Merge.ChosenMember | src/utils/gitignoreUtils.ts:162-173 | a group holds exactly the entries that chose its section, and the fallback list exactly those that chose none |
| Merge.ChosenInOrder | src/utils/gitignoreUtils.ts:162-173 | each group keeps the order of the new entries |
| Merge.GroupByLast | src/utils/gitignoreUtils.ts:165-169 | one more entry joins the group of its section, and a missing group is created |
| Merge.GroupsPrefix | src/utils/gitignoreUtils.ts:162-173 | grouping one more entry changes only its own group, or the fallback list |
| Merge.GroupBySection | src/utils/gitignoreUtils.ts:159-173 | the loop builds `insertions` and `fallbackEntries` as the groups and the fallback entries |
| Merge.GroupsAreSections | src/utils/gitignoreUtils.ts:163-165 | every key of `insertions` is a section end of the template |
| Merge.EntryGrouped | src/utils/gitignoreUtils.ts:162-173 | an entry that picks a section is in that section's group, and one that picks none is a fallback entry |
| Merge.MergeGitIgnoreFiles | src/utils/gitignoreUtils.ts:113-220 | the method returns `Merge(template, projectGitignore)` |
| Merge.MergeNothingNew | src/utils/gitignoreUtils.ts:147-153 | nothing is reported new exactly when every project entry line has a template key, and then the content is the template unchanged |
| Merge.MergeEmptyProject | src/utils/gitignoreUtils.ts:147-153 | an empty project file leaves the template unchanged and reports nothing new |
| Merge.MergeWithItself | src/utils/gitignoreUtils.ts:121-153 | merging a template with itself leaves it unchanged and reports nothing new |
| Merge.MergeNewEntries | src/utils/gitignoreUtils.ts:127-145 | `newEntries` is exactly the project's entry lines with new keys, trimmed, in order, each as often as it occurs |
| Merge.MergedLinesFrom | src/utils/gitignoreUtils.ts:156-214 | a merged line is a template line, an entry, a blank line or the `# Project-specific entries` heading |
| Merge.MergedLinesSplit | src/utils/gitignoreUtils.ts:216-217 | the joined content splits back into the merged lines |
| Merge.MergeContentLines | src/utils/gitignoreUtils.ts:155-219 | when something is new, the content's lines are the layout of the template with the groups, then the project section |
| Merge.MergeKeepsTemplate | src/utils/gitignoreUtils.ts:155-219 | no template line is lost or reordered: the template's lines are a subsequence of the content's lines |
| Merge.MergeAddsOnlyEntries | src/utils/gitignoreUtils.ts:155-219 | every line of the content is a template line, a new entry, a blank line or the `# Project-specific entries` heading |
| Merge.EntryPlacedInSection | src/utils/gitignoreUtils.ts:178-208 | an entry whose section scores sits in that section's group, right after the section's last non-blank line `i`, which lies at or after the section's heading and is followed only by blank lines up to the section end |
| Merge.EntryPlacedAtEnd | src/utils/gitignoreUtils.ts:211-214 | an entry with no scoring section is in the list appended after `''` and `'# Project-specific entries'` |
| Merge.MergeContainsNewEntries | src/utils/gitignoreUtils.ts:155-219 | every reported new entry is a line of the content |
| Merge.MergeIdempotent | src/utils/gitignoreUtils.ts:113-220 | merging the same project file into the merged content again adds nothing and returns that content unchanged |

## Left out

- The React interface (`App.tsx` and the components), the clipboard and the rendering of the
  result are not part of this model. They only call `mergeGitIgnoreFiles` and display its
  result.
- `toLowerCase` is modelled for ASCII letters only. Heading text with non-ASCII upper-case
  letters is lower-cased differently by JavaScript. Keys are unaffected: only ASCII `[\w-]`
  characters survive into a key.
- `split` and `includes` work on UTF-16 code units in JavaScript and on `char` sequences here.
  No Unicode normalisation is modelled.
- The `insertions` object's keys are numbers in the model. The source turns them into strings
  and back with `parseInt`, which gives the same values for the non-negative integers used
  here.
- `Object.entries(...).sort(...)` is modelled as the list of keys in descending order
  (`KeysDescending`). The sort comparator's order is the only thing the loop depends on.
- `projectEntries` (line 122) is computed but never used by the source, so the model does not
  compute it.
- The `mergedLines` copy (line 156) and the in-place `splice` calls are modelled on immutable
  sequences that each step reassigns. There is no aliasing in the source to capture.
- Glob semantics of `.gitignore` patterns are not modelled. The merger treats entries as text
  only.
