/**
 * `findBestSectionForEntry`: the category heuristic that picks, for a new entry, the end of
 * the first template section whose heading belongs to the entry's category.
 */
module Sections {
  import opened Strings
  import opened EntryKeys

  /** A category of the fixed table: heading keywords and entry patterns. */
  datatype Category = Category(keywords: seq<string>, patterns: seq<string>)

  /** The category table, in the source's order. */
  const Categories: seq<Category> := [
    Category(["node", "npm", "yarn", "pnpm"], ["node_modules", "package-lock", "yarn.lock", "pnpm-lock"]),
    Category(["log", "debug"], ["log", "debug"]),
    Category(["dist", "build", "output"], ["dist", "build", "out", "target"]),
    Category(["env", "environment"], [".env", "environment"]),
    Category(["cache", "temp", "tmp"], ["cache", "temp", "tmp"]),
    Category(["test", "coverage"], ["test", "coverage", "nyc"]),
    Category(["ide", "editor"], [".vscode", ".idea", ".sublime"])
  ]

  /** A section heading: the trimmed line starts with `#` but not with `##`. */
  predicate IsHeading(line: string) {
    StartsWith(Trim(line), "#") && !StartsWith(Trim(line), "##")
  }

  /** Some pattern of the category, lower-cased, occurs in the entry's key. */
  predicate EntryMatches(key: string, c: Category) {
    exists p | p in c.patterns :: Contains(key, Lower(p))
  }

  /** Some keyword of the category occurs in the lower-cased heading text. */
  predicate HeadingMatches(headingText: string, c: Category) {
    exists k | k in c.keywords :: Contains(headingText, k)
  }

  predicate CategoryFits(key: string, headingText: string, c: Category) {
    EntryMatches(key, c) && HeadingMatches(headingText, c)
  }

  /** The relevance score of a heading text for an entry key over a run of categories: 10
      when one of them holds both the key and the heading, 0 otherwise. */
  function CategoryScore(key: string, headingText: string, cats: seq<Category>): (score: int)
    ensures score == 0 || score == 10
  {
    if cats == [] then 0
    else if CategoryFits(key, headingText, cats[0]) then 10
    else CategoryScore(key, headingText, cats[1..])
  }

  /** The score is 10 exactly when some category of the run fits both key and heading. */
  lemma {:induction false} CategoryScoreFits(key: string, headingText: string, cats: seq<Category>)
    ensures CategoryScore(key, headingText, cats) == 10 <==>
      exists j | 0 <= j < |cats| :: CategoryFits(key, headingText, cats[j])
  {
    if cats != [] {
      CategoryScoreFits(key, headingText, cats[1..]);
      if CategoryScore(key, headingText, cats[1..]) == 10 {
        var j :| 0 <= j < |cats| - 1 && CategoryFits(key, headingText, cats[1..][j]);
        assert CategoryFits(key, headingText, cats[j + 1]);
      }
      if exists j | 0 <= j < |cats| :: CategoryFits(key, headingText, cats[j]) {
        var j :| 0 <= j < |cats| && CategoryFits(key, headingText, cats[j]);
        if j > 0 {
          assert CategoryFits(key, headingText, cats[1..][j - 1]);
        }
      }
    }
  }

  /** The score of a template line as a heading: its trimmed, lower-cased text is scored. */
  function HeadingScore(key: string, line: string): int {
    CategoryScore(key, Lower(Trim(line)), Categories)
  }

  /** A heading that scores for the key. */
  predicate Scores(key: string, line: string) {
    IsHeading(line) && HeadingScore(key, line) > 0
  }

  /** The first scoring heading at or after `i`, or `|lines|` if there is none. */
  function FirstScoringHeading(key: string, lines: seq<string>, i: nat): (h: nat)
    requires i <= |lines|
    ensures i <= h <= |lines|
    decreases |lines| - i
  {
    if i == |lines| then i
    else if Scores(key, lines[i]) then i
    else FirstScoringHeading(key, lines, i + 1)
  }

  /** The heading found scores, and no line before it (from `i` on) does. */
  lemma {:induction false} FirstScoringHeadingSpec(key: string, lines: seq<string>, i: nat)
    requires i <= |lines|
    ensures var h := FirstScoringHeading(key, lines, i);
            && (h < |lines| ==> Scores(key, lines[h]))
            && (forall j | i <= j < h :: !Scores(key, lines[j]))
    decreases |lines| - i
  {
    if i < |lines| && !Scores(key, lines[i]) {
      FirstScoringHeadingSpec(key, lines, i + 1);
    }
  }

  /** The first heading at or after `i`, or `|lines|` if there is none. */
  function NextHeading(lines: seq<string>, i: nat): (n: nat)
    requires i <= |lines|
    ensures i <= n <= |lines|
    decreases |lines| - i
  {
    if i == |lines| then i
    else if IsHeading(lines[i]) then i
    else NextHeading(lines, i + 1)
  }

  /** The line found is a heading (or the end), and no line from `i` up to it is one. */
  lemma {:induction false} NextHeadingSpec(lines: seq<string>, i: nat)
    requires i <= |lines|
    ensures var n := NextHeading(lines, i);
            && (n < |lines| ==> IsHeading(lines[n]))
            && (forall j | i <= j < n :: !IsHeading(lines[j]))
    decreases |lines| - i
  {
    if i < |lines| && !IsHeading(lines[i]) {
      NextHeadingSpec(lines, i + 1);
    }
  }

  /** The last heading at or before `s`, or -1 if there is none. */
  function LastHeading(lines: seq<string>, s: int): (h: int)
    requires -1 <= s < |lines|
    ensures -1 <= h <= s
    decreases s + 1
  {
    if s < 0 then -1
    else if IsHeading(lines[s]) then s
    else LastHeading(lines, s - 1)
  }

  /** The line found is a heading, and no line after it up to `s` is one. */
  lemma {:induction false} LastHeadingSpec(lines: seq<string>, s: int)
    requires -1 <= s < |lines|
    ensures var h := LastHeading(lines, s);
            && (h >= 0 ==> IsHeading(lines[h]))
            && (forall j | h < j <= s :: !IsHeading(lines[j]))
    decreases s + 1
  {
    if s >= 0 && !IsHeading(lines[s]) {
      LastHeadingSpec(lines, s - 1);
    }
  }

  /** `s` is the last line of a section: a heading lies at or before it, and the line after
      it is the next heading or the end of the lines. */
  predicate IsSectionEnd(lines: seq<string>, s: int) {
    0 <= s < |lines| && (s + 1 == |lines| || IsHeading(lines[s + 1])) && LastHeading(lines, s) >= 0
  }

  /** The value `findBestSectionForEntry` returns: the line before the heading that follows
      the first scoring heading, or -1 when no heading scores. */
  function SectionOf(entry: string, lines: seq<string>): (e: int)
    ensures -1 <= e < |lines|
  {
    var h := FirstScoringHeading(Normalize(entry), lines, 0);
    if h == |lines| then -1 else NextHeading(lines, h + 1) - 1
  }

  /** The inner loop of `findBestSectionForEntry`: the categories are tried in order and
      the first that holds both the key and the heading text scores 10. */
  method ScoreHeading(key: string, headingText: string, categories: seq<Category>) returns (score: int)
    ensures score == CategoryScore(key, headingText, categories)
  {
    score := 0;
    for c := 0 to |categories|
      invariant score == 0
      invariant forall j | 0 <= j < c :: !CategoryFits(key, headingText, categories[j])
    {
      var category := categories[c];
      var entryMatchesCategory := exists p | p in category.patterns :: Contains(key, Lower(p));
      if entryMatchesCategory {
        var headingMatchesCategory := exists k | k in category.keywords :: Contains(headingText, k);
        if headingMatchesCategory {
          score := 10;
          break;
        }
      }
    }
    CategoryScoreFits(key, headingText, categories);
  }

  /** The `while` scan of `findBestSectionForEntry`: from the line after a heading forward to
      the next heading or the end of the lines. */
  method ScanToNextHeading(templateLines: seq<string>, i: nat) returns (sectionEnd: nat)
    requires i < |templateLines|
    ensures sectionEnd == NextHeading(templateLines, i + 1)
  {
    sectionEnd := i + 1;
    while sectionEnd < |templateLines|
      invariant i + 1 <= sectionEnd <= |templateLines|
      invariant NextHeading(templateLines, i + 1) == NextHeading(templateLines, sectionEnd)
    {
      var nextLine := Trim(templateLines[sectionEnd]);
      if StartsWith(nextLine, "#") && !StartsWith(nextLine, "##") {
        break;
      }
      sectionEnd := sectionEnd + 1;
    }
  }

  /** `findBestSectionForEntry`. */
  method FindBestSectionForEntry(entry: string, templateLines: seq<string>) returns (bestSectionEnd: int)
    ensures bestSectionEnd == SectionOf(entry, templateLines)
  {
    var key := Normalize(entry);
    ghost var first := FirstScoringHeading(key, templateLines, 0);
    bestSectionEnd := -1;
    var bestScore := 0;
    for i := 0 to |templateLines|
      invariant bestScore == 0 || bestScore == 10
      invariant bestScore == 0 ==> bestSectionEnd == -1 && first == FirstScoringHeading(key, templateLines, i)
      invariant bestScore == 10 ==> first < i && bestSectionEnd == NextHeading(templateLines, first + 1) - 1
    {
      var line := Trim(templateLines[i]);
      if StartsWith(line, "#") && !StartsWith(line, "##") {
        var score := ScoreHeading(key, Lower(line), Categories);
        assert HeadingScore(key, templateLines[i]) == score;
        if score > bestScore {
          assert Scores(key, templateLines[i]) && first == i;
          bestScore := score;
          var sectionEnd := ScanToNextHeading(templateLines, i);
          bestSectionEnd := sectionEnd - 1;
        }
      }
    }
  }

  /** The result is -1 exactly when no heading scores for the entry. */
  lemma {:induction false} SectionOfNone(entry: string, lines: seq<string>)
    ensures SectionOf(entry, lines) == -1 <==>
      forall h | 0 <= h < |lines| && IsHeading(lines[h]) :: HeadingScore(Normalize(entry), lines[h]) == 0
  {
    var key := Normalize(entry);
    var first := FirstScoringHeading(key, lines, 0);
    FirstScoringHeadingSpec(key, lines, 0);
    if first < |lines| {
      assert Scores(key, lines[first]);
      assert NextHeading(lines, first + 1) - 1 >= first;
    }
  }

  /** Otherwise the result `e` is the end of the section of the first scoring heading `h`: the
      strict `>` keeps the first of equally scoring headings; `h <= e`; no heading lies in
      `(h, e]`; and `e + 1` is a heading or the end of the lines. */
  lemma {:induction false} SectionOfFound(entry: string, lines: seq<string>)
    requires SectionOf(entry, lines) != -1
    ensures var key := Normalize(entry);
            var h := FirstScoringHeading(key, lines, 0);
            var e := SectionOf(entry, lines);
            && 0 <= h <= e < |lines|
            && IsHeading(lines[h]) && HeadingScore(key, lines[h]) == 10
            && (forall j | 0 <= j < h :: !Scores(key, lines[j]))
            && (forall j | h < j <= e :: !IsHeading(lines[j]))
            && (e + 1 == |lines| || IsHeading(lines[e + 1]))
            && LastHeading(lines, e) == h
            && IsSectionEnd(lines, e)
  {
    var key := Normalize(entry);
    var h := FirstScoringHeading(key, lines, 0);
    FirstScoringHeadingSpec(key, lines, 0);
    assert h < |lines| && SectionOf(entry, lines) == NextHeading(lines, h + 1) - 1;
    ScoresTen(key, lines[h]);
    HeadingSection(lines, h);
  }

  /** A scoring heading scores 10. */
  lemma {:induction false} ScoresTen(key: string, line: string)
    requires Scores(key, line)
    ensures HeadingScore(key, line) == 10
  {
  }

  /** The lines from a heading up to the line before the next heading form its section. */
  lemma {:induction false} HeadingSection(lines: seq<string>, h: int)
    requires 0 <= h < |lines| && IsHeading(lines[h])
    ensures var e := NextHeading(lines, h + 1) - 1;
            && h <= e < |lines|
            && (forall j | h < j <= e :: !IsHeading(lines[j]))
            && (e + 1 == |lines| || IsHeading(lines[e + 1]))
            && LastHeading(lines, e) == h
            && IsSectionEnd(lines, e)
  {
    var e := NextHeading(lines, h + 1) - 1;
    NextHeadingSpec(lines, h + 1);
    LastHeadingIs(lines, h, e);
  }

  lemma {:induction false} LastHeadingIs(lines: seq<string>, h: int, s: int)
    requires 0 <= h <= s < |lines| && IsHeading(lines[h])
    requires forall j | h < j <= s :: !IsHeading(lines[j])
    ensures LastHeading(lines, s) == h
    decreases s
  {
    if s > h {
      LastHeadingIs(lines, h, s - 1);
    }
  }

  /** A section end lies after its heading, and the lines after the heading up to it are not
      headings. */
  lemma {:induction false} SectionEndSpec(lines: seq<string>, s: int)
    requires IsSectionEnd(lines, s)
    ensures var h := LastHeading(lines, s);
            && 0 <= h <= s && IsHeading(lines[h])
            && (forall j | h < j <= s :: !IsHeading(lines[j]))
  {
    LastHeadingSpec(lines, s);
  }

  lemma {:induction false} ContainsLowerDot(p: string, i: int)
    requires 0 <= i < |p| && p[i] == '.'
    ensures '.' in Lower(p)
  {
    LowerAt(p, i);
  }

  /** A pattern holding a `.` (`yarn.lock`, `.env`, `.vscode`, `.idea`, `.sublime`) never
      matches, because a key has no `.` in it. */
  lemma {:induction false} DottedPatternNeverMatches(entry: string, p: string)
    requires '.' in p
    ensures !Contains(Normalize(entry), Lower(p))
  {
    var key := Normalize(entry);
    var i :| 0 <= i < |p| && p[i] == '.';
    ContainsLowerDot(p, i);
    NormalizeAlphabet(entry);
    if Contains(key, Lower(p)) {
      ContainsChars(key, Lower(p), '.');
      assert false;
    }
  }

  /** Hence no entry ever belongs to the IDE category, whose patterns all hold a `.`: a
      heading is never chosen for its `ide` or `editor` keyword alone. */
  lemma {:induction false} IdeCategoryNeverMatches(entry: string)
    ensures !EntryMatches(Normalize(entry), Categories[6])
  {
    var c := Categories[6];
    forall p | p in c.patterns
      ensures !Contains(Normalize(entry), Lower(p))
    {
      assert p == ".vscode" || p == ".idea" || p == ".sublime";
      assert p[0] == '.';
      DottedPatternNeverMatches(entry, p);
    }
  }
}
