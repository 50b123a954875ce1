/**
 * Where `mergeGitIgnoreFiles` puts the new entries of each section: right after the last
 * non-blank line of the section, followed by a blank separator line when the line they are
 * put in front of is a `#` line. The splice loop is proved against `Layout`, a declarative
 * description of the merged lines in template order.
 */
module Placement {
  import opened Strings
  import opened Entries
  import opened Sections

  /** The last non-blank line at or before `s`, or -1 when there is none. */
  function LastNonBlank(lines: seq<string>, s: int): (j: int)
    requires -1 <= s < |lines|
    ensures -1 <= j <= s
    decreases s + 1
  {
    if s < 0 then -1
    else if !IsBlank(lines[s]) then s
    else LastNonBlank(lines, s - 1)
  }

  /** The line found is non-blank and every line after it up to `s` is blank. */
  lemma {:induction false} LastNonBlankSpec(lines: seq<string>, s: int)
    requires -1 <= s < |lines|
    ensures var j := LastNonBlank(lines, s);
            && (j >= 0 ==> !IsBlank(lines[j]))
            && (forall k | j < k <= s :: IsBlank(lines[k]))
    decreases s + 1
  {
    if s >= 0 && IsBlank(lines[s]) {
      LastNonBlankSpec(lines, s - 1);
    }
  }

  /** The first non-blank line at or after `i`, or `|lines|` when there is none. */
  function NextNonBlank(lines: seq<string>, i: int): (n: int)
    requires 0 <= i <= |lines|
    ensures i <= n <= |lines|
    decreases |lines| - i
  {
    if i == |lines| then i
    else if !IsBlank(lines[i]) then i
    else NextNonBlank(lines, i + 1)
  }

  /** The line found is non-blank (or the end) and every line from `i` up to it is blank. */
  lemma {:induction false} NextNonBlankSpec(lines: seq<string>, i: int)
    requires 0 <= i <= |lines|
    ensures var n := NextNonBlank(lines, i);
            && (n < |lines| ==> !IsBlank(lines[n]))
            && (forall k | i <= k < n :: IsBlank(lines[k]))
    decreases |lines| - i
  {
    if i < |lines| && IsBlank(lines[i]) {
      NextNonBlankSpec(lines, i + 1);
    }
  }

  /** The blank line put after a group of entries when the line they are inserted in front of
      is a `#` line. */
  function Separator(lines: seq<string>, k: int): seq<string>
    requires 0 <= k
  {
    if k < |lines| && IsComment(lines[k]) then [""] else []
  }

  /** What is inserted after template line `i`: the group of the section whose last non-blank
      line is `i`, then its separator; nothing after a blank line or a line that ends no
      group's section. */
  function Block(lines: seq<string>, groups: map<int, seq<string>>, i: int): seq<string>
    requires 0 <= i < |lines|
  {
    var s := NextNonBlank(lines, i + 1) - 1;
    if !IsBlank(lines[i]) && s in groups then groups[s] + Separator(lines, i + 1) else []
  }

  /** Template lines `i` to `j` (exclusive), each followed by its block. */
  function LayoutRange(lines: seq<string>, groups: map<int, seq<string>>, i: int, j: int): seq<string>
    requires 0 <= i <= j <= |lines|
    decreases j - i
  {
    if i == j then [] else [lines[i]] + Block(lines, groups, i) + LayoutRange(lines, groups, i + 1, j)
  }

  /** The template lines with every group placed at the end of its section. */
  function Layout(lines: seq<string>, groups: map<int, seq<string>>): seq<string> {
    LayoutRange(lines, groups, 0, |lines|)
  }

  /** The keys of `groups` below `n`, largest first: `Object.entries` of the insertions sorted
      by `parseInt(b) - parseInt(a)`. */
  function KeysDescending(groups: map<int, seq<string>>, n: int): seq<int>
    decreases n
  {
    if n <= 0 then []
    else (if n - 1 in groups then [n - 1] else []) + KeysDescending(groups, n - 1)
  }

  /** The sorted keys are strictly decreasing, and they are exactly the keys of `groups` in
      `[0, n)`. */
  lemma {:induction false} KeysDescendingSpec(groups: map<int, seq<string>>, n: int)
    ensures var keys := KeysDescending(groups, n);
            && (forall a, b | 0 <= a < b < |keys| :: keys[a] > keys[b])
            && (forall t :: t in keys <==> t in groups && 0 <= t < n)
    decreases n
  {
    if n > 0 {
      KeysDescendingSpec(groups, n - 1);
      var rest := KeysDescending(groups, n - 1);
      var keys := KeysDescending(groups, n);
      if n - 1 in groups {
        assert keys == [n - 1] + rest;
        forall a, b | 0 <= a < b < |keys| ensures keys[a] > keys[b] {
          assert keys[b] == rest[b - 1];
          if a > 0 {
            assert keys[a] == rest[a - 1];
          } else {
            assert rest[b - 1] in rest;
          }
        }
      } else {
        assert keys == rest;
      }
    }
  }

  lemma {:induction false} LastNonBlankIs(lines: seq<string>, i: int, s: int)
    requires 0 <= i <= s < |lines| && !IsBlank(lines[i])
    requires forall k | i < k <= s :: IsBlank(lines[k])
    ensures LastNonBlank(lines, s) == i
    decreases s
  {
    if s > i {
      LastNonBlankIs(lines, i, s - 1);
    }
  }

  /** A non-blank line is the last non-blank line of the run that ends just before the next
      non-blank line. */
  lemma {:induction false} LastNonBlankOfNext(lines: seq<string>, i: int)
    requires 0 <= i < |lines| && !IsBlank(lines[i])
    ensures LastNonBlank(lines, NextNonBlank(lines, i + 1) - 1) == i
  {
    NextNonBlankSpec(lines, i + 1);
    LastNonBlankIs(lines, i, NextNonBlank(lines, i + 1) - 1);
  }

  lemma {:induction false} NextNonBlankIs(lines: seq<string>, i: int, n: int)
    requires 0 <= i <= n <= |lines|
    requires forall k | i <= k < n :: IsBlank(lines[k])
    requires n == |lines| || !IsBlank(lines[n])
    ensures NextNonBlank(lines, i) == n
    decreases n - i
  {
    if i < n {
      NextNonBlankIs(lines, i + 1, n);
    }
  }

  lemma {:induction false} HeadingNotBlank(line: string)
    requires IsHeading(line)
    ensures !IsBlank(line)
  {
  }

  /** A section holds a heading, so it has a last non-blank line, and the run of lines after
      that line reaches to the end of the section. */
  lemma {:induction false} SectionEndFacts(lines: seq<string>, s: int)
    requires IsSectionEnd(lines, s)
    ensures LastHeading(lines, s) <= LastNonBlank(lines, s)
    ensures NextNonBlank(lines, LastNonBlank(lines, s) + 1) == s + 1
  {
    var h := LastHeading(lines, s);
    SectionEndSpec(lines, s);
    HeadingNotBlank(lines[h]);
    var i := LastNonBlank(lines, s);
    LastNonBlankSpec(lines, s);
    if s + 1 < |lines| {
      HeadingNotBlank(lines[s + 1]);
    }
    NextNonBlankIs(lines, i + 1, s + 1);
  }

  /** A section ending before `s` ends before the last non-blank line of `s`'s section. */
  lemma {:induction false} EarlierSectionEnd(lines: seq<string>, u: int, s: int)
    requires IsSectionEnd(lines, u) && IsSectionEnd(lines, s) && u < s
    ensures u < LastNonBlank(lines, s)
  {
    SectionEndFacts(lines, s);
    SectionEndSpec(lines, s);
    assert IsHeading(lines[u + 1]);
  }

  /** The last non-blank line at or before `s` depends only on the lines up to `s`. */
  lemma {:induction false} LastNonBlankPrefix(a: seq<string>, b: seq<string>, s: int)
    requires -1 <= s < |a| && s < |b| && a[..s + 1] == b[..s + 1]
    ensures LastNonBlank(a, s) == LastNonBlank(b, s)
    decreases s + 1
  {
    if s >= 0 {
      assert a[s] == a[..s + 1][s] && b[s] == b[..s + 1][s];
      assert a[..s] == a[..s + 1][..s] && b[..s] == b[..s + 1][..s];
      LastNonBlankPrefix(a, b, s - 1);
    }
  }

  lemma {:induction false} LayoutSplit(lines: seq<string>, groups: map<int, seq<string>>, i: int, m: int, j: int)
    requires 0 <= i <= m <= j <= |lines|
    ensures LayoutRange(lines, groups, i, j) == LayoutRange(lines, groups, i, m) + LayoutRange(lines, groups, m, j)
    decreases m - i
  {
    if i < m {
      LayoutSplit(lines, groups, i + 1, m, j);
    }
  }

  /** Where no block is inserted, the layout is the template lines themselves. */
  lemma {:induction false} LayoutPlain(lines: seq<string>, groups: map<int, seq<string>>, i: int, j: int)
    requires 0 <= i <= j <= |lines|
    requires forall k | i <= k < j :: Block(lines, groups, k) == []
    ensures LayoutRange(lines, groups, i, j) == lines[i..j]
    decreases j - i
  {
    if i < j {
      LayoutPlain(lines, groups, i + 1, j);
      assert lines[i..j] == [lines[i]] + lines[i + 1..j];
    }
  }

  /** The layout from `i` on reads only the groups of sections ending at or after `i`. */
  lemma {:induction false} LayoutAgree(lines: seq<string>, g1: map<int, seq<string>>, g2: map<int, seq<string>>, i: int, j: int)
    requires 0 <= i <= j <= |lines|
    requires forall t | t >= i :: (t in g1 <==> t in g2) && (t in g1 ==> g1[t] == g2[t])
    ensures LayoutRange(lines, g1, i, j) == LayoutRange(lines, g2, i, j)
    decreases j - i
  {
    if i < j {
      LayoutAgree(lines, g1, g2, i + 1, j);
      assert Block(lines, g1, i) == Block(lines, g2, i);
    }
  }

  /** Before the last non-blank lines of all groups' sections, the layout is the template. */
  lemma {:induction false} LayoutBelow(lines: seq<string>, groups: map<int, seq<string>>, b: int)
    requires 0 <= b <= |lines|
    requires forall t | t in groups :: -1 <= t < |lines| && b <= LastNonBlank(lines, t)
    ensures lines[..b] + LayoutRange(lines, groups, b, |lines|) == Layout(lines, groups)
  {
    forall k | 0 <= k < b ensures Block(lines, groups, k) == [] {
      if !IsBlank(lines[k]) && NextNonBlank(lines, k + 1) - 1 in groups {
        LastNonBlankOfNext(lines, k);
        assert false;
      }
    }
    LayoutPlain(lines, groups, 0, b);
    LayoutSplit(lines, groups, 0, b, |lines|);
  }

  /** The lines laid out so far agree with the template up to line `b`. */
  lemma {:induction false} SplicedFront(lines: seq<string>, rest: seq<string>, b: int, s: int, k: int)
    requires 0 <= k <= s + 1 <= b <= |lines|
    requires b < |lines| ==> rest != [] && rest[0] == lines[b]
    requires b == |lines| ==> rest == []
    ensures var merged := lines[..b] + rest;
            && LastNonBlank(merged, s) == LastNonBlank(lines, s)
            && merged[..k] == lines[..k]
            && merged[k..] == lines[k..b] + rest
            && Separator(merged, k) == Separator(lines, k)
  {
    var merged := lines[..b] + rest;
    assert merged[..s + 1] == lines[..s + 1];
    LastNonBlankPrefix(merged, lines, s);
    if b < |lines| {
      assert k < |merged| && merged[k] == lines[k];
    }
  }

  /** The group of section `s` is the block after its last non-blank line. */
  lemma {:induction false} BlockOfSection(lines: seq<string>, groups: map<int, seq<string>>, s: int)
    requires IsSectionEnd(lines, s) && s in groups
    ensures var i := LastNonBlank(lines, s);
            0 <= i <= s && Block(lines, groups, i) == groups[s] + Separator(lines, i + 1)
  {
    SectionEndFacts(lines, s);
    LastNonBlankSpec(lines, s);
  }

  /** Between the last non-blank line of section `s` and line `b`, where the blocks of all
      the other groups lie at or after `b`, no block is inserted. */
  lemma {:induction false} NoBlocksBetween(lines: seq<string>, groups: map<int, seq<string>>, s: int, b: int)
    requires 0 <= s < b <= |lines|
    requires forall t | t in groups && t != s :: -1 <= t < |lines| && b <= LastNonBlank(lines, t)
    ensures forall j | LastNonBlank(lines, s) < j < b :: Block(lines, groups, j) == []
  {
    forall j | LastNonBlank(lines, s) < j < b ensures Block(lines, groups, j) == [] {
      var t := NextNonBlank(lines, j + 1) - 1;
      if !IsBlank(lines[j]) && t in groups {
        LastNonBlankOfNext(lines, j);
        assert false;
      }
    }
  }

  /** Re-associates a four-part concatenation; a step of the calculation in SpliceStep. */
  lemma {:induction false} Regroup<T>(p: seq<T>, q: seq<T>, r: seq<T>, t: seq<T>)
    ensures p + q + r + t == p + (q + r + t)
  {
  }

  lemma {:induction false} LayoutUnfold(lines: seq<string>, groups: map<int, seq<string>>, i: int, b: int)
    requires 0 <= i < b <= |lines|
    ensures LayoutRange(lines, groups, i, |lines|)
            == [lines[i]] + Block(lines, groups, i) + (LayoutRange(lines, groups, i + 1, b) + LayoutRange(lines, groups, b, |lines|))
  {
    LayoutSplit(lines, groups, i + 1, b, |lines|);
  }

  /** Adding the group of section `s` to the layout from its last non-blank line `i` on puts
      the group and its separator after line `i` and changes nothing up to line `b`. */
  lemma {:induction false} LayoutWithGroup(lines: seq<string>, done: map<int, seq<string>>, b: int, s: int, g: seq<string>, i: int)
    requires 0 <= s < b <= |lines| && IsSectionEnd(lines, s) && i == LastNonBlank(lines, s)
    requires forall t | t in done :: -1 <= t < |lines| && b <= LastNonBlank(lines, t)
    ensures 0 <= i <= s
    ensures LayoutRange(lines, done[s := g], i, |lines|)
            == [lines[i]] + (g + Separator(lines, i + 1)) + (lines[i + 1..b] + LayoutRange(lines, done, b, |lines|))
  {
    var done' := done[s := g];
    BlockOfSection(lines, done', s);
    LayoutUnfold(lines, done', i, b);
    NoBlocksBetween(lines, done', s, b);
    LayoutPlain(lines, done', i + 1, b);
    LayoutAgree(lines, done', done, b, |lines|);
  }

  /** `merged` is the template up to line `b`, followed by the layout of the groups `done`
      from line `b` on. */
  ghost predicate Spliced(lines: seq<string>, done: map<int, seq<string>>, b: int, merged: seq<string>) {
    0 <= b <= |lines| && merged == lines[..b] + LayoutRange(lines, done, b, |lines|)
  }

  /** One step of the splice loop: inserting the group of section `s` (with its separator)
      after the last non-blank line of the section in the lines laid out so far yields the
      layout with that group added. */
  lemma {:induction false} SpliceStep(lines: seq<string>, done: map<int, seq<string>>, b: int, s: int, g: seq<string>,
                                      merged: seq<string>)
    requires Spliced(lines, done, b, merged)
    requires 0 <= s < b && IsSectionEnd(lines, s)
    requires forall t | t in done :: -1 <= t < |lines| && b <= LastNonBlank(lines, t)
    ensures s < |merged|
    ensures var k := LastNonBlank(merged, s) + 1;
            Spliced(lines, done[s := g], LastNonBlank(lines, s), merged[..k] + (g + Separator(merged, k)) + merged[k..])
  {
    var rest := LayoutRange(lines, done, b, |lines|);
    var i := LastNonBlank(lines, s);
    SectionEndFacts(lines, s);
    var k := i + 1;
    SplicedFront(lines, rest, b, s, k);
    calc {
      merged[..k] + (g + Separator(merged, k)) + merged[k..];
      lines[..k] + (g + Separator(lines, k)) + (lines[k..b] + rest);
      { assert lines[..k] == lines[..i] + [lines[i]]; }
      (lines[..i] + [lines[i]]) + (g + Separator(lines, k)) + (lines[k..b] + rest);
      { Regroup(lines[..i], [lines[i]], g + Separator(lines, k), lines[k..b] + rest); }
      lines[..i] + ([lines[i]] + (g + Separator(lines, k)) + (lines[k..b] + rest));
      { LayoutWithGroup(lines, done, b, s, g, i); }
      lines[..i] + LayoutRange(lines, done[s := g], i, |lines|);
    }
  }

  /** The body of the splice loop for one section end: walk back over blank lines to the last
      non-blank line of the section, splice the entries in after it and, when the next
      non-blank line is a `#` line and the line after the entries is not blank, splice a blank
      line in after them. */
  method SpliceGroup(mergedLines: seq<string>, sectionEnd: int, entries: seq<string>) returns (out: seq<string>)
    requires 0 <= sectionEnd < |mergedLines|
    ensures var k := LastNonBlank(mergedLines, sectionEnd) + 1;
            out == mergedLines[..k] + (entries + Separator(mergedLines, k)) + mergedLines[k..]
  {
    var actualInsertIndex := sectionEnd;
    while actualInsertIndex >= 0 && Trim(mergedLines[actualInsertIndex]) == ""
      invariant -1 <= actualInsertIndex <= sectionEnd
      invariant LastNonBlank(mergedLines, actualInsertIndex) == LastNonBlank(mergedLines, sectionEnd)
    {
      actualInsertIndex := actualInsertIndex - 1;
    }
    assert LastNonBlank(mergedLines, actualInsertIndex) == actualInsertIndex;
    actualInsertIndex := actualInsertIndex + 1;
    ghost var k := LastNonBlank(mergedLines, sectionEnd) + 1;
    assert actualInsertIndex == k;
    var nextLineIndex := actualInsertIndex;
    while nextLineIndex < |mergedLines| && Trim(mergedLines[nextLineIndex]) == ""
      invariant actualInsertIndex <= nextLineIndex <= |mergedLines|
      invariant NextNonBlank(mergedLines, nextLineIndex) == NextNonBlank(mergedLines, actualInsertIndex)
    {
      nextLineIndex := nextLineIndex + 1;
    }
    assert nextLineIndex == NextNonBlank(mergedLines, actualInsertIndex);
    var nextLineIsHeading := nextLineIndex < |mergedLines| && StartsWith(Trim(mergedLines[nextLineIndex]), "#");
    SeparatorCases(mergedLines, actualInsertIndex);
    out := mergedLines[..actualInsertIndex] + entries + mergedLines[actualInsertIndex..];
    if nextLineIsHeading {
      var lineAfterEntries := actualInsertIndex + |entries|;
      if lineAfterEntries < |out| && Trim(out[lineAfterEntries]) != "" {
        assert out[lineAfterEntries] == mergedLines[actualInsertIndex];
        SpliceSeparator(mergedLines, actualInsertIndex, entries);
        out := out[..lineAfterEntries] + [""] + out[lineAfterEntries..];
        assert out == mergedLines[..k] + (entries + [""]) + mergedLines[k..];
        return;
      }
    }
    assert Separator(mergedLines, k) == [];
    assert out == mergedLines[..k] + (entries + []) + mergedLines[k..];
  }

  /** The separator check of the splice loop: the next non-blank line from `k` on is a `#`
      line and line `k` is not blank exactly when line `k` is a `#` line. */
  lemma {:induction false} SeparatorCases(lines: seq<string>, k: int)
    requires 0 <= k <= |lines|
    ensures var n := NextNonBlank(lines, k);
            Separator(lines, k) == if n < |lines| && StartsWith(Trim(lines[n]), "#")
                                      && k < |lines| && Trim(lines[k]) != ""
                                   then [""] else []
  {
    NextNonBlankSpec(lines, k);
    if k < |lines| && Trim(lines[k]) != "" {
      NextNonBlankIs(lines, k, k);
    }
  }

  /** Splicing a blank line in after the entries gives the entries followed by the separator. */
  lemma {:induction false} SpliceSeparator(lines: seq<string>, k: int, entries: seq<string>)
    requires 0 <= k <= |lines|
    ensures var spliced := lines[..k] + entries + lines[k..];
            var after := k + |entries|;
            spliced[..after] + [""] + spliced[after..] == lines[..k] + (entries + [""]) + lines[k..]
  {
    var spliced := lines[..k] + entries + lines[k..];
    var after := k + |entries|;
    assert spliced[..after] == lines[..k] + entries;
    assert spliced[after..] == lines[k..];
  }

  /** The template lines of a range stay in the layout, in order. */
  lemma {:induction false} LayoutRangeKeepsLines(lines: seq<string>, groups: map<int, seq<string>>, i: int, j: int)
    requires 0 <= i <= j <= |lines|
    ensures IsSubsequence(lines[i..j], LayoutRange(lines, groups, i, j))
    decreases j - i
  {
    if i == j {
      assert lines[i..j] == [];
    } else {
      var rest := LayoutRange(lines, groups, i + 1, j);
      var block := Block(lines, groups, i);
      var a, b := lines[i..j], [lines[i]] + (block + rest);
      LayoutRangeKeepsLines(lines, groups, i + 1, j);
      SubsequenceDropFront(lines[i + 1..j], rest, block);
      assert a[0] == b[0] && a[1..] == lines[i + 1..j] && b[1..] == block + rest;
      assert IsSubsequence(a, b);
      assert b == LayoutRange(lines, groups, i, j);
    }
  }

  /** Every template line is kept, in order: the layout only inserts lines. */
  lemma {:induction false} LayoutKeepsTemplate(lines: seq<string>, groups: map<int, seq<string>>)
    ensures IsSubsequence(lines, Layout(lines, groups))
  {
    LayoutRangeKeepsLines(lines, groups, 0, |lines|);
    assert lines[0..|lines|] == lines;
  }

  /** With no groups, the layout is the template itself. */
  lemma {:induction false} LayoutNoGroups(lines: seq<string>)
    ensures Layout(lines, map[]) == lines
  {
    LayoutPlain(lines, map[], 0, |lines|);
    assert lines[0..|lines|] == lines;
  }

  /** Each group of a section is placed right after the section's last non-blank line `i`,
      which lies at or after the section's heading, and is followed by a blank line exactly
      when line `i + 1` is a `#` line; the lines before line `i` keep their own layout. */
  lemma {:induction false} LayoutPlacement(lines: seq<string>, groups: map<int, seq<string>>, s: int)
    requires s in groups && IsSectionEnd(lines, s)
    ensures var i := LastNonBlank(lines, s);
            && LastHeading(lines, s) <= i <= s
            && !IsBlank(lines[i])
            && (forall k | i < k <= s :: IsBlank(lines[k]))
            && Layout(lines, groups)
               == LayoutRange(lines, groups, 0, i) + [lines[i]] + (groups[s] + Separator(lines, i + 1))
                  + LayoutRange(lines, groups, i + 1, |lines|)
  {
    var i := LastNonBlank(lines, s);
    SectionEndFacts(lines, s);
    SectionEndSpec(lines, s);
    LastNonBlankSpec(lines, s);
    BlockOfSection(lines, groups, s);
    LayoutSplit(lines, groups, 0, i, |lines|);
  }

  /** The layout adds no line of its own beyond separators: each of its lines is a template
      line, a line of some group, or the empty separator. */
  lemma {:induction false} LayoutLines(lines: seq<string>, groups: map<int, seq<string>>, i: int, x: string)
    requires 0 <= i <= |lines| && x in LayoutRange(lines, groups, i, |lines|)
    ensures x in lines || x == "" || exists t | t in groups :: x in groups[t]
    decreases |lines| - i
  {
    if x != lines[i] {
      var block := Block(lines, groups, i);
      if x in block {
        var t := NextNonBlank(lines, i + 1) - 1;
        assert t in groups;
        if x !in groups[t] {
          assert x in Separator(lines, i + 1);
        }
      } else {
        LayoutLines(lines, groups, i + 1, x);
      }
    }
  }

  /** The groups of `groups` whose keys are among `keys`. */
  ghost function Pick(groups: map<int, seq<string>>, keys: seq<int>): map<int, seq<string>> {
    map t | t in keys && t in groups :: groups[t]
  }

  /** The bookkeeping of the splice loop after `n` groups: the groups spliced so far are those
      of the first `n` sorted keys, their blocks lie at or after line `b`, and the sections
      still to come end before `b`. */
  ghost predicate SpliceProgress(lines: seq<string>, groups: map<int, seq<string>>, sorted: seq<int>, n: int,
                                 done: map<int, seq<string>>, b: int)
  {
    && 0 <= n <= |sorted| && 0 <= b <= |lines|
    && done == Pick(groups, sorted[..n])
    && (forall t | t in done :: -1 <= t < |lines| && b <= LastNonBlank(lines, t))
    && (forall m | n <= m < |sorted| :: sorted[m] < b)
  }

  /** The sorted keys of a map of section ends. */
  ghost predicate SortedSectionKeys(lines: seq<string>, groups: map<int, seq<string>>, sorted: seq<int>) {
    && (forall a, b | 0 <= a < b < |sorted| :: sorted[a] > sorted[b])
    && (forall t :: t in sorted <==> t in groups)
    && (forall t | t in groups :: IsSectionEnd(lines, t))
  }

  lemma {:induction false} SpliceProgressStart(lines: seq<string>, groups: map<int, seq<string>>, sorted: seq<int>)
    requires SortedSectionKeys(lines, groups, sorted)
    ensures SpliceProgress(lines, groups, sorted, 0, map[], |lines|)
  {
    assert Pick(groups, sorted[..0]) == map[];
    forall m | 0 <= m < |sorted| ensures sorted[m] < |lines| {
      assert sorted[m] in sorted;
    }
  }

  lemma {:induction false} SpliceProgressStep(lines: seq<string>, groups: map<int, seq<string>>, sorted: seq<int>, n: int,
                                              done: map<int, seq<string>>, b: int)
    requires SortedSectionKeys(lines, groups, sorted)
    requires SpliceProgress(lines, groups, sorted, n, done, b) && n < |sorted|
    ensures var s := sorted[n];
            && s in groups && IsSectionEnd(lines, s) && s < b
            && (forall t | t in done :: -1 <= t < |lines| && b <= LastNonBlank(lines, t))
            && SpliceProgress(lines, groups, sorted, n + 1, done[s := groups[s]], LastNonBlank(lines, s))
  {
    var s := sorted[n];
    assert s in sorted;
    var i := LastNonBlank(lines, s);
    SectionEndFacts(lines, s);
    forall m | n + 1 <= m < |sorted| ensures sorted[m] < i {
      assert sorted[m] in sorted;
      EarlierSectionEnd(lines, sorted[m], s);
    }
    forall t | t in done ensures t > s {
      assert t in sorted[..n];
      var a :| 0 <= a < n && sorted[..n][a] == t;
    }
    assert sorted[..n + 1] == sorted[..n] + [s];
    PickStep(groups, sorted[..n], s);
  }

  lemma {:induction false} PickStep(groups: map<int, seq<string>>, keys: seq<int>, s: int)
    requires s in groups
    ensures Pick(groups, keys + [s]) == Pick(groups, keys)[s := groups[s]]
  {
    var p, q := Pick(groups, keys + [s]), Pick(groups, keys)[s := groups[s]];
    forall t ensures t in p <==> t in q {
      assert t in keys + [s] <==> t in keys || t == s;
    }
    assert p == q;
  }

  lemma {:induction false} SpliceProgressEnd(lines: seq<string>, groups: map<int, seq<string>>, sorted: seq<int>,
                                             done: map<int, seq<string>>, b: int, merged: seq<string>)
    requires SortedSectionKeys(lines, groups, sorted)
    requires SpliceProgress(lines, groups, sorted, |sorted|, done, b)
    requires Spliced(lines, done, b, merged)
    ensures merged == Layout(lines, groups)
  {
    assert sorted[..|sorted|] == sorted;
    forall t ensures t in done <==> t in groups {
      assert t in groups ==> t in sorted;
    }
    assert done == groups;
    LayoutBelow(lines, done, b);
  }

  /** The splice loop: the groups are spliced into a copy of the template lines in descending
      order of section end, so that each splice leaves the positions of the sections still to
      come unchanged. */
  method SpliceInsertions(templateLines: seq<string>, insertions: map<int, seq<string>>) returns (mergedLines: seq<string>)
    requires forall t | t in insertions :: IsSectionEnd(templateLines, t)
    ensures mergedLines == Layout(templateLines, insertions)
  {
    var sortedInsertions := KeysDescending(insertions, |templateLines|);
    KeysDescendingSpec(insertions, |templateLines|);
    assert SortedSectionKeys(templateLines, insertions, sortedInsertions);
    SpliceProgressStart(templateLines, insertions, sortedInsertions);
    mergedLines := templateLines;
    ghost var done: map<int, seq<string>> := map[];
    ghost var b := |templateLines|;
    for n := 0 to |sortedInsertions|
      invariant SpliceProgress(templateLines, insertions, sortedInsertions, n, done, b)
      invariant Spliced(templateLines, done, b, mergedLines)
    {
      var sectionEnd := sortedInsertions[n];
      SpliceProgressStep(templateLines, insertions, sortedInsertions, n, done, b);
      var entries := insertions[sectionEnd];
      SpliceStep(templateLines, done, b, sectionEnd, entries, mergedLines);
      mergedLines := SpliceGroup(mergedLines, sectionEnd, entries);
      done := done[sectionEnd := entries];
      b := LastNonBlank(templateLines, sectionEnd);
    }
    SpliceProgressEnd(templateLines, insertions, sortedInsertions, done, b, mergedLines);
  }
}
