/**
 * The kinds of .gitignore line the merger distinguishes (blank, comment, entry) and
 * `processGitignoreEntries`, which keeps the entry lines of a text.
 */
module Entries {
  import opened Strings

  /** A line that trims to nothing. */
  predicate IsBlank(line: string) {
    Trim(line) == []
  }

  /** A line whose trimmed text starts with `#` (any comment, `##` included). */
  predicate IsComment(line: string) {
    StartsWith(Trim(line), "#")
  }

  /** An entry: the trimmed line is non-empty and does not start with `#`. */
  predicate IsEntryLine(line: string) {
    Trim(line) != [] && !StartsWith(Trim(line), "#")
  }

  /** `a` can be obtained from `b` by deleting elements: `a` appears in `b` in order. */
  ghost predicate IsSubsequence<T>(a: seq<T>, b: seq<T>)
    decreases |b|
  {
    a == [] || (b != [] && ((a[0] == b[0] && IsSubsequence(a[1..], b[1..])) || IsSubsequence(a, b[1..])))
  }

  lemma {:induction false} SubsequenceMember<T>(a: seq<T>, b: seq<T>, x: T)
    requires IsSubsequence(a, b) && x in a
    ensures x in b
    decreases |b|
  {
    if a[0] == b[0] && IsSubsequence(a[1..], b[1..]) {
      if x != a[0] {
        SubsequenceMember(a[1..], b[1..], x);
      }
    } else {
      SubsequenceMember(a, b[1..], x);
    }
  }

  lemma {:induction false} SubsequenceRefl<T>(a: seq<T>)
    ensures IsSubsequence(a, a)
    decreases |a|
  {
    if a != [] {
      SubsequenceRefl(a[1..]);
    }
  }

  lemma {:induction false} SubsequenceDropFront<T>(a: seq<T>, b: seq<T>, c: seq<T>)
    requires IsSubsequence(a, b)
    ensures IsSubsequence(a, c + b)
    decreases |c|
  {
    if c != [] {
      SubsequenceDropFront(a, b, c[1..]);
      assert (c + b)[1..] == c[1..] + b;
    } else {
      assert c + b == b;
    }
  }

  lemma {:induction false} SubsequenceConcat<T>(a1: seq<T>, b1: seq<T>, a2: seq<T>, b2: seq<T>)
    requires IsSubsequence(a1, b1) && IsSubsequence(a2, b2)
    ensures IsSubsequence(a1 + a2, b1 + b2)
    decreases |b1|
  {
    if a1 == [] {
      assert a1 + a2 == a2;
      SubsequenceDropFront(a2, b2, b1);
    } else {
      assert (b1 + b2)[1..] == b1[1..] + b2;
      if a1[0] == b1[0] && IsSubsequence(a1[1..], b1[1..]) {
        SubsequenceConcat(a1[1..], b1[1..], a2, b2);
        assert (a1 + a2)[1..] == a1[1..] + a2;
      } else {
        SubsequenceConcat(a1, b1[1..], a2, b2);
      }
    }
  }

  /** The entry lines of `lines`, unmodified and in order. */
  function EntryLines(lines: seq<string>): (r: seq<string>)
    ensures forall x | x in r :: IsEntryLine(x)
    ensures forall x | IsEntryLine(x) :: multiset(r)[x] == multiset(lines)[x]
  {
    if lines == [] then []
    else
      assert lines == [lines[0]] + lines[1..];
      (if IsEntryLine(lines[0]) then [lines[0]] else []) + EntryLines(lines[1..])
  }

  /** Nothing is reordered: the entry lines appear in `lines` in the same order. */
  lemma {:induction false} EntryLinesInOrder(lines: seq<string>)
    ensures IsSubsequence(EntryLines(lines), lines)
  {
    if lines != [] {
      EntryLinesInOrder(lines[1..]);
      var r := EntryLines(lines[1..]);
      if IsEntryLine(lines[0]) {
        assert ([lines[0]] + r)[1..] == r;
      } else {
        assert [] + r == r;
      }
    }
  }

  /** `processGitignoreEntries`: split on line breaks, keep the entry lines. */
  function ProcessGitignoreEntries(content: string): (r: seq<string>)
    ensures forall x | x in r :: IsEntryLine(x) && x in Split(content)
  {
    var lines := Split(content);
    var r := EntryLines(lines);
    assert forall x | x in r :: x in lines by {
      forall x | x in r ensures x in lines {
        assert multiset(r)[x] > 0;
      }
    }
    r
  }

  /** Exactly the entry lines survive, unmodified, in order and with their multiplicity. */
  lemma {:induction false} ProcessGitignoreEntriesExact(content: string)
    ensures IsSubsequence(ProcessGitignoreEntries(content), Split(content))
    ensures forall x | IsEntryLine(x) ::
      multiset(ProcessGitignoreEntries(content))[x] == multiset(Split(content))[x]
  {
    EntryLinesInOrder(Split(content));
  }
}
