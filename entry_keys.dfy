/**
 * The comparison key of a .gitignore entry (`normalizeEntryForComparison`): the entry is
 * trimmed, every character outside `[\w\s-]` is deleted, white space is deleted, and the
 * rest is lower-cased. Two entries are duplicates when their keys are equal.
 */
module EntryKeys {
  import opened Strings

  /** JavaScript's `\w` in a regular expression without the `u` flag. */
  predicate IsWordChar(c: char) {
    'a' <= c <= 'z' || 'A' <= c <= 'Z' || '0' <= c <= '9' || c == '_'
  }

  /** The alphabet of keys: lower-case ASCII letters, digits, `_` and `-`. */
  predicate IsKeyChar(c: char) {
    'a' <= c <= 'z' || '0' <= c <= '9' || c == '_' || c == '-'
  }

  /** `replace(/[^\w\s-]/g, '')`: keep word characters, white space and `-`. */
  function KeepWordSpaceDash(s: string): string {
    if s == [] then []
    else
      (if IsWordChar(s[0]) || IsSpace(s[0]) || s[0] == '-' then [s[0]] else [])
      + KeepWordSpaceDash(s[1..])
  }

  /** `replace(/\s+/g, '')`: delete every run of white space. */
  function DropSpaces(s: string): string {
    if s == [] then []
    else (if IsSpace(s[0]) then [] else [s[0]]) + DropSpaces(s[1..])
  }

  /** `normalizeEntryForComparison`. */
  function Normalize(entry: string): string {
    Lower(DropSpaces(KeepWordSpaceDash(Trim(entry))))
  }

  /** A key holds only lower-case ASCII letters, digits, `_` and `-`: no white space, no
      punctuation, no upper case. */
  lemma {:induction false} NormalizeAlphabet(entry: string)
    ensures forall c | c in Normalize(entry) :: IsKeyChar(c)
  {
    KeyIsKeyOf(entry);
  }

  /** Reference definition of the key, character by character: the letters, digits, `_` and
      `-` of the entry, in order, lower-cased. Nothing else survives. */
  function KeyOf(s: string): (key: string)
    ensures forall c | c in key :: IsKeyChar(c)
  {
    if s == [] then []
    else KeyOfChar(s[0]) + KeyOf(s[1..])
  }

  /** What one character contributes to a key. */
  function KeyOfChar(c: char): string {
    if IsWordChar(c) || c == '-' then [LowerChar(c)] else []
  }

  lemma {:induction false} KeyOfAppend(a: string, b: string)
    ensures KeyOf(a + b) == KeyOf(a) + KeyOf(b)
  {
    if a == [] {
      assert a + b == b;
    } else {
      var ab := a + b;
      assert ab[0] == a[0] && ab[1..] == a[1..] + b;
      calc {
        KeyOf(ab);
        KeyOfChar(a[0]) + KeyOf(a[1..] + b);
        { KeyOfAppend(a[1..], b); }
        KeyOfChar(a[0]) + KeyOf(a[1..]) + KeyOf(b);
      }
    }
  }

  lemma {:induction false} KeyOfSpaces(s: string)
    requires forall i | 0 <= i < |s| :: IsSpace(s[i])
    ensures KeyOf(s) == []
  {
    if s != [] {
      KeyOfSpaces(s[1..]);
    }
  }

  lemma {:induction false} KeepAppend(a: string, b: string)
    ensures KeepWordSpaceDash(a + b) == KeepWordSpaceDash(a) + KeepWordSpaceDash(b)
  {
    if a == [] {
      assert a + b == b;
    } else {
      var ab := a + b;
      assert ab[0] == a[0] && ab[1..] == a[1..] + b;
      calc {
        KeepWordSpaceDash(ab);
        (if IsWordChar(a[0]) || IsSpace(a[0]) || a[0] == '-' then [a[0]] else []) + KeepWordSpaceDash(a[1..] + b);
        { KeepAppend(a[1..], b); }
        (if IsWordChar(a[0]) || IsSpace(a[0]) || a[0] == '-' then [a[0]] else []) + KeepWordSpaceDash(a[1..]) + KeepWordSpaceDash(b);
      }
    }
  }

  lemma {:induction false} DropAppend(a: string, b: string)
    ensures DropSpaces(a + b) == DropSpaces(a) + DropSpaces(b)
  {
    if a == [] {
      assert a + b == b;
    } else {
      var ab := a + b;
      assert ab[0] == a[0] && ab[1..] == a[1..] + b;
      calc {
        DropSpaces(ab);
        (if IsSpace(a[0]) then [] else [a[0]]) + DropSpaces(a[1..] + b);
        { DropAppend(a[1..], b); }
        (if IsSpace(a[0]) then [] else [a[0]]) + DropSpaces(a[1..]) + DropSpaces(b);
      }
    }
  }

  /** The three regular-expression passes compose to the character-wise key. */
  lemma {:induction false} PassesAreKeyOf(s: string)
    ensures Lower(DropSpaces(KeepWordSpaceDash(s))) == KeyOf(s)
  {
    if s != [] {
      var c, rest := s[0], s[1..];
      assert s == [c] + rest;
      PassesAreKeyOf(rest);
      KeepAppend([c], rest);
      DropAppend(KeepWordSpaceDash([c]), KeepWordSpaceDash(rest));
      LowerAppend(DropSpaces(KeepWordSpaceDash([c])), DropSpaces(KeepWordSpaceDash(rest)));
      assert Lower(DropSpaces(KeepWordSpaceDash([c]))) == KeyOfChar(c);
    }
  }

  /** Trimming does not change the reference key: white space contributes nothing. */
  lemma {:induction false} KeyOfTrim(entry: string)
    ensures KeyOf(Trim(entry)) == KeyOf(entry)
  {
    TrimSpec(entry);
    var r := Trim(entry);
    var a := |entry| - |TrimStart(entry)|;
    var front, back := entry[..a], entry[a + |r|..];
    assert entry == front + r + back;
    KeyOfSpaces(front);
    KeyOfSpaces(back);
    KeyOfAppend(front + r, back);
    KeyOfAppend(front, r);
  }

  /** The key of an entry is exactly the reference key. */
  lemma {:induction false} KeyIsKeyOf(entry: string)
    ensures Normalize(entry) == KeyOf(entry)
  {
    PassesAreKeyOf(Trim(entry));
    KeyOfTrim(entry);
  }

  /** A string already made of key characters is its own key. */
  lemma {:induction false} KeyOfKey(k: string)
    requires forall c | c in k :: IsKeyChar(c)
    ensures KeyOf(k) == k
  {
    if k != [] {
      assert k[0] in k;
      KeyOfKey(k[1..]);
    }
  }

  /** Normalizing a key again returns it unchanged. */
  lemma {:induction false} NormalizeIdempotent(entry: string)
    ensures Normalize(Normalize(entry)) == Normalize(entry)
  {
    var k := Normalize(entry);
    NormalizeAlphabet(entry);
    KeyIsKeyOf(k);
    KeyOfKey(k);
  }

  /** A character outside `[\w-]` (punctuation, white space, anything non-ASCII) can be
      inserted anywhere without changing the key. */
  lemma {:induction false} NormalizeIgnoresPunctuation(a: string, b: string, c: char)
    requires !IsWordChar(c) && c != '-'
    ensures Normalize(a + [c] + b) == Normalize(a + b)
  {
    assert KeyOf([c]) == [] by {
      assert [c][1..] == [];
    }
    calc {
      Normalize(a + [c] + b);
      { KeyIsKeyOf(a + [c] + b); }
      KeyOf(a + [c] + b);
      { KeyOfAppend(a + [c], b); KeyOfAppend(a, [c]); }
      KeyOf(a) + KeyOf([c]) + KeyOf(b);
      KeyOf(a) + KeyOf(b);
      { KeyOfAppend(a, b); }
      KeyOf(a + b);
      { KeyIsKeyOf(a + b); }
      Normalize(a + b);
    }
  }

  /** Changing the case of a character does not change the key. */
  lemma {:induction false} NormalizeIgnoresCase(a: string, b: string, c: char)
    ensures Normalize(a + [c] + b) == Normalize(a + [LowerChar(c)] + b)
  {
    var l := LowerChar(c);
    assert KeyOf([c]) == KeyOf([l]) by {
      assert [c][1..] == [] && [l][1..] == [];
      assert KeyOfChar(c) == KeyOfChar(l);
    }
    calc {
      Normalize(a + [c] + b);
      { KeyIsKeyOf(a + [c] + b); }
      KeyOf(a + [c] + b);
      { KeyOfAppend(a + [c], b); KeyOfAppend(a, [c]); }
      KeyOf(a) + KeyOf([c]) + KeyOf(b);
      KeyOf(a) + KeyOf([l]) + KeyOf(b);
      { KeyOfAppend(a + [l], b); KeyOfAppend(a, [l]); }
      KeyOf(a + [l] + b);
      { KeyIsKeyOf(a + [l] + b); }
      Normalize(a + [l] + b);
    }
  }

  /** Two of the cases the source names: `node_modules/` is a duplicate of `node_modules`,
      and `pnpm-debug.log*` of `pnpm-debug.log` (a trailing `/` or `*` does not change the
      key). The third, `.env.local` against `env.local`, is NormalizeIgnoresPunctuation with
      an empty prefix. */
  lemma {:induction false} SameKeyExamples(e: string)
    ensures Normalize(e + "/") == Normalize(e)
    ensures Normalize(e + "*") == Normalize(e)
  {
    KeyIsKeyOf(e);
    KeyIsKeyOf(e + "/");
    KeyIsKeyOf(e + "*");
    KeyOfAppend(e, "/");
    KeyOfAppend(e, "*");
    assert KeyOf("/") == [] && KeyOf("*") == [];
  }

  lemma {:induction false} KeyOfLower(s: string)
    ensures KeyOf(Lower(s)) == KeyOf(s)
  {
    if s != [] {
      KeyOfLower(s[1..]);
      assert Lower(s)[0] == LowerChar(s[0]) && Lower(s)[1..] == Lower(s[1..]);
    }
  }

  /** Case does not matter: an entry and its lower-case spelling have the same key. */
  lemma {:induction false} NormalizeLower(e: string)
    ensures Normalize(Lower(e)) == Normalize(e)
  {
    KeyIsKeyOf(Lower(e));
    KeyIsKeyOf(e);
    KeyOfLower(e);
  }
}
