/** The gitmoji prefixer (`addGitmojiToCommitMessage`): the first
    letters-only word of a commit message, if it is a known
    conventional-commit type, selects an emoji that is put in front of the
    message. */
module Gitmoji {
  import opened Options
  import opened Strings

  /** `typeToGitmoji`: commit type to emoji. The recycling sign of
      `refactor` is two characters (U+267B and the emoji variation
      selector U+FE0F); the other emoji are one character each. */
  const Table: map<string, string> := map[
    "feat"     := "\U{2728}",            // sparkles
    "fix"      := "\U{1F691}",           // ambulance
    "docs"     := "\U{1F4DD}",           // memo
    "style"    := "\U{1F484}",           // lipstick
    "refactor" := "\U{267B}\U{FE0F}",    // recycling symbol
    "test"     := "\U{2705}",            // check mark
    "chore"    := "\U{1F527}"            // wrench
  ]

  /** The widest emoji in the table, in characters. */
  const MaxEmojiWidth: nat := 2

  /** A word character of Go's RE2 `\b`: ASCII letters, digits and `_`. */
  predicate IsWordChar(c: char) {
    'a' <= c <= 'z' || 'A' <= c <= 'Z' || '0' <= c <= '9' || c == '_'
  }

  /** A character of the class `[a-zA-Z]`. */
  predicate IsLetter(c: char) {
    'a' <= c <= 'z' || 'A' <= c <= 'Z'
  }

  /** `\b` holds at position `k` of `s`: exactly one of the characters on
      either side of it is a word character. */
  predicate Boundary(s: string, k: nat)
    requires k <= |s|
  {
    (0 < k && IsWordChar(s[k - 1])) != (k < |s| && IsWordChar(s[k]))
  }

  /** `s[i..j]` is made of letters only. */
  predicate AllLetters(s: string, i: nat, j: nat)
    requires i <= j <= |s|
  {
    forall k | i <= k < j :: IsLetter(s[k])
  }

  /** `\b[a-zA-Z]+\b` matches `s[i..j]`. */
  predicate IsMatch(s: string, i: nat, j: nat) {
    && i < j <= |s|
    && Boundary(s, i)
    && Boundary(s, j)
    && AllLetters(s, i, j)
  }

  /** No match of the pattern starts before index `i`. */
  ghost predicate NoMatchBefore(s: string, i: nat) {
    forall a: nat, b: nat | a < i :: !IsMatch(s, a, b)
  }

  predicate NoWordChars(s: string) {
    forall k | 0 <= k < |s| :: !IsWordChar(s[k])
  }

  /** The end of the run of word characters that starts at `i`. */
  function RunEnd(s: string, i: nat): (j: nat)
    requires i <= |s|
    ensures i <= j <= |s|
    ensures forall k | i <= k < j :: IsWordChar(s[k])
    ensures j == |s| || !IsWordChar(s[j])
    decreases |s| - i
  {
    if i == |s| || !IsWordChar(s[i]) then i else RunEnd(s, i + 1)
  }

  /** Where a match ends is fixed by where it starts: a match cannot stop
      between two letters, nor run past a non-letter. */
  lemma MatchEndUnique(s: string, a: nat, b: nat, c: nat)
    requires IsMatch(s, a, b) && IsMatch(s, a, c)
    ensures b == c
  {
  }

  /** Scans `s` from `i`, which never lies inside a run of word characters,
      run by run, and returns the bounds of the first run made only of
      letters: the leftmost match of `\b[a-zA-Z]+\b`. */
  function FindFrom(s: string, i: nat): (m: Option<(nat, nat)>)
    requires i <= |s|
    requires i == 0 || !IsWordChar(s[i - 1])
    ensures m.Some? ==> i <= m.value.0 && IsMatch(s, m.value.0, m.value.1)
    ensures forall a: nat, b: nat | i <= a && (m.None? || a < m.value.0) :: !IsMatch(s, a, b)
    decreases |s| - i
  {
    if i == |s| then None
    else if !IsWordChar(s[i]) then
      assert forall b: nat :: !IsMatch(s, i, b);
      FindFrom(s, i + 1)
    else
      var j := RunEnd(s, i);
      if AllLetters(s, i, j) then Some((i, j))
      else
        NoMatchInRun(s, i, j);
        if j == |s| then None else FindFrom(s, j + 1)
  }

  /** A run of word characters that holds a non-letter contains no match,
      and neither does the non-word character after it. */
  lemma NoMatchInRun(s: string, i: nat, j: nat)
    requires i < j <= |s|
    requires i == 0 || !IsWordChar(s[i - 1])
    requires forall k | i <= k < j :: IsWordChar(s[k])
    requires j == |s| || !IsWordChar(s[j])
    requires !AllLetters(s, i, j)
    ensures forall a: nat, b: nat | i <= a <= j :: !IsMatch(s, a, b)
  {
  }

  /** The text `FindString` returns for the pattern, or `None` when the
      pattern does not match. */
  function FirstWord(msg: string): Option<string> {
    match FindFrom(msg, 0)
    case None => None
    case Some((i, j)) => Some(msg[i..j])
  }

  /** `FirstWord` is the leftmost match of `\b[a-zA-Z]+\b`, and there is
      none exactly when the pattern matches nowhere. */
  lemma FirstWordSpec(msg: string)
    ensures FirstWord(msg).None? <==> forall a: nat, b: nat :: !IsMatch(msg, a, b)
    ensures FirstWord(msg).Some? ==>
      exists i: nat, j: nat :: IsMatch(msg, i, j) && NoMatchBefore(msg, i) && msg[i..j] == FirstWord(msg).value
  {
    var m := FindFrom(msg, 0);
    if m.Some? {
      var (i, j) := m.value;
      assert IsMatch(msg, i, j) && NoMatchBefore(msg, i) && msg[i..j] == FirstWord(msg).value;
    }
  }

  /** The prefixer over a given type-to-emoji table: the message,
      preceded by an emoji and a space when its first letters-only word is
      a key of the table. */
  function AddGitmojiFrom(table: map<string, string>, msg: string): string {
    match FirstWord(msg)
    case None => msg
    case Some(w) => if w in table then table[w] + " " + msg else msg
  }

  /** What the lemmas below need of a table: every emoji is made of
      non-word characters and is at most `MaxEmojiWidth` long. */
  ghost predicate EmojiTable(table: map<string, string>) {
    forall w | w in table :: NoWordChars(table[w]) && |table[w]| <= MaxEmojiWidth
  }

  /** The commit types that get an emoji are exactly the seven
      conventional-commit types of `typeToGitmoji`. */
  lemma TableKeys()
    ensures Table.Keys == {"feat", "fix", "docs", "style", "refactor", "test", "chore"}
    ensures Table["feat"] == "\U{2728}" && Table["refactor"] == "\U{267B}\U{FE0F}"
  {
  }

  /** `typeToGitmoji` is such a table. */
  lemma TableIsEmojiTable()
    ensures EmojiTable(Table)
  {
  }

  /** `addGitmojiToCommitMessage`. The result always ends with the original
      message and is at most the widest emoji plus one space longer. */
  function AddGitmoji(msg: string): (r: string)
    ensures |msg| <= |r| <= |msg| + MaxEmojiWidth + 1
    ensures EndsWith(r, msg)
  {
    TableIsEmojiTable();
    AddGitmojiFrom(Table, msg)
  }

  /** The first letters-only word decides the result: the leftmost match
      `msg[i..j]` selects its emoji if it is a key, and otherwise the
      message is returned unchanged. */
  lemma AddGitmojiLeftmost(table: map<string, string>, msg: string, i: nat, j: nat)
    requires IsMatch(msg, i, j) && NoMatchBefore(msg, i)
    ensures msg[i..j] in table ==> AddGitmojiFrom(table, msg) == table[msg[i..j]] + " " + msg
    ensures msg[i..j] !in table ==> AddGitmojiFrom(table, msg) == msg
  {
    var m := FindFrom(msg, 0);
    assert m.Some?;
    var (a, b) := m.value;
    assert a == i;
    MatchEndUnique(msg, i, j, b);
  }

  /** A message in which the pattern does not match is returned unchanged. */
  lemma AddGitmojiNoMatch(table: map<string, string>, msg: string)
    requires forall a: nat, b: nat :: !IsMatch(msg, a, b)
    ensures AddGitmojiFrom(table, msg) == msg
  {
  }

  /** Prefixing non-word characters moves a match right by their number. */
  lemma MatchShift(p: string, s: string, a: nat, b: nat)
    requires p != [] && NoWordChars(p)
    ensures IsMatch(s, a, b) <==> IsMatch(p + s, a + |p|, b + |p|)
  {
    var t := p + s;
    if a < b <= |s| {
      assert Boundary(s, a) <==> Boundary(t, a + |p|) by {
        if a > 0 { assert t[a + |p| - 1] == s[a - 1]; }
        else { assert t[|p| - 1] == p[|p| - 1]; }
        assert t[a + |p|] == s[a];
      }
      assert Boundary(s, b) <==> Boundary(t, b + |p|) by {
        assert t[b + |p| - 1] == s[b - 1];
        if b < |s| { assert t[b + |p|] == s[b]; }
      }
      assert forall k | a <= k < b :: t[k + |p|] == s[k];
      assert (forall k | a <= k < b :: IsLetter(s[k])) ==> (forall k | a + |p| <= k < b + |p| :: IsLetter(t[k])) by {
        forall k | a + |p| <= k < b + |p|
          ensures t[k] == s[k - |p|]
        {
        }
      }
    }
  }

  /** Prefixing non-word characters keeps the leftmost match the leftmost
      one, moved right by their number. */
  lemma ShiftLeftmost(p: string, s: string, i: nat, j: nat)
    requires p != [] && NoWordChars(p)
    requires IsMatch(s, i, j) && NoMatchBefore(s, i)
    ensures IsMatch(p + s, i + |p|, j + |p|) && NoMatchBefore(p + s, i + |p|)
  {
    var t := p + s;
    MatchShift(p, s, i, j);
    forall a: nat, b: nat | a < i + |p| && IsMatch(t, a, b)
      ensures false
    {
      if a >= |p| {
        MatchShift(p, s, a - |p|, b - |p|);
      }
    }
  }

  lemma NoWordCharsConcat(a: string, b: string)
    requires NoWordChars(a) && NoWordChars(b)
    ensures NoWordChars(a + b)
  {
    assert forall k | |a| <= k < |a + b| :: (a + b)[k] == b[k - |a|];
  }

  /** Text made of non-word characters in front of a message does not
      change which word the prefixer looks at. */
  lemma AddGitmojiAfterPrefix(table: map<string, string>, p: string, msg: string, i: nat, j: nat)
    requires p != [] && NoWordChars(p)
    requires IsMatch(msg, i, j) && NoMatchBefore(msg, i)
    requires msg[i..j] in table
    ensures AddGitmojiFrom(table, p + msg) == table[msg[i..j]] + " " + (p + msg)
  {
    ShiftLeftmost(p, msg, i, j);
    assert (p + msg)[i + |p|..j + |p|] == msg[i..j];
    AddGitmojiLeftmost(table, p + msg, i + |p|, j + |p|);
  }

  /** A message whose first letters-only word is a key gets its emoji on
      every pass, so prefixing twice adds the emoji twice. */
  lemma AddGitmojiTwice(msg: string, i: nat, j: nat)
    requires IsMatch(msg, i, j) && NoMatchBefore(msg, i)
    requires msg[i..j] in Table
    ensures AddGitmoji(msg) == Table[msg[i..j]] + " " + msg
    ensures AddGitmoji(AddGitmoji(msg)) == Table[msg[i..j]] + " " + AddGitmoji(msg)
  {
    var p := Table[msg[i..j]] + " ";
    AddGitmojiLeftmost(Table, msg, i, j);
    TableIsEmojiTable();
    NoWordCharsConcat(Table[msg[i..j]], " ");
    AddGitmojiAfterPrefix(Table, p, msg, i, j);
  }

  /** The prefixer is not idempotent: a second pass over `"feat: x"` adds a
      second emoji. */
  lemma ExampleNotIdempotent(s: string)
    requires s == "feat: x"
    ensures AddGitmoji(s) == "\U{2728} " + s
    ensures AddGitmoji(AddGitmoji(s)) == "\U{2728} " + AddGitmoji(s)
  {
    FeatPrefixed(s);
    AddGitmojiTwice(s, 0, 4);
  }

  lemma FeatPrefixed(s: string)
    requires |s| >= 5 && s[..5] == "feat:"
    ensures AddGitmoji(s) == "\U{2728} " + s
    ensures IsMatch(s, 0, 4) && NoMatchBefore(s, 0) && s[0..4] in Table
  {
    assert s[0..4] == s[..5][0..4] == "feat";
    assert s[4] == s[..5][4];
    assert IsMatch(s, 0, 4);
    AddGitmojiLeftmost(Table, s, 0, 4);
  }

  /** `"feat: add login"` becomes `"✨ feat: add login"`. */
  lemma ExampleFeat(s: string)
    requires s == "feat: add login"
    ensures AddGitmoji(s) == "\U{2728} " + s
  {
    assert s[..5] == "feat:";
    FeatPrefixed(s);
  }

  /** Matching is case-sensitive: `"Feat: x"` is left unchanged. */
  lemma ExampleCapitalised(s: string)
    requires s == "Feat: x"
    ensures AddGitmoji(s) == s
  {
    assert IsMatch(s, 0, 4);
    assert s[0..4] == "Feat";
    AddGitmojiLeftmost(Table, s, 0, 4);
  }

  /** A first word that is no commit type leaves the message unchanged. */
  lemma ExampleUnknown(s: string)
    requires s == "unknown: x"
    ensures AddGitmoji(s) == s
  {
    assert IsMatch(s, 0, 7);
    assert s[0..7] == "unknown";
    AddGitmojiLeftmost(Table, s, 0, 7);
  }

  /** `"fix2"` is a run of word characters with a digit in it, so it is no
      match; the first letters-only word is `docs`, which gets the memo. */
  lemma ExampleSkipsMixedWord(s: string)
    requires s == "fix2 docs"
    ensures AddGitmoji(s) == "\U{1F4DD} fix2 docs"
  {
    assert RunEnd(s, 4) == 4;
    assert RunEnd(s, 2) == 4;
    assert RunEnd(s, 0) == 4;
    assert !AllLetters(s, 0, 4) by { assert !IsLetter(s[3]); }
    assert RunEnd(s, 9) == 9;
    assert RunEnd(s, 7) == 9;
    assert RunEnd(s, 5) == 9;
    assert AllLetters(s, 5, 9);
    assert FindFrom(s, 0) == FindFrom(s, 5) == Some((5, 9));
    assert s[5..9] == "docs";
  }
}
