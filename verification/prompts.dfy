/** The prompts sent to the model (`getPromptForSingleCommit` and
    `getPromptForListCommits`): fixed instructions, the language, an optional
    commit type, and the diff framed between two markers. */
module Prompts {
  import opened Options
  import opened Strings
  import Decimal

  const Intro: string := "From the following git diff create a short, useful git commit message in "
  const TypeLead: string := " with commit type '"
  const SingleInstructions: string :=
    "Do not preface the commit with anything, use the present tense, return the full sentence, "
    + "and use the conventional commits specification (<type in lowercase>: <subject>): "
  const ListInstructions: string :=
    "For each option, use the present tense, return the full sentence, "
    + "and use the conventional commits specification (<type in lowercase>: <subject>): "
  const OptionsPhrase: string := " options that are separated by ';'"
  const DiffStart: string := "START OF GIT DIFF:\n"
  const DiffEnd: string := "\nEND OF GIT DIFF"

  /** The opening shared by both prompts. */
  function Opening(language: string): string {
    Intro + language + " language"
  }

  /** The commit-type clause of the single prompt, ending its first
      sentence. */
  function SingleTypeClause(commitType: string): string {
    if commitType != "" then TypeLead + commitType + "'. " else ". "
  }

  /** The commit-type clause of the list prompt, which carries on into the
      request for options. */
  function ListTypeClause(commitType: string): string {
    if commitType != "" then TypeLead + commitType + "', " else ", "
  }

  /** The request for options that follows the type clause of the list
      prompt. */
  function OptionsRequest(numOptions: int): string {
    "and make " + Decimal.IntToString(numOptions) + OptionsPhrase + ". "
  }

  /** The diff between its two markers. */
  function Frame(diff: string): string {
    DiffStart + diff + DiffEnd
  }

  /** `getPromptForSingleCommit`: the opening, the type clause, then the
      instructions and the framed diff. */
  function SinglePrompt(diff: string, commitType: string, language: string): (p: string)
    ensures StartsWith(p, Opening(language))
    ensures EndsWith(p, Frame(diff))
  {
    Parts(Opening(language), SingleTypeClause(commitType), SingleInstructions, diff);
    Opening(language) + SingleTypeClause(commitType) + (SingleInstructions + Frame(diff))
  }

  /** `getPromptForListCommits`: the opening, the type clause, the request
      for options, then the instructions and the framed diff. */
  function ListPrompt(diff: string, commitType: string, language: string, numOptions: int): (p: string)
    ensures StartsWith(p, Opening(language))
    ensures EndsWith(p, Frame(diff))
  {
    Parts(Opening(language), ListTypeClause(commitType), OptionsRequest(numOptions) + ListInstructions, diff);
    Opening(language) + ListTypeClause(commitType) + (OptionsRequest(numOptions) + ListInstructions + Frame(diff))
  }

  /** Everything before the diff in the single prompt. */
  function SingleHeader(commitType: string, language: string): string {
    Opening(language) + SingleTypeClause(commitType) + SingleInstructions + DiffStart
  }

  /** Everything before the diff in the list prompt. */
  function ListHeader(commitType: string, language: string, numOptions: int): string {
    Opening(language) + ListTypeClause(commitType) + (OptionsRequest(numOptions) + ListInstructions) + DiffStart
  }

  /** How a prompt made of an opening, a clause, instructions and a framed
      diff decomposes. */
  lemma Parts(opening: string, clause: string, instructions: string, diff: string)
    ensures var p := opening + clause + (instructions + Frame(diff));
      && StartsWith(p, opening) && EndsWith(p, Frame(diff))
      && p[|opening|..] == clause + (instructions + Frame(diff))
      && p == opening + clause + instructions + DiffStart + diff + DiffEnd
  {
    var p := opening + clause + (instructions + Frame(diff));
    assert p == opening + (clause + (instructions + Frame(diff)));
    ConcatEnds(opening, clause + (instructions + Frame(diff)));
    assert p == (opening + clause + instructions) + Frame(diff);
    ConcatEnds(opening + clause + instructions, Frame(diff));
  }

  /** The diff inside a prompt with the given header, if the prompt has that
      header and ends with the closing marker. */
  function Unwrap(p: string, header: string): Option<string> {
    if |p| >= |header| + |DiffEnd| && StartsWith(p, header) && EndsWith(p, DiffEnd)
    then Some(p[|header|..|p| - |DiffEnd|])
    else None
  }

  /** The diff is recovered from a prompt built around it. */
  lemma UnwrapWrap(header: string, diff: string)
    ensures Unwrap(header + diff + DiffEnd, header) == Some(diff)
  {
    var p := header + diff + DiffEnd;
    assert p[..|header|] == header;
    assert p[|p| - |DiffEnd|..] == DiffEnd;
    assert p[|header|..|p| - |DiffEnd|] == diff;
  }

  /** A prompt from which a diff is recovered is the prompt built around
      that diff. */
  lemma WrapUnwrap(p: string, header: string)
    requires Unwrap(p, header).Some?
    ensures header + Unwrap(p, header).value + DiffEnd == p
  {
    var d := Unwrap(p, header).value;
    assert p == p[..|header|] + p[|header|..|p| - |DiffEnd|] + p[|p| - |DiffEnd|..];
  }

  /** For a fixed type and language the single prompt holds its diff: it is
      recovered, and only a prompt built from a diff gives one back. */
  lemma SingleDiffRecoverable(diff: string, p: string, commitType: string, language: string)
    ensures Unwrap(SinglePrompt(diff, commitType, language), SingleHeader(commitType, language)) == Some(diff)
    ensures Unwrap(p, SingleHeader(commitType, language)) == Some(diff)
      ==> p == SinglePrompt(diff, commitType, language)
  {
    Parts(Opening(language), SingleTypeClause(commitType), SingleInstructions, diff);
    UnwrapWrap(SingleHeader(commitType, language), diff);
    if Unwrap(p, SingleHeader(commitType, language)) == Some(diff) {
      WrapUnwrap(p, SingleHeader(commitType, language));
    }
  }

  /** The same for the list prompt, for a fixed number of options. */
  lemma ListDiffRecoverable(diff: string, p: string, commitType: string, language: string, numOptions: int)
    ensures Unwrap(ListPrompt(diff, commitType, language, numOptions),
                   ListHeader(commitType, language, numOptions)) == Some(diff)
    ensures Unwrap(p, ListHeader(commitType, language, numOptions)) == Some(diff)
      ==> p == ListPrompt(diff, commitType, language, numOptions)
  {
    Parts(Opening(language), ListTypeClause(commitType), OptionsRequest(numOptions) + ListInstructions, diff);
    UnwrapWrap(ListHeader(commitType, language, numOptions), diff);
    if Unwrap(p, ListHeader(commitType, language, numOptions)) == Some(diff) {
      WrapUnwrap(p, ListHeader(commitType, language, numOptions));
    }
  }

  /** Two diffs give the same single prompt only if they are the same. */
  lemma SinglePromptInjective(d1: string, d2: string, commitType: string, language: string)
    requires SinglePrompt(d1, commitType, language) == SinglePrompt(d2, commitType, language)
    ensures d1 == d2
  {
    SingleDiffRecoverable(d1, SinglePrompt(d2, commitType, language), commitType, language);
    SingleDiffRecoverable(d2, SinglePrompt(d2, commitType, language), commitType, language);
  }

  /** Right after the opening, the single prompt names the commit type
      (quoted) exactly when one is given. */
  lemma SingleTypeClauseIff(diff: string, commitType: string, language: string)
    ensures var rest := SinglePrompt(diff, commitType, language)[|Opening(language)|..];
      (commitType != "" <==> StartsWith(rest, TypeLead))
      && (commitType != "" ==> StartsWith(rest, TypeLead + commitType + "'. "))
  {
    Parts(Opening(language), SingleTypeClause(commitType), SingleInstructions, diff);
    ClauseIff(commitType, "'. ", ". ", SingleInstructions + Frame(diff));
  }

  /** Right after the opening, the list prompt names the commit type
      (quoted) exactly when one is given. */
  lemma ListTypeClauseIff(diff: string, commitType: string, language: string, numOptions: int)
    ensures var rest := ListPrompt(diff, commitType, language, numOptions)[|Opening(language)|..];
      (commitType != "" <==> StartsWith(rest, TypeLead))
      && (commitType != "" ==> StartsWith(rest, TypeLead + commitType + "', "))
  {
    Parts(Opening(language), ListTypeClause(commitType), OptionsRequest(numOptions) + ListInstructions, diff);
    ClauseIff(commitType, "', ", ", ", OptionsRequest(numOptions) + ListInstructions + Frame(diff));
  }

  /** A clause that is the quoted type when one is given, and otherwise a
      text not starting with a space, starts with the lead exactly when a
      type is given. */
  lemma ClauseIff(commitType: string, close: string, bare: string, tail: string)
    requires |bare| > 0 && bare[0] != ' '
    ensures var c := if commitType != "" then TypeLead + commitType + close else bare;
      (commitType != "" <==> StartsWith(c + tail, TypeLead))
      && (commitType != "" ==> StartsWith(c + tail, TypeLead + commitType + close))
  {
    var c := if commitType != "" then TypeLead + commitType + close else bare;
    if commitType == "" {
      FirstCharDiffers(c + tail, TypeLead);
    } else {
      assert c == TypeLead + (commitType + close);
      ConcatEnds(c, tail);
      StartsWithPrefix(c + tail, TypeLead, commitType + close);
    }
  }

  /** The list prompt asks for the number of options, written in decimal,
      and the number is read back from it. */
  lemma ListPromptNamesCount(diff: string, commitType: string, language: string, numOptions: int)
    ensures var k := |Opening(language) + ListTypeClause(commitType)| + |"and make "|;
      var p := ListPrompt(diff, commitType, language, numOptions);
      var count := Decimal.IntToString(numOptions);
      OccursAt(p, count + OptionsPhrase, k) && OccursAt(p, count, k)
      && Decimal.ParseInt(count) == numOptions
  {
    CountAt(Opening(language) + ListTypeClause(commitType), numOptions, ListInstructions, Frame(diff));
    Decimal.IntToStringRoundTrip(numOptions);
  }

  lemma CountAt(lead: string, n: int, instructions: string, frame: string)
    ensures var p := lead + (OptionsRequest(n) + instructions + frame);
      var k := |lead| + |"and make "|;
      var count := Decimal.IntToString(n);
      OccursAt(p, count + OptionsPhrase, k) && OccursAt(p, count, k)
  {
    PieceAt(lead, "and make ", Decimal.IntToString(n), OptionsPhrase, ". ", instructions + frame);
    assert lead + (OptionsRequest(n) + instructions + frame)
      == lead + ("and make " + Decimal.IntToString(n) + OptionsPhrase + ". " + (instructions + frame));
  }

  /** Where the pieces of a concatenation sit. */
  lemma PieceAt(lead: string, a: string, c: string, d: string, e: string, tail: string)
    ensures var p := lead + (a + c + d + e + tail);
      OccursAt(p, c + d, |lead| + |a|) && OccursAt(p, c, |lead| + |a|)
  {
    var p := lead + (a + c + d + e + tail);
    var k := |lead| + |a|;
    assert p == (lead + a) + (c + d) + (e + tail);
    assert p[k..k + |c + d|] == c + d;
    assert p[k..k + |c|] == c;
  }

}
