/** The two questions the tool puts before it spends anything: the size and
    fee gate of `filterAPI`, and the y/n confirmation before a commit. */
module Gate {
  import opened Strings
  import opened Words

  /** An answer to a y/n question is a yes when, with surrounding whitespace
      removed and lower-cased, it is exactly `y`. */
  predicate IsYes(answer: string) {
    ToLower(TrimSpace(answer)) == "y"
  }

  /** Only a lone `y` or `Y`, surrounded by any whitespace, is a yes. */
  lemma IsYesIff(answer: string)
    ensures IsYes(answer) <==> TrimSpace(answer) == "y" || TrimSpace(answer) == "Y"
  {
    var t := TrimSpace(answer);
    if IsYes(answer) {
      assert |t| == 1;
      assert LowerChar(t[0]) == 'y';
      assert t == [t[0]];
    }
    if t == "Y" {
      assert ToLower(t) == [LowerChar('Y')];
    }
  }

  lemma ExampleUpperYes(answer: string)
    requires answer == " Y\n"
    ensures IsYes(answer)
  {
    TrimSpaceOf(" ", "Y", "\n");
    assert " " + "Y" + "\n" == answer;
    IsYesIff(answer);
  }

  lemma ExampleWordYes(answer: string)
    requires answer == "yes"
    ensures !IsYes(answer)
  {
    TrimSpaceOf("", "yes", "");
    assert "" + "yes" + "" == answer;
  }

  /** The decision of `filterAPI`. The prompt's size is its number of
      whitespace-separated words; a prompt over the limit is refused before
      anything is asked. With the fee question switched on, `feeAnswer` is
      the user's reply to it. */
  function FilterApi(prompt: string, maxTokens: int, filterFee: bool, feeAnswer: string): (proceed: bool)
    ensures proceed <==> TokenCount(prompt) <= maxTokens && (!filterFee || IsYes(feeAnswer))
  {
    if TokenCount(prompt) > maxTokens then false
    else if filterFee then IsYes(feeAnswer)
    else true
  }

  /** The fee answer matters only when the fee question is asked and the
      prompt fits. */
  lemma AnswerOnlyWhenAsked(prompt: string, maxTokens: int, filterFee: bool, a1: string, a2: string)
    requires !filterFee || TokenCount(prompt) > maxTokens
    ensures FilterApi(prompt, maxTokens, filterFee, a1) == FilterApi(prompt, maxTokens, filterFee, a2)
  {
  }

  /** A prompt of `n` words separated by single spaces passes the size check
      exactly when `n` is within the limit. */
  lemma SizeOfWords(words: seq<string>, maxTokens: int)
    requires forall w | w in words :: IsField(w)
    ensures FilterApi(Join(words, " "), maxTokens, false, "") <==> |words| <= maxTokens
  {
    FieldsOfJoin(words);
  }
}
