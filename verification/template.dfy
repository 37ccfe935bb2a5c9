/** Template substitution (`processTemplate`): the commit message is put in
    place of `{COMMIT_MESSAGE}`, and then the current branch name in place
    of `{GIT_BRANCH}`. */
module Template {
  import opened Options
  import opened Strings
  import opened Replace

  const MessagePlaceholder: string := "{COMMIT_MESSAGE}"
  const BranchPlaceholder: string := "{GIT_BRANCH}"

  /** The output of `git branch --show-current`, or the failure of that
      subprocess. The lookup is only made when it is needed. */
  datatype BranchLookup = BranchOutput(output: string) | LookupFailed

  /** The template after the first substitution step. */
  function WithMessage(template: string, message: string): string {
    ReplaceAll(template, MessagePlaceholder, message)
  }

  /** `processTemplate`. `None` stands for the fatal exit when the branch
      lookup fails; the lookup is consulted only if `{GIT_BRANCH}` is
      present after the message has been substituted. */
  function ProcessTemplate(template: string, message: string, branch: BranchLookup): (r: Option<string>)
    ensures r.None? <==> branch.LookupFailed? && Occurs(WithMessage(template, message), BranchPlaceholder)
  {
    var step := WithMessage(template, message);
    if !Occurs(step, BranchPlaceholder) then Some(step)
    else
      match branch
      case LookupFailed => None
      case BranchOutput(output) => Some(ReplaceAll(step, BranchPlaceholder, TrimSpace(output)))
  }

  /** The branch is consulted only when `{GIT_BRANCH}` is present after the
      message is substituted: otherwise any lookup, failed or not, gives
      the same result. */
  lemma BranchOnlyWhenNeeded(template: string, message: string, b1: BranchLookup, b2: BranchLookup)
    requires !Occurs(WithMessage(template, message), BranchPlaceholder)
    ensures ProcessTemplate(template, message, b1) == ProcessTemplate(template, message, b2)
    ensures ProcessTemplate(template, message, b1) == Some(WithMessage(template, message))
  {
  }

  /** A template with neither placeholder is returned unchanged, whatever
      the message and the branch lookup. */
  lemma NoPlaceholders(template: string, message: string, branch: BranchLookup)
    requires !Occurs(template, MessagePlaceholder) && !Occurs(template, BranchPlaceholder)
    ensures ProcessTemplate(template, message, branch) == Some(template)
  {
    ReplaceAllAbsent(template, MessagePlaceholder, message);
  }

  /** Every occurrence of each placeholder is replaced: the result is the
      pieces between the `{GIT_BRANCH}` occurrences of the message-filled
      template, joined with the trimmed branch name, and that template is
      the pieces between the `{COMMIT_MESSAGE}` occurrences, joined with
      the message. No piece holds its placeholder. */
  lemma SubstitutesEveryOccurrence(template: string, message: string, output: string)
    ensures var step := WithMessage(template, message);
      && step == Join(SplitOn(template, MessagePlaceholder), message)
      && Join(SplitOn(template, MessagePlaceholder), MessagePlaceholder) == template
      && (forall p | p in SplitOn(template, MessagePlaceholder) :: !Occurs(p, MessagePlaceholder))
      && ProcessTemplate(template, message, BranchOutput(output))
         == Some(Join(SplitOn(step, BranchPlaceholder), TrimSpace(output)))
      && Join(SplitOn(step, BranchPlaceholder), BranchPlaceholder) == step
      && (forall p | p in SplitOn(step, BranchPlaceholder) :: !Occurs(p, BranchPlaceholder))
  {
    var step := WithMessage(template, message);
    ReplaceAllIsJoin(template, MessagePlaceholder, message);
    SplitOnJoin(template, MessagePlaceholder);
    SplitOnPiecesFree(template, MessagePlaceholder);
    ReplaceAllIsJoin(step, BranchPlaceholder, TrimSpace(output));
    SplitOnJoin(step, BranchPlaceholder);
    SplitOnPiecesFree(step, BranchPlaceholder);
    if !Occurs(step, BranchPlaceholder) {
      ReplaceAllAbsent(step, BranchPlaceholder, TrimSpace(output));
    }
  }

  /** `"[{GIT_BRANCH}] {COMMIT_MESSAGE}"` with the message `"fix: bug"` on
      branch `main` gives `"[main] fix: bug"`. */
  lemma ExampleBranchAndMessage(template: string, message: string, output: string)
    requires template == "[{GIT_BRANCH}] {COMMIT_MESSAGE}"
    requires message == "fix: bug"
    requires output == "main\n"
    ensures ProcessTemplate(template, message, BranchOutput(output)) == Some("[main] fix: bug")
  {
    assert forall k | 0 <= k < |message| :: message[k] != '{';
    BranchTemplate(template, message, output);
    assert "[main] " + message == "[main] fix: bug";
  }

  /** On branch `main`, the template `"[{GIT_BRANCH}] {COMMIT_MESSAGE}"`
      puts the branch in brackets in front of any message without a `{`. */
  lemma BranchTemplate(template: string, message: string, output: string)
    requires template == "[{GIT_BRANCH}] {COMMIT_MESSAGE}"
    requires output == "main\n"
    requires forall k | 0 <= k < |message| :: message[k] != '{'
    ensures ProcessTemplate(template, message, BranchOutput(output)) == Some("[main] " + message)
  {
    var head := "[{GIT_BRANCH}] ";
    var rest := "] " + message;
    var step := "[" + BranchPlaceholder + rest;
    NoMessageInHead(head);
    assert template == head + MessagePlaceholder;
    ExampleMessageStep(head, template, message);
    StepHasBranch(head, message, rest, step);
    ExampleTrimmedBranch(output);
    BranchStep(rest, step);
    BranchFilledIn(template, message, output, step);
    assert "[" + "main" + rest == "[main] " + message;
  }

  /** Once the message is in, the branch step replaces every `{GIT_BRANCH}`
      with the trimmed branch name. */
  lemma BranchFilledIn(template: string, message: string, output: string, step: string)
    requires WithMessage(template, message) == step && Occurs(step, BranchPlaceholder)
    ensures ProcessTemplate(template, message, BranchOutput(output))
      == Some(ReplaceAll(step, BranchPlaceholder, TrimSpace(output)))
  {
  }

  lemma StepHasBranch(head: string, message: string, rest: string, step: string)
    requires head == "[{GIT_BRANCH}] " && rest == "] " + message
    requires step == "[" + BranchPlaceholder + rest
    ensures head + message == step && Occurs(step, BranchPlaceholder)
  {
    assert head == "[" + BranchPlaceholder + "] ";
    assert OccursAt(step, BranchPlaceholder, 1);
  }

  lemma ExampleTrimmedBranch(output: string)
    requires output == "main\n"
    ensures TrimSpace(output) == "main"
  {
    TrimSpaceOf("", "main", "\n");
    assert "" + "main" + "\n" == output;
  }

  lemma NoMessageInHead(head: string)
    requires head == "[{GIT_BRANCH}] "
    ensures !Occurs(head + MessagePlaceholder[..15], MessagePlaceholder)
  {
    var t := head + MessagePlaceholder[..15];
    forall k | 0 <= k <= |t| - |MessagePlaceholder|
      ensures !OccursAt(t, MessagePlaceholder, k)
    {
      if k == 1 {
        assert t[k + 1] != MessagePlaceholder[1];
      } else {
        assert t[k] != MessagePlaceholder[0];
      }
    }
  }

  lemma ExampleMessageStep(head: string, template: string, message: string)
    requires head == "[{GIT_BRANCH}] "
    requires !Occurs(head + MessagePlaceholder[..15], MessagePlaceholder)
    requires template == head + MessagePlaceholder
    ensures WithMessage(template, message) == head + message
  {
    assert template == head + MessagePlaceholder + "";
    ReplaceAllFirst(head, MessagePlaceholder, "", message);
  }

  /** The one `{GIT_BRANCH}` of `step` becomes `main`. */
  lemma BranchStep(rest: string, step: string)
    requires step == "[" + BranchPlaceholder + rest
    requires forall k | 0 <= k < |rest| :: rest[k] != '{'
    ensures ReplaceAll(step, BranchPlaceholder, "main") == "[" + "main" + rest
  {
    var t := "[" + BranchPlaceholder[..11];
    forall k | 0 <= k <= |t| - |BranchPlaceholder|
      ensures !OccursAt(t, BranchPlaceholder, k)
    {
      assert t[k] != BranchPlaceholder[0];
    }
    ReplaceAllFirst("[", BranchPlaceholder, rest, "main");
    forall k | 0 <= k <= |rest| - |BranchPlaceholder|
      ensures !OccursAt(rest, BranchPlaceholder, k)
    {
      assert rest[k] != BranchPlaceholder[0];
    }
    ReplaceAllAbsent(rest, BranchPlaceholder, "main");
  }
}
