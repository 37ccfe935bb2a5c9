/** The flow of `main`, `generateSingleCommit` and `generateListCommits`:
    which outcome a run reaches, given what git, the model and the user
    answer. Every input from the outside world is a parameter: the output
    of `git rev-parse`, the diff segments, the branch lookup, the model's
    reply (`None` when the request fails), the fee answer, the confirmation
    answer and the menu choice. The process exits of the source are
    outcomes. */
module Dispatch {
  import opened Options
  import opened Strings
  import opened Gitmoji
  import opened Template
  import opened Gate
  import opened Prompts
  import opened DiffFilter
  import Decimal

  /** The last entry of every menu. */
  const RegenerateMsg: string := "\U{267B}\U{FE0F} Regenerate Commit Messages"

  /** How many options the list mode asks the model for. */
  const NumOptions: int := 5

  /** The command-line settings the core reads. */
  datatype Config = Config(
    language: string,
    template: string,
    emoji: bool,
    commitType: string,
    list: bool,
    force: bool,
    filterFee: bool,
    maxTokens: int)

  /** How a run ends. All but `Committed` and `Regenerate` are process exits
      in the source. */
  datatype Outcome =
    | NotRepository
    | DiffFailed
    | NoChanges
    | Refused
    | RequestFailed
    | BranchFailed
    | Aborted
    | InvalidChoice
    | Regenerate
    | Committed(message: string)

  /** One round of the list mode: the answer to the fee question, the
      model's reply and the number typed at the menu (0 when nothing
      readable was typed, as `fmt.Scanln` leaves it). */
  datatype Round = Round(feeAnswer: string, response: Option<string>, choice: int)

  /** `checkGitRepository`: the command succeeded and printed `true`. */
  predicate IsWorkTree(revParse: Option<string>) {
    revParse.Some? && TrimSpace(revParse.value) == "true"
  }

  /** The gitmoji (when switched on) and then the template (when one is
      given) applied to a message. `None` is the fatal exit of a failed
      branch lookup. */
  function PostProcess(msg: string, emoji: bool, template: string, branch: BranchLookup): (r: Option<string>)
    ensures template == "" ==> r.Some? && EndsWith(r.value, msg)
    ensures template == "" && !emoji ==> r == Some(msg)
    ensures r.None? ==> branch.LookupFailed?
    ensures template == "" ==> r == Some(if emoji then AddGitmoji(msg) else msg)
    ensures template != "" ==> r == ProcessTemplate(template, if emoji then AddGitmoji(msg) else msg, branch)
  {
    var m := if emoji then AddGitmoji(msg) else msg;
    if template != "" then ProcessTemplate(template, m, branch)
    else
      assert !emoji ==> EndsWith(m, msg) by {
        ConcatEnds([], msg);
        assert [] + msg == msg;
      }
      Some(m)
  }

  /** The menu candidates: every piece trimmed and post-processed, in
      order; `None` if post-processing any of them is fatal. */
  function Candidates(pieces: seq<string>, emoji: bool, template: string, branch: BranchLookup): (r: Option<seq<string>>)
    ensures r.Some? ==> (|r.value| == |pieces|
      && forall i | 0 <= i < |pieces| :: PostProcess(TrimSpace(pieces[i]), emoji, template, branch) == Some(r.value[i]))
    ensures r.None? ==> exists i | 0 <= i < |pieces| :: PostProcess(TrimSpace(pieces[i]), emoji, template, branch).None?
  {
    if pieces == [] then Some([])
    else
      match PostProcess(TrimSpace(pieces[0]), emoji, template, branch)
      case None => None
      case Some(first) =>
        match Candidates(pieces[1..], emoji, template, branch)
        case None => None
        case Some(rest) => Some([first] + rest)
  }

  /** The menu of the list mode: the reply split at every `;`, each piece
      made a candidate, and the regenerate entry last. */
  function BuildMenu(response: string, emoji: bool, template: string, branch: BranchLookup): (menu: Option<seq<string>>)
    ensures menu.Some? ==> |menu.value| == CountChar(response, ';') + 2
    ensures menu.Some? ==> menu.value[|menu.value| - 1] == RegenerateMsg
    ensures menu.None? ==> template != "" && branch.LookupFailed?
  {
    match Candidates(Split(response, ';'), emoji, template, branch)
    case None => None
    case Some(c) => Some(c + [RegenerateMsg])
  }

  /** The menu choice: a number outside the menu is invalid, the entry that
      reads as the regenerate entry asks for a new round, and any other
      entry is committed. */
  function Choose(menu: seq<string>, choice: int): (o: Outcome)
    ensures o == InvalidChoice <==> choice < 1 || choice > |menu|
    ensures o == Regenerate <==> 1 <= choice <= |menu| && menu[choice - 1] == RegenerateMsg
    ensures o.Committed? ==> 1 <= choice <= |menu| && o.message == menu[choice - 1] && o.message != RegenerateMsg
    ensures o.InvalidChoice? || o.Regenerate? || o.Committed?
  {
    if choice < 1 || choice > |menu| then InvalidChoice
    else if menu[choice - 1] == RegenerateMsg then Regenerate
    else Committed(menu[choice - 1])
  }

  /** `generateSingleCommit`, from the diff on. */
  function SingleCommit(diff: string, cfg: Config, feeAnswer: string, response: Option<string>,
                        branch: BranchLookup, answer: string): (o: Outcome)
    ensures diff == "" <==> o == NoChanges
    ensures o.Committed? ==> response.Some? && (cfg.force || IsYes(answer))
    ensures o.Committed? && cfg.template == "" ==> EndsWith(o.message, response.value)
    ensures o.Refused? <==> (diff != ""
      && !FilterApi(SinglePrompt(diff, cfg.commitType, cfg.language), cfg.maxTokens, cfg.filterFee, feeAnswer))
    ensures o != NotRepository && o != DiffFailed && o != InvalidChoice && o != Regenerate
    ensures o == Aborted ==> !cfg.force && !IsYes(answer)
    ensures o == RequestFailed <==> (diff != ""
      && FilterApi(SinglePrompt(diff, cfg.commitType, cfg.language), cfg.maxTokens, cfg.filterFee, feeAnswer)
      && response.None?)
    ensures o == BranchFailed <==> (diff != ""
      && FilterApi(SinglePrompt(diff, cfg.commitType, cfg.language), cfg.maxTokens, cfg.filterFee, feeAnswer)
      && response.Some? && PostProcess(response.value, cfg.emoji, cfg.template, branch).None?)
  {
    if diff == "" then NoChanges
    else
      var prompt := SinglePrompt(diff, cfg.commitType, cfg.language);
      if !FilterApi(prompt, cfg.maxTokens, cfg.filterFee, feeAnswer) then Refused
      else
        match response
        case None => RequestFailed
        case Some(text) =>
          match PostProcess(text, cfg.emoji, cfg.template, branch)
          case None => BranchFailed
          case Some(msg) =>
            if cfg.force then Committed(msg)
            else if IsYes(answer) then Committed(msg)
            else Aborted
  }

  /** One round of `generateListCommits`. */
  function ListCommit(diff: string, cfg: Config, round: Round, branch: BranchLookup): (o: Outcome)
    ensures o.Committed? ==> round.response.Some? && o.message != RegenerateMsg
    ensures o.Refused? <==>
      !FilterApi(ListPrompt(diff, cfg.commitType, cfg.language, NumOptions), cfg.maxTokens, cfg.filterFee, round.feeAnswer)
    ensures o != NoChanges && o != NotRepository && o != Aborted && o != DiffFailed
    ensures o == RequestFailed <==> (FilterApi(ListPrompt(diff, cfg.commitType, cfg.language, NumOptions),
        cfg.maxTokens, cfg.filterFee, round.feeAnswer)
      && round.response.None?)
    ensures o == BranchFailed <==> (FilterApi(ListPrompt(diff, cfg.commitType, cfg.language, NumOptions),
        cfg.maxTokens, cfg.filterFee, round.feeAnswer)
      && round.response.Some? && BuildMenu(round.response.value, cfg.emoji, cfg.template, branch).None?)
    ensures (FilterApi(ListPrompt(diff, cfg.commitType, cfg.language, NumOptions), cfg.maxTokens, cfg.filterFee, round.feeAnswer)
      && round.response.Some? && BuildMenu(round.response.value, cfg.emoji, cfg.template, branch).Some?)
      ==> o == Choose(BuildMenu(round.response.value, cfg.emoji, cfg.template, branch).value, round.choice)
  {
    var prompt := ListPrompt(diff, cfg.commitType, cfg.language, NumOptions);
    if !FilterApi(prompt, cfg.maxTokens, cfg.filterFee, round.feeAnswer) then Refused
    else
      match round.response
      case None => RequestFailed
      case Some(text) =>
        match BuildMenu(text, cfg.emoji, cfg.template, branch)
        case None => BranchFailed
        case Some(menu) => Choose(menu, round.choice)
  }

  /** Successive list rounds: each round that regenerates hands over to
      the next; the first round that ends otherwise, or the last round,
      gives the outcome. */
  function Session(outs: seq<Outcome>): (o: Outcome)
    requires |outs| >= 1
    ensures o in outs
    ensures o == Regenerate ==> outs[|outs| - 1] == Regenerate
    decreases |outs|
  {
    if outs[0] == Regenerate && |outs| > 1 then
      var o := Session(outs[1..]);
      assert outs[1..][|outs| - 2] == outs[|outs| - 1];
      o
    else outs[0]
  }

  /** The list mode over successive rounds; the outcome of each round is
      that of `generateListCommits` with the round's inputs. */
  function ListSession(diff: string, cfg: Config, rounds: seq<Round>, branch: BranchLookup): (o: Outcome)
    requires |rounds| >= 1
    ensures o != NoChanges && o != NotRepository && o != Aborted && o != DiffFailed
    ensures exists i | 0 <= i < |rounds| :: ListCommit(diff, cfg, rounds[i], branch) == o
  {
    var outs := seq(|rounds|, i requires 0 <= i < |rounds| => ListCommit(diff, cfg, rounds[i], branch));
    var o := Session(outs);
    var i :| 0 <= i < |outs| && outs[i] == o;
    o
  }

  /** `main`: the repository check, the diff, then one of the two modes.
      `segs` is the segment list of the staged diff, or `None` when
      `git diff` itself fails. */
  function Run(revParse: Option<string>, segs: Option<seq<Segment>>, cfg: Config,
               feeAnswer: string, response: Option<string>, branch: BranchLookup,
               answer: string, rounds: seq<Round>): (o: Outcome)
    requires |rounds| >= 1
    ensures o == NotRepository <==> !IsWorkTree(revParse)
    ensures o == DiffFailed <==> IsWorkTree(revParse) && segs.None?
    ensures o == NoChanges <==> IsWorkTree(revParse) && segs.Some? && FilterDiff(segs.value) == ""
    ensures o.Committed? ==> IsWorkTree(revParse) && segs.Some? && FilterDiff(segs.value) != ""
    ensures IsWorkTree(revParse) && segs.Some? && FilterDiff(segs.value) != "" ==>
      o == (if cfg.list then ListSession(FilterDiff(segs.value), cfg, rounds, branch)
            else SingleCommit(FilterDiff(segs.value), cfg, feeAnswer, response, branch, answer))
  {
    if !IsWorkTree(revParse) then NotRepository
    else if segs.None? then DiffFailed
    else
      var diff := FilterDiff(segs.value);
      if diff == "" then NoChanges
      else if cfg.list then ListSession(diff, cfg, rounds, branch)
      else SingleCommit(diff, cfg, feeAnswer, response, branch, answer)
  }

  /** With `force`, the confirmation answer is never consulted. */
  lemma ForceIgnoresAnswer(diff: string, cfg: Config, feeAnswer: string, response: Option<string>,
                           branch: BranchLookup, a1: string, a2: string)
    requires cfg.force
    ensures SingleCommit(diff, cfg, feeAnswer, response, branch, a1)
         == SingleCommit(diff, cfg, feeAnswer, response, branch, a2)
  {
  }

  /** With `force`, a proposed message is committed without a question. */
  lemma ForceCommits(diff: string, cfg: Config, feeAnswer: string, text: string,
                     branch: BranchLookup, answer: string, msg: string)
    requires cfg.force && diff != ""
    requires FilterApi(SinglePrompt(diff, cfg.commitType, cfg.language), cfg.maxTokens, cfg.filterFee, feeAnswer)
    requires PostProcess(text, cfg.emoji, cfg.template, branch) == Some(msg)
    ensures SingleCommit(diff, cfg, feeAnswer, Some(text), branch, answer) == Committed(msg)
  {
  }

  /** The gitmoji goes in before the template is filled: `"feat: x"` with
      the template `"[{GIT_BRANCH}] {COMMIT_MESSAGE}"` on branch `main`
      becomes `"[main] ✨ feat: x"`. The other order would find `main`
      first and add no emoji. */
  lemma ExampleEmojiThenTemplate(msg: string, template: string, output: string)
    requires msg == "feat: x"
    requires template == "[{GIT_BRANCH}] {COMMIT_MESSAGE}"
    requires output == "main\n"
    ensures PostProcess(msg, true, template, BranchOutput(output)) == Some("[main] \U{2728} feat: x")
    ensures AddGitmoji("[main] " + msg) == "[main] " + msg
  {
    FeatPrefixed(msg);
    SparkleTemplate(AddGitmoji(msg), template, output);
    BranchFirstNoEmoji("[main] " + msg);
  }

  lemma SparkleTemplate(m: string, template: string, output: string)
    requires m == "\U{2728} feat: x"
    requires template == "[{GIT_BRANCH}] {COMMIT_MESSAGE}"
    requires output == "main\n"
    ensures ProcessTemplate(template, m, BranchOutput(output)) == Some("[main] \U{2728} feat: x")
  {
    assert forall k | 0 <= k < |m| :: m[k] != '{';
    BranchTemplate(template, m, output);
    assert "[main] " + m == "[main] \U{2728} feat: x";
  }

  lemma BranchFirstNoEmoji(s: string)
    requires s == "[main] feat: x"
    ensures AddGitmoji(s) == s
  {
    assert IsMatch(s, 1, 5);
    assert s[1..5] == "main";
    AddGitmojiLeftmost(Table, s, 1, 5);
  }

  /** Without `force`, once a message is proposed it is committed exactly
      when the answer is a yes, and the run is aborted otherwise. */
  lemma ConfirmDecides(diff: string, cfg: Config, feeAnswer: string, text: string,
                       branch: BranchLookup, answer: string, msg: string)
    requires !cfg.force && diff != ""
    requires FilterApi(SinglePrompt(diff, cfg.commitType, cfg.language), cfg.maxTokens, cfg.filterFee, feeAnswer)
    requires PostProcess(text, cfg.emoji, cfg.template, branch) == Some(msg)
    ensures SingleCommit(diff, cfg, feeAnswer, Some(text), branch, answer)
         == (if IsYes(answer) then Committed(msg) else Aborted)
  {
  }

  /** Every list round asks the model for five options, written `5` in the
      prompt right after `and make `. */
  lemma ListRoundAsksForFive(diff: string, cfg: Config)
    ensures var p := ListPrompt(diff, cfg.commitType, cfg.language, NumOptions);
      var k := |Opening(cfg.language) + ListTypeClause(cfg.commitType)| + |"and make "|;
      OccursAt(p, "5" + OptionsPhrase, k)
  {
    ListPromptNamesCount(diff, cfg.commitType, cfg.language, NumOptions);
    assert Decimal.IntToString(NumOptions) == "5";
  }

  /** Choosing the last entry of a menu regenerates and never commits. */
  lemma LastEntryRegenerates(response: string, emoji: bool, template: string, branch: BranchLookup)
    requires BuildMenu(response, emoji, template, branch).Some?
    ensures var menu := BuildMenu(response, emoji, template, branch).value;
      Choose(menu, |menu|) == Regenerate
  {
  }

  /** Every entry but the last is the post-processed, trimmed piece of the
      reply at the same place. */
  lemma MenuEntries(response: string, emoji: bool, template: string, branch: BranchLookup, i: int)
    requires BuildMenu(response, emoji, template, branch).Some?
    requires 0 <= i < CountChar(response, ';') + 1
    ensures PostProcess(TrimSpace(Split(response, ';')[i]), emoji, template, branch)
         == Some(BuildMenu(response, emoji, template, branch).value[i])
  {
    var c := Candidates(Split(response, ';'), emoji, template, branch);
    assert BuildMenu(response, emoji, template, branch).value == c.value + [RegenerateMsg];
  }

  /** A menu with a gitmoji and no template: every candidate ends with its
      trimmed piece, and is at most an emoji and a space longer. */
  lemma EmojiMenuEntries(response: string, branch: BranchLookup, i: int)
    requires 0 <= i < CountChar(response, ';') + 1
    ensures BuildMenu(response, true, "", branch).Some?
    ensures var piece := TrimSpace(Split(response, ';')[i]);
      var entry := BuildMenu(response, true, "", branch).value[i];
      EndsWith(entry, piece) && |entry| <= |piece| + MaxEmojiWidth + 1
  {
    MenuEntries(response, true, "", branch, i);
  }

  /** The rounds run until one ends other than by regenerating: that
      round's outcome is the session's. */
  lemma {:induction false} SessionStopsAtFirst(outs: seq<Outcome>, k: int)
    requires 0 <= k < |outs|
    requires forall j | 0 <= j < k :: outs[j] == Regenerate
    requires outs[k] != Regenerate
    ensures Session(outs) == outs[k]
    decreases k
  {
    if k > 0 {
      assert outs[0] == Regenerate;
      assert forall j | 0 <= j < k - 1 :: outs[1..][j] == outs[j + 1];
      SessionStopsAtFirst(outs[1..], k - 1);
    }
  }

  /** A session in which every round regenerates ends by regenerating. */
  lemma {:induction false} SessionAllRegenerate(outs: seq<Outcome>)
    requires |outs| >= 1
    requires forall j | 0 <= j < |outs| :: outs[j] == Regenerate
    ensures Session(outs) == Regenerate
    decreases |outs|
  {
    if |outs| > 1 {
      assert forall j | 0 <= j < |outs| - 1 :: outs[1..][j] == outs[j + 1];
      SessionAllRegenerate(outs[1..]);
    }
  }

  /** The output of `git rev-parse --is-inside-work-tree` inside a work
      tree. */
  lemma ExampleWorkTree(out: string)
    requires out == "true\n"
    ensures IsWorkTree(Some(out))
  {
    TrimSpaceOf("", "true", "\n");
    assert "" + "true" + "\n" == out;
  }
}
