# LlamaPusher commit-message core, in Dafny

LlamaPusher is a command-line tool. It reads the staged git diff and asks a
local Ollama model for a conventional-commit message. It can prefix the
message with a gitmoji and pour it into a template. After a y/n
confirmation, or a choice from a menu of options, it commits. This project
models the text logic of `main.go` that sits between those I/O steps:

- **Gitmoji prefixer** (`gitmoji.dfy`). `addGitmojiToCommitMessage` and
  the `typeToGitmoji` table. The regular expression `\b[a-zA-Z]+\b` (RE2,
  ASCII word boundaries) is given a declarative meaning (`IsMatch`,
  `NoMatchBefore`). A scanner (`FindFrom`) is proved to find its leftmost
  match.
- **Template substitution** (`template.dfy`, on top of `replace.dfy`,
  which models `strings.ReplaceAll`). `processTemplate` fills
  `{COMMIT_MESSAGE}` first and `{GIT_BRANCH}` second. The branch lookup is
  a parameter that is consulted only when needed.
- **Staged-diff line filter** (`diff_filter.dfy`). This is the loop of
  `getGitDiff` over the segments the diff library returns.
- **Size and confirmation gate** (`gate.dfy`, `words.dfy`). This covers
  the `filterAPI` decision, the `strings.Fields` token count and the y/n
  answer check.
- **Prompt builders** (`prompts.dfy`, `decimal.dfy`).
  `getPromptForSingleCommit` and `getPromptForListCommits`.
- **Run flow** (`dispatch.dfy`). The repository check, the empty-diff exit,
  the single mode with `force` and confirmation, and the list mode's menu.
  Every process exit is an `Outcome`.

Shared pieces:

- `strings.dfy` holds Go's `strings.TrimSpace` over the `unicode.IsSpace`
  set, plus `Split`, `Join` and `ToLower`.
- `options.dfy` holds `Option`.

Strings are sequences of Unicode scalar values, so `"♻️"` is two characters.

`getGitDiff` keeps every line of every non-equal segment, including
context, `---`/`+++` and `index` lines. It drops only lines starting with
`@@` or `diff --git`.

## Model

| member | source | states |
|---|---|---|
| Strings.IsSpace | main.go:178 | `unicode.IsSpace`: tab, newline, vertical tab, form feed, carriage return, space, U+0085, U+00A0 and the Unicode White_Space characters above Latin-1; both `TrimSpace` and `Fields` split on it |
| Strings.TrimSpace | main.go:178 | the trimmed answer is no longer than the input, and it neither starts nor ends with whitespace |
| Strings.TrimSpaceSlice | main.go:178 | the trimmed answer is a contiguous slice of the input, with only whitespace on either side of it |
| Strings.TrimSpaceIdempotent | main.go:207 | trimming an already trimmed candidate changes nothing |
| Strings.ToLower | main.go:179 | the answer keeps its length, and each character is lower-cased on its own (ASCII letters shift by 32, every other character stays) |
| Strings.Join | main.go:131 | `strings.Join`: the pieces with the separator between neighbours; `JoinSplit` and `SplitJoin` make it the inverse of `Split` |
| Strings.StartsWith | main.go:124 | `strings.HasPrefix`: the text begins with the prefix |
| Strings.Occurs | main.go:281 | `strings.Contains`: the pattern occurs at some position of the text |
| Strings.Split | main.go:205 | splitting the reply at `;` yields one more piece than there are `;`, and no piece contains `;` |
| Strings.JoinSplit | main.go:122-131 | joining the pieces of a split with the separator restores the text |
| Strings.SplitJoin | main.go:122-131 | splitting a join of separator-free pieces gives back exactly those pieces |
| Replace.ReplaceAllIsJoin | main.go:279 | replacing every occurrence is the same as joining, with the replacement, the pieces between the left-to-right non-overlapping occurrences |
| Replace.ReplaceAll | main.go:279 | `strings.ReplaceAll` scanning left to right: an occurrence at the front is replaced and scanning resumes after it, otherwise one character is copied; its properties are the lemmas in the rows around it |
| Replace.ReplaceAllFirst | main.go:279 | text before the first occurrence is copied, that occurrence becomes the replacement, and the rest is processed alike |
| Replace.SplitOnJoin | main.go:279 | those pieces joined with the pattern itself restore the text |
| Replace.SplitOnPiecesFree | main.go:279 | no piece contains the pattern, so no occurrence survives the replacement |
| Replace.ReplaceAllAbsent | main.go:279 | a text without the pattern is left unchanged |
| Replace.ReplaceAllSelf | main.go:279 | replacing the pattern by itself is the identity |
| Words.FieldsSnoc | main.go:336 | appending one character adds a field exactly when it is a non-space that follows a space or the start |
| Words.Fields | main.go:336 | `strings.Fields`: every field is a non-empty run of non-whitespace characters; `FieldsSnoc` fixes how many there are, which is all `filterAPI` reads, and `FieldsOfJoin` reads back single-space joins |
| Words.TokenCount | main.go:336 | the prompt's size is its number of fields, the length of `strings.Fields` |
| Words.CountTokens | main.go:336 | the one-pass counter returns the number of maximal non-whitespace runs of the prompt |
| Words.FieldsOfJoin | main.go:336 | words joined by single spaces are read back as the same words, so the count is the number of words |
| Decimal.NatToString | main.go:268 | the decimal rendering is non-empty and all digits, with no leading zero |
| Decimal.IntToString | main.go:268 | the rendering of `fmt.Sprint` on an int is non-empty, starts with `-` exactly for a negative number, and is otherwise digits |
| Decimal.IntToStringRoundTrip | main.go:268 | the rendering of the option count is read back as the same number |
| Gitmoji.TableKeys | main.go:26-34 | the commit types with an emoji are exactly feat, fix, docs, style, refactor, test and chore; `feat` maps to the sparkles and `refactor` to the two-character recycling sign |
| Gitmoji.Boundary | main.go:359 | RE2's `\b`: exactly one of the characters on either side is an ASCII word character |
| Gitmoji.IsMatch | main.go:359 | `\b[a-zA-Z]+\b` matches a non-empty letters-only slice with a word boundary at both ends |
| Gitmoji.TableIsEmojiTable | main.go:26-34 | every emoji of the seven-entry table is free of word characters and at most two characters wide |
| Gitmoji.FindFrom | main.go:359-360 | a found pair is a match of `\b[a-zA-Z]+\b` and no match starts earlier; no result means no match at all |
| Gitmoji.FirstWord | main.go:359-360 | the text `FindString` returns, with `None` for no match; `FirstWordSpec` states it is the leftmost match |
| Gitmoji.FirstWordSpec | main.go:359-364 | the word looked up is the leftmost match of the pattern, and there is none exactly when the pattern matches nowhere |
| Gitmoji.AddGitmoji | main.go:358-371 | the result ends with the original message and is at most the widest emoji plus one space longer |
| Gitmoji.AddGitmojiLeftmost | main.go:360-370 | the leftmost letters-only word decides the result: a key gets its emoji and a space in front, anything else leaves the message unchanged |
| Gitmoji.AddGitmojiNoMatch | main.go:360-364 | a message where the pattern matches nowhere is returned unchanged |
| Gitmoji.AddGitmojiAfterPrefix | main.go:360-368 | non-word characters in front of a message do not change which emoji it gets |
| Gitmoji.AddGitmojiTwice | main.go:366-368 | a message whose leftmost letters-only word is a key gets that emoji on each pass, so prefixing twice adds it twice |
| Gitmoji.ExampleFeat | main.go:27 | `"feat: add login"` becomes `"✨ feat: add login"` |
| Gitmoji.ExampleCapitalised | main.go:359 | matching is case-sensitive: `"Feat: x"` is unchanged |
| Gitmoji.ExampleUnknown | main.go:366-370 | a first word that is no key (`"unknown: x"`) leaves the message unchanged |
| Gitmoji.ExampleSkipsMixedWord | main.go:359-360 | `"fix2 docs"` is a word run with a digit, so the first letters-only word is `docs` and the memo emoji is added |
| Gitmoji.ExampleNotIdempotent | main.go:366-368 | `"feat: x"` gets a sparkle, and a second pass puts another sparkle in front of the first |
| Template.WithMessage | main.go:279 | the first step: every `{COMMIT_MESSAGE}` replaced by the message |
| Template.ProcessTemplate | main.go:278-292 | the run ends fatally exactly when the branch lookup fails and `{GIT_BRANCH}` is present after the message is filled in |
| Template.BranchOnlyWhenNeeded | main.go:281-289 | without `{GIT_BRANCH}` after the first step, every branch lookup, failed or not, gives the message-filled template |
| Template.NoPlaceholders | main.go:278-292 | a template with neither placeholder is returned unchanged |
| Template.SubstitutesEveryOccurrence | main.go:279-288 | every `{COMMIT_MESSAGE}` gets the message and then every `{GIT_BRANCH}` gets the trimmed branch; the pieces in between are kept and hold no placeholder |
| Template.ExampleBranchAndMessage | main.go:278-292 | `"[{GIT_BRANCH}] {COMMIT_MESSAGE}"` with `"fix: bug"` on branch `main` gives `"[main] fix: bug"` |
| Template.BranchTemplate | main.go:278-292 | on branch `main`, `"[{GIT_BRANCH}] {COMMIT_MESSAGE}"` turns any message without a `{` into `"[main] "` followed by the message |
| DiffFilter.IsHeader | main.go:124 | the drop condition: the line starts with `@@` or `diff --git` |
| DiffFilter.NonHeaderLinesMember | main.go:123-127 | a line of one segment is kept exactly when it is one of its lines and not a hunk or file header |
| DiffFilter.FilterDiff | main.go:116-131 | the result of `getGitDiff` is the kept lines joined with newlines; `KeptLinesMember` says which lines those are and `LinesRecovered` reads them back |
| DiffFilter.CollectDiff | main.go:116-131 | the nested loop over segments and lines yields the kept lines of all segments, in order, joined with newlines |
| DiffFilter.CollectLines | main.go:123-128 | the inner loop appends, in order, exactly the lines of one segment that are not hunk or file headers |
| DiffFilter.KeptLinesAppend | main.go:117-129 | the lines of a concatenation of segments are the lines of each part, in order |
| DiffFilter.KeptLinesMember | main.go:116-129 | a line is collected exactly when it is a non-header line of some non-equal segment |
| DiffFilter.LinesRecovered | main.go:116-131 | splitting the result at newlines yields exactly the collected lines |
| DiffFilter.EqualContributesNothing | main.go:118-120 | an equal segment anywhere in the list changes nothing |
| DiffFilter.HeaderFreeSegment | main.go:122-131 | a segment with no header lines comes through whole, empty lines included |
| DiffFilter.HeadersOnly | main.go:123-131 | input made only of header lines yields the empty diff |
| DiffFilter.ExampleHunk | main.go:122-131 | a hunk header is dropped and the blank line between two added lines is kept |
| Gate.IsYes | main.go:178-179 | the y/n check: an answer is a yes when trimmed and lower-cased it is `y`; `IsYesIff` spells out which answers those are |
| Gate.IsYesIff | main.go:178-179 | an answer is accepted exactly when, trimmed, it is `y` or `Y` |
| Gate.ExampleUpperYes | main.go:348-350 | `" Y\n"` is accepted |
| Gate.ExampleWordYes | main.go:348-350 | `"yes"` is refused |
| Gate.FilterApi | main.go:335-356 | the run proceeds exactly when the prompt is within the token limit and, if the fee question is on, the answer to it is a yes |
| Gate.AnswerOnlyWhenAsked | main.go:339-353 | the fee answer does not matter when the question is off or the prompt is too large |
| Gate.SizeOfWords | main.go:336-342 | a prompt of n space-separated words passes the size check exactly when n is within the limit |
| Prompts.SinglePrompt | main.go:241-257 | the single prompt starts with the opening and ends with the diff between its two markers |
| Prompts.ListPrompt | main.go:259-276 | the list prompt starts with the opening and ends with the diff between its two markers |
| Prompts.SingleDiffRecoverable | main.go:250-254 | for a fixed type and language, the diff is recovered from the single prompt, and only the prompt built from a diff gives that diff back |
| Prompts.ListDiffRecoverable | main.go:268-273 | the same for the list prompt with a fixed option count |
| Prompts.SinglePromptInjective | main.go:241-257 | different diffs give different single prompts |
| Prompts.SingleTypeClauseIff | main.go:244-248 | right after the opening, the quoted commit type appears exactly when a type is given |
| Prompts.ListTypeClauseIff | main.go:262-266 | the same for the list prompt |
| Prompts.ListPromptNamesCount | main.go:268 | the list prompt holds the decimal option count right after `and make `, followed by ` options that are separated by ';'`. Parsing that count gives the number back |
| Dispatch.PostProcess | main.go:158-164 | the gitmoji goes in first and the template is filled with the prefixed message; without a template the message survives as the suffix and, without emoji too, is unchanged; only a failed branch lookup is fatal |
| Dispatch.ExampleEmojiThenTemplate | main.go:158-164 | `"feat: x"` with emoji and `"[{GIT_BRANCH}] {COMMIT_MESSAGE}"` on `main` gives `"[main] ✨ feat: x"`, while prefixing after the template would add nothing |
| Dispatch.Candidates | main.go:205-214 | each candidate is its piece, trimmed and then post-processed, in order; a fatal case comes from some piece |
| Dispatch.BuildMenu | main.go:205-216 | the menu has (number of `;`) + 2 entries and the regenerate entry is last |
| Dispatch.Choose | main.go:227-237 | a choice outside 1..length is invalid; a choice landing on an entry that reads as the regenerate entry regenerates and never commits; any other choice commits that entry |
| Dispatch.SingleCommit | main.go:134-186 | an empty diff exits; a refused gate exits; past the gate a missing reply is the fatal request failure and a failed post-processing the fatal branch failure; a commit needs a reply and either `force` or a yes; without a template the committed message ends with the reply; no menu outcome can occur |
| Dispatch.ListRoundAsksForFive | main.go:189-190 | every list round asks for `NumOptions` = 5 options: the prompt holds `5` followed by ` options that are separated by ';'` right after `and make ` |
| Dispatch.ListCommit | main.go:188-239 | one list round is refused exactly when its gate refuses; past the gate a missing reply is the fatal request failure and a menu that cannot be built the fatal branch failure; once the gate passes and the menu is built, the round's outcome is the menu choice (invalid out of range, regenerate on the last entry, otherwise a commit of the chosen entry) |
| Dispatch.Session | main.go:232-235 | the outcome of a run of rounds is one of the rounds' outcomes. It is a regenerate only when the last round regenerates |
| Dispatch.ListSession | main.go:233-235 | a session's outcome is the outcome of one of its rounds. It is never a missing repository, an empty diff or an abort |
| Dispatch.Run | main.go:69-90 | outside a work tree the run stops; inside one it stops fatally exactly when `git diff` fails, and with no changes exactly when the filtered diff is empty; otherwise `list` selects the list session and its absence the single commit |
| Dispatch.ForceCommits | main.go:170-173 | with `force`, a proposed message that passed the gate is committed |
| Dispatch.ForceIgnoresAnswer | main.go:170-173 | with `force`, the confirmation answer is never consulted |
| Dispatch.ConfirmDecides | main.go:175-185 | without `force`, a proposed message is committed exactly when the answer is a yes, and the run is aborted otherwise |
| Dispatch.LastEntryRegenerates | main.go:216-235 | choosing the last menu entry, the constant `RegenerateMsg` (`♻️ Regenerate Commit Messages`, main.go:21), regenerates |
| Dispatch.MenuEntries | main.go:205-214 | every menu entry but the last is the trimmed piece at the same place, post-processed |
| Dispatch.EmojiMenuEntries | main.go:206-210 | with emoji and no template, every candidate ends with its trimmed piece and grows by at most an emoji and a space |
| Dispatch.SessionStopsAtFirst | main.go:232-235 | when every earlier round regenerates, the session's outcome is that of the first round that does not regenerate |
| Dispatch.SessionAllRegenerate | main.go:232-235 | a session whose rounds all regenerate ends in a regenerate |
| Dispatch.IsWorkTree | main.go:93-101 | `checkGitRepository`: the command succeeded and its output, trimmed, is `true` |
| Dispatch.ExampleWorkTree | main.go:93-101 | `git rev-parse` printing `true` and a newline means a work tree |

## Left out

- Subprocesses (`git rev-parse`, `git diff`, `git branch`, `git commit`) are not modelled. Their outputs are parameters: `Option<string>` for `rev-parse`, the segment list for the diff (`None` when `git diff` fails, which is the `DiffFailed` exit), and `BranchLookup` for the branch. A `Committed` outcome stands for the call to `makeCommit`. A failure of `git commit` itself is not modelled.
- `diffmatchpatch.DiffMain` is an external library. Its segment list is an input.
- `sendMessageOllama` does HTTP and JSON. Its reply is an input, with `None` for any error. The model name, `top-p`, temperature and repetition penalty only go into that request, so they are not modelled.
- The fee estimate and its `%.3f` printing use float arithmetic and are advisory only. The fee question's answer is an input.
- Flag parsing and console output (`Printf`/`Println`) are not modelled. This includes the `(1-6)` prompt text and the menu numbering.
- The second `getGitDiff` call in `generateSingleCommit` re-runs `git diff`. The model passes it the same diff. Its empty-diff exit is still modelled; a failure of that second `git diff` is not.
- Dispatch.PostProcess: each `processTemplate` call in the source makes its own branch lookup. The model uses one lookup result for all of them.
- Dispatch.ListSession: the source recurses without bound on every regenerate. The model runs over a finite list of rounds. When the rounds run out, it returns the last round's outcome.
- Dispatch.BuildMenu: it states only one direction for a fatal branch lookup (a failed lookup with a template). The exact condition, that some piece needs the branch, is stated by `Dispatch.Candidates`.
- `ToLower` lowercases ASCII letters only. The only character whose full Unicode lowercase is `y` is `Y`, so accepting an answer is unaffected.
- Invalid UTF-8 in git or model output is not modelled. Strings are sequences of Unicode scalar values.
