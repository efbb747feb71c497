# Patches, menus and streams of GitHub Desktop

A Dafny model of the parts of GitHub Desktop in which much state or arithmetic meets
a promise that no single function shows: making partial patches from a diff, highlighting
only some lines of a file, the app menu and its two copies, turning a commit message into
tokens and wrapping it, paging with a growing page size, the popup stack, reading
`git status`, carriage returns in progress output, and the filter that keeps credentials
from following a redirect.

`dafny verify dfyconfig.toml` checks everything.

## How the model is built

Code that changes things step by step is a method with the same loop, or a class with the
same fields, and its contract equates what it computes with a function of its input or of
the old state. Properties are lemmas about those functions.

| file | what it holds |
|---|---|
| `Text.dfy` | strings, lines, decimal numbers, `Option` and `Result` |
| `Diff.dfy` | diff lines, hunks, selections |
| `DiffParser.dfy`, `DiffParserProperties.dfy`, `DiffParserAcceptance.dfy` | the pointer parser of unified diffs; tiling, numbering, contents; which texts it accepts and what it takes from them |
| `PatchFormatter.dfy` | the two formatters and the patch each of them prints |
| `PatchSemantics.dfy` | what applying a patch does, and what it does for each selection |
| `PatchRoundTrip.dfy` | printed patches parse back; both formatters from text to file |
| `PatchPlusStarts.dfy` | when the `+` start lines of a partial patch are right |
| `Highlighter.dfy`, `HighlighterTraces.dfy` | the worker loops over an abstract mode; answers in terms of the mode's calls |
| `AppMenu.dfy`, `AppMenuRuns.dfy`, `AppMenuOutcomes.dfy` | the menu transformers; what they keep over runs; what each makes of a menu |
| `MenuUpdate.dfy` | wanted menu state, the message, the handler, convergence |
| `Tokenizer.dfy`, `TokensDescribed.dfy`, `WrapCommitMessage.dfy` | tokens of a message; what words stand for; wrapping its summary |
| `Paging.dfy`, `UpdatedPullRequests.dfy` | growing pages; fetching updated pull requests |
| `PopupManager.dfy` | the popup stack |
| `StatusParser.dfy` | porcelain v2 status |
| `CarriageReturn.dfy` | the fold and the terminal it stands for |
| `RedirectFilter.dfy` | the same-origin filter, listener sets, the folds |

Applying a patch is defined without looking at how patches are made: each hunk is located
by its `-` range (an empty range stands for the line before it), must find its whole
pre-image there, and must have header counts equal to those of its body. What is applied
can also be what the parser reads back from the printed text, so `StagedTextMakesSelected`
and `DiscardTextKeepsUnselected` speak about the text the formatters return.

## What the code does not keep

These follow the code, and each has an input that shows it and the exact condition:

- The `+` start lines of both kinds of partial patch are those of the whole diff and are not
  moved when an earlier change is not selected. `PlusStartsRightIffBalanced` says for every
  diff and selection when they are right; `UnselectedAdditionMovesStart` is a diff the parser
  accepts and a selection for which they are wrong, staged or discarded. Nothing depends on
  it here, since hunks are located by the `-` side.
- Merging a new menu tree keeps the open menus connected exactly when the new tree keeps
  the parents of the open menus that survive (`MergeKeepsPathIff`); `MovedSubmenuBreaksPath`
  moves an open submenu.
- The comment at app/src/lib/api.ts:1149-1163 promises all pull requests updated on or after
  a date, and an error when there are more than `maxResults` of them;
  app/src/lib/stores/pull-request-store.ts:95-96 relies on the first. For strictly newer pull
  requests a call that does not throw returns all of them (`UpdatesAreComplete`), and with
  the default of 320 it throws whenever more than 320 are strictly newer. For those updated
  exactly at the date neither holds: `UpdatedAtSinceAreCut` has 321 of them, of which the
  call returns 10. `OnOrAfterIff` says exactly when a call that does not throw returns every
  pull request updated on or after the date, and `DefaultLimitThrowsIff` exactly when the
  call throws: also for some collections with only 240 newer items. For other limits
  `ThrowsIff` is the exact condition, and `OtherLimitsMayNotThrow` an input for which more
  strictly newer items than the limit do not make the call throw.
- The comment at app/src/lib/popup-manager.ts:85-90 says the popup is added to the stack. When
  the stack is full of errors a popup that is no error is returned but not on the stack: it
  is put below the errors and dropped as the oldest. `AddedIsOnStackIff` is the exact
  condition and `FullOfErrorsDropsAdded` an input.

## Model

| member | source | states |
|---|---|---|
| DiffParsing.DiffParser.NextLine | app/src/lib/diff-parser.ts:107-126 | the pointers move to the bounds of exactly the next unread line, or the parser stays at the end; the answer is whether that line exists and is not empty |
| DiffParsing.DiffParser.Peek | app/src/lib/diff-parser.ts:152-155 | the first character of the next unread line, a newline for an empty one, nothing at the end, and no pointer moves |
| DiffParsing.DiffParser.ClassifyLine | app/src/lib/diff-parser.ts:178-184 | searching at the raw text pointers answers what looking at the current line alone would, although neither search knows where the line ends |
| DiffParsing.DiffParser.ParseDiffHeader | app/src/lib/diff-parser.ts:174-190 | reads up to and with the first binary marker, `+++` line or empty line, says which, and leaves exactly the rest unread |
| DiffParsing.DiffParser.ParseBody | app/src/lib/diff-parser.ts:306-377 | the loop with its rolling counters returns what reading line by line gives, ends for every text, and fails exactly on a marker shorter than 12 |
| DiffParsing.DiffParser.ParseHunk | app/src/lib/diff-parser.ts:292-390 | a hunk and the unread lines after it, or the error for a missing header, a malformed header, a short marker or an empty hunk |
| DiffParsing.DiffParser.ParseHunks | app/src/lib/diff-parser.ts:431-440 | hunks are read until no line is left, each at the index after the last; an empty line after a hunk is an error |
| DiffParsing.DiffParser.Parse | app/src/lib/diff-parser.ts:399-460 | for every text the pointer machine returns what the line-wise description says, header and contents included, and is reset whatever happens |
| DiffParsing.ReadHunk | app/src/lib/diff-parser.ts:297-389 | an accepted hunk uses up at least one line, so every parse ends |
| DiffParserProperties.AcceptedDiffsTile | app/src/lib/diff-parser.ts:303-389 | in every accepted diff the hunks tile the absolute indices from 0 without gap or overlap, and in each hunk old and new line numbers run consecutively from the header's starts |
| DiffParserProperties.ContentsAligned | app/src/lib/diff-parser.ts:431-447 | when `\` lines are the literal marker, line `unifiedDiffStart + i` of the contents is `lines[i].text` for every hunk, and there are no other lines |
| DiffParserAcceptance.HeaderAcceptedIff | app/src/lib/diff-parser.ts:239-257 | a line is accepted as a hunk header, with its four numbers, exactly when it is two ranges between `@@ -`, ` +` and ` @@`, a missing count being 1, whatever follows |
| DiffParserAcceptance.ParsedHeader | app/src/lib/diff-parser.ts:174-190 | the header of a diff is its text up to the end of the first empty line, binary marker or `+++` line; the diff is binary exactly when that line is the marker and has hunks exactly when it is a `+++` line |
| DiffParserAcceptance.AcceptedIff | app/src/lib/diff-parser.ts:297-440 | what follows a `+++` line is accepted exactly when it is one hunk or more, each a header and at least one content line, with markers of at least twelve characters; the hunks hold exactly these lines without markers, each flagged exactly when a marker follows, and each has its header line's numbers |
| PatchRoundTrip.HunkHeaderRoundTrip | app/src/lib/patch-formatter.ts:86-111 | parsing a printed hunk header, whatever follows it on its line, gives back all four numbers, the elided count 1 and the count 0 included |
| PatchRoundTrip.PrintedPatchParses | app/src/lib/patch-formatter.ts:22-36 | round trip: for newline-free paths, headings and lines the parser reads a printed patch back as the same hunks: starts, counts, section headings, line types, texts and markers |
| PatchRoundTrip.ParserOutputIsParsed | app/src/lib/diff-parser.ts:292-390 | what the parser accepts, and so every patch made from it, can be printed and read again: lines are on one line and start with the character of their type |
| PatchFormatter.PatchHeaderNames | app/src/lib/patch-formatter.ts:22-69 | the old side is the null device exactly for a new or untracked file, and every other side names the path |
| PatchFormatter.FormatHunkBody | app/src/lib/patch-formatter.ts:143-206 | text, both counts and the flag of the inner loop are the printing, the counts and the change flag of one patch body |
| PatchFormatter.NewFilesAreNotRewritten | app/src/lib/patch-formatter.ts:172-182 | the patch of a new file holds nothing but context and selected lines, as they are |
| PatchFormatter.FormatPatch | app/src/lib/patch-formatter.ts:129-232 | the text is the file header and the printed patch of the hunks with a selected change; an error exactly when there is none |
| PatchFormatter.DiscardHunkBody | app/src/lib/patch-formatter.ts:266-313 | the same for the reversed body: `newCount` counts what is expected and `oldCount` what is left |
| PatchFormatter.FormatPatchToDiscardChanges | app/src/lib/patch-formatter.ts:251-336 | the text is the header and the printed reversed patch, null exactly when nothing is selected |
| PatchSemantics.HunkMakes | app/src/lib/patch-formatter.ts:143-206 | the body for a hunk expects exactly the hunk's lines of the file it is for, and leaves exactly the chosen lines |
| PatchSemantics.HunkFits | app/src/lib/patch-formatter.ts:213-219 | an emitted hunk fits: the header's range is that of the source hunk, its counts are the body's, and its whole pre-image is there |
| PatchSemantics.StagingMakesSelected | app/src/lib/patch-formatter.ts:135-220 | for every diff and selection the patch applies cleanly to the old file and makes exactly the selected deletions and additions |
| PatchSemantics.DiscardingKeepsUnselected | app/src/lib/patch-formatter.ts:258-327 | for every diff and selection the reversed patch applies cleanly to the new file and takes back exactly the selected changes |
| PatchSemantics.Confluence | app/src/lib/patch-formatter.ts:135-327 | staging a selection in the old file and discarding its complement from the new file give the same file |
| PatchSemantics.SelectingEverything | app/src/lib/patch-formatter.ts:135-327 | with everything selected staging gives the new file and discarding gives the old one |
| PatchSemantics.NoPatchIffNothingSelected | app/src/lib/patch-formatter.ts:222-229 | there is no patch, so one formatter throws and the other returns null, exactly when no added or deleted line is selected |
| PatchRoundTrip.StagedTextMakesSelected | app/src/lib/patch-formatter.ts:129-232 | from diff text to file: parse a diff, stage a selection, parse the printed patch, apply it to the old file; the result is the old file with exactly the selected changes |
| PatchRoundTrip.DiscardTextKeepsUnselected | app/src/lib/patch-formatter.ts:251-336 | the same from end to end for discarding from the new file |
| PatchPlusStarts.HunkPlusRange | app/src/lib/patch-formatter.ts:213-218 | where a hunk emitted by either formatter says its new lines go, in terms of the diff, and how far off that is after it |
| PatchPlusStarts.PlusStartsRightIffBalanced | app/src/lib/patch-formatter.ts:213-325 | for both formatters the `+` starts are where the hunks land exactly when the unselected changes before each of them balance out |
| PatchPlusStarts.UnselectedAdditionMovesStart | app/src/lib/patch-formatter.ts:213-325 | a diff the parser accepts and a selection for which a `+` start is wrong, in the staged and in the discarding patch |
| Highlighter.ReadToken | app/src/highlighter/index.ts:599-615 | at most ten attempts from the same start; an error when none of them advances |
| Highlighter.TokenizeLine | app/src/highlighter/index.ts:658-685 | the tokens of one line, recorded only for a requested line that has some, and the state after the line |
| Highlighter.Highlight | app/src/highlighter/index.ts:630-688 | the worker's loop returns what the run for the requested lines is, with no requested lines meaning all |
| Highlighter.FilteredRefinesFull | app/src/highlighter/index.ts:644-686 | from every line and state on, if tokenizing everything succeeds then the run that bails out and skips succeeds with exactly the requested lines' tokens |
| Highlighter.RequestedLinesOnly | app/src/highlighter/index.ts:630-656 | for any deterministic mode the answer to a request is the full answer restricted to the requested lines |
| Highlighter.SpansOrdered | app/src/highlighter/index.ts:673-685 | in every answer the spans of a line start in it, are non-empty, ordered and disjoint |
| Highlighter.SpansEndInLine | app/src/highlighter/index.ts:673-685 | with a mode that stays in its line no span reaches past the line |
| HighlighterTraces.LineIsDescribed | app/src/highlighter/index.ts:599-685 | the spans of a line are exactly those of the mode's calls that advance and have a style, with the length they advance by, the style, and before it the inner mode's name if asked for; tokenizing fails exactly where ten calls in a row do not advance |
| HighlighterTraces.AnswerIsDescribed | app/src/highlighter/index.ts:630-688 | for every mode and request the answer is, line by line, what the calls leave, with the state handed on from call to call, over blank lines and past skipped ones; a run fails when it comes to a line that stalls |
| AppMenus.BuildIdMap | app/src/models/app-menu.ts:295-307 | the shared map is filled with the items met in the recursive walk, later ones replacing earlier ones |
| AppMenus.IdMapHoldsTheTree | app/src/models/app-menu.ts:295-307 | with unique ids the map holds exactly the items of the tree, each under its own id |
| AppMenus.WithMenu | app/src/models/app-menu.ts:416-457 | the open menus that survive, from the top down to the first that does not, taken from the new tree, each with its selection looked up again |
| AppMenus.WithSelectedItem | app/src/models/app-menu.ts:570-615 | the three loops compute the selection that `SelectionPath` describes, and nothing when the item is unknown or its menu not open |
| AppMenus.SelectPathAbove | app/src/models/app-menu.ts:603-612 | going upwards in place, each menu above is pointed to the item of the one below it |
| AppMenus.WithDeselectedMenu | app/src/models/app-menu.ts:630-659 | the menu's selection is cleared and the menus above point down to it, and nothing happens when it is not open |
| AppMenuRuns.FromMenuKeeps | app/src/models/app-menu.ts:378-383 | a new app menu has the root open and the tree's index |
| AppMenuRuns.OpenKeeps | app/src/models/app-menu.ts:472-509 | opening a submenu keeps a non-empty path from the root and the index |
| AppMenuRuns.OpenedMenuIsLast | app/src/models/app-menu.ts:489-508 | the opened menu is last, right below the menu that lists its item, and the menus above are as they were |
| AppMenuOutcomes.Opened | app/src/models/app-menu.ts:472-509 | opening changes nothing for an unknown item or one whose menu is not open, is an error for one without a submenu, and otherwise puts its submenu below the first menu that lists it, with the item at the least selectable place selected exactly when asked for |
| AppMenuRuns.ClosedMenuIsGone | app/src/models/app-menu.ts:518-533 | after closing, no open menu has the id, and only that menu and those below it are closed |
| AppMenuRuns.TrimmedMenuIsLast | app/src/models/app-menu.ts:543-553 | trimming leaves the first menu with the id last, or everything when it is not open |
| AppMenuOutcomes.NothingToChange | app/src/models/app-menu.ts:518-659 | selecting, clearing, closing and trimming change nothing for what is unknown or not open, the root cannot be closed, and none of them changes tree or index |
| AppMenuOutcomes.ResetOpensRoot | app/src/models/app-menu.ts:666-668 | at first and after a reset exactly the root is open |
| AppMenuRuns.MergeKeepsPathIff | app/src/models/app-menu.ts:416-457 | merging a new tree keeps the path and the index exactly when the new tree keeps the parents of the surviving open menus |
| AppMenuRuns.SameParentsKeeps | app/src/models/app-menu.ts:416-457 | so merging a tree that keeps the parent of each surviving submenu id keeps the path |
| AppMenuOutcomes.Merged | app/src/models/app-menu.ts:416-457 | a merge leaves the open menus down to the first whose id is no submenu of the new tree, each with the new items, and with its selection kept as the new tree's item of that id exactly when there is one |
| AppMenuRuns.MovedSubmenuBreaksPath | app/src/models/app-menu.ts:422-454 | two trees for which it does not |
| AppMenuRuns.StepKeeps | app/src/models/app-menu.ts:416-668 | every transformer keeps the invariant, and only a merge changes the tree |
| AppMenuRuns.RunsKeepPath | app/src/models/app-menu.ts:416-668 | over every run of transformers the open menus stay a non-empty path from the root, each the submenu of an item of the one before, and the index stays that of the tree |
| AppMenuRuns.SelectionPath | app/src/models/app-menu.ts:570-615 | after selecting, each menu above selects the item leading to the next open menu, the item's menu selects it, deeper menus select nothing |
| AppMenuRuns.DeselectionPath | app/src/models/app-menu.ts:630-659 | after clearing a menu, a connected selection path leads down to it, it selects nothing, deeper menus are untouched |
| MenuUpdate.MenuStateBuilder.SetEnabled | app/src/lib/menu-update.ts:39-63 | exactly the item's entry is set |
| MenuUpdate.MenuStateBuilder.Merge | app/src/lib/menu-update.ts:70-76 | a new builder with the other's values replacing this one's, both left alone |
| MenuUpdate.GetMenuState | app/src/lib/menu-update.ts:371-381 | everything disabled under a popup, otherwise the builders laid over everything enabled |
| MenuUpdate.LastLayerWins | app/src/lib/menu-update.ts:376-380 | the last builder that mentions an item decides its state, and items come from nowhere else |
| MenuUpdate.WantedById | app/src/lib/menu-update.ts:371-389 | under a popup exactly the known items are mentioned and all disabled; otherwise the last builder that mentions an item decides and a known item no builder mentions is enabled |
| MenuUpdate.UpdateMenuState | app/src/lib/menu-update.ts:465-492 | the message lists exactly the wanted entries the renderer's menu does not show, each id once |
| MenuUpdate.ChangesById | app/src/lib/menu-update.ts:93-103 | without a menu everything wanted is sent; with one exactly what it lacks, or shows with the other state, separators never |
| MenuUpdate.MainMenu.OnUpdateMenuState | app/src/main-process/main.ts:448-480 | the handler's loop, with what it has already set when it meets an unknown id |
| MenuUpdate.HandlerFailsIff | app/src/main-process/main.ts:471-473 | it fails exactly when some id sent is not in the main menu |
| MenuUpdate.HandledUpToUnknown | app/src/main-process/main.ts:458-474 | what comes before the first unknown id is still set, and the error names that id |
| MenuUpdate.HandledSets | app/src/main-process/main.ts:458-479 | every item sent has its state, every other item keeps its own, and a change is reported exactly when some state differed |
| MenuUpdate.UpdatesConverge | app/src/lib/menu-update.ts:465-492 | from an in-sync menu with all ids, handling the message never fails, makes every item as wanted and leaves the others, is answered exactly when something was sent, and leaves nothing more to send |
| Tokenizing.Tokenizer.ScanForEmoji | app/src/lib/text-token-parser.ts:116-137 | pushes a known emoji after the text before it, or changes nothing |
| Tokenizing.Tokenizer.ScanForIssue | app/src/lib/text-token-parser.ts:139-179 | pushes an issue link after the text before it, or changes nothing |
| Tokenizing.Tokenizer.ScanForMention | app/src/lib/text-token-parser.ts:181-211 | pushes a mention that does not follow a word, or changes nothing |
| Tokenizing.Tokenizer.ScanForHyperlink | app/src/lib/text-token-parser.ts:213-256 | pushes a web address that does not follow a word, shown as `#id` for an issue of the repository, or changes nothing |
| Tokenizing.Tokenizer.Step | app/src/lib/text-token-parser.ts:258-339 | one step of either loop moves the index forward within the text and keeps what results and the rest of the text amount to |
| Tokenizing.Tokenizer.Tokenize | app/src/lib/text-token-parser.ts:347-355 | for every text, whatever was tokenized before, the pushed and flushed tokens are those of the description |
| Tokenizing.EndOfWord | app/src/lib/text-token-parser.ts:94-114 | the end of a word is after its start and within the text |
| Tokenizing.IssueEndsBeforePunctuation | app/src/lib/text-token-parser.ts:144-164 | what is left off an issue's word is a comma, a full stop and a parenthesis, each optional, in this order |
| Tokenizing.FirstIssueNumber | app/src/lib/text-token-parser.ts:235-246 | the number shown for an issue address is that of the first `/issues/` with digits, with all of its digits |
| Tokenizing.RecognizedToken | app/src/lib/text-token-parser.ts:116-256 | every scanner's token ends after where it starts, and the text between is its address when found at an `h`, where only web addresses are found, and what it shows otherwise |
| Tokenizing.TokensConserveText | app/src/lib/text-token-parser.ts:272-339 | for every text, emoji map and repository the sources of the tokens, one after the other, are exactly the input: the url of each web address, the text of every other token |
| Tokenizing.TokensShowText | app/src/lib/text-token-parser.ts:272-339 | unless a link shows an issue number, what the tokens show is the input |
| Tokenizing.TextTokensApart | app/src/lib/text-token-parser.ts:81-90 | text tokens are non-empty and never adjacent |
| Tokenizing.TokensGenuine | app/src/lib/text-token-parser.ts:116-256 | every other token is a known emoji, an issue or login of the repository's site, or a web address |
| Tokenizing.LinksDoStartWords | app/src/lib/text-token-parser.ts:181-230 | a mention, or a web address shown in full, never follows text that ends inside a word |
| TokensDescribed.RecognizedIff | app/src/lib/text-token-parser.ts:94-256 | at every place a token is recognized exactly when the word there is a web address, the name of a known emoji, an issue number or a login as described without the scanners, punctuation left off included |
| TokensDescribed.ShownIs | app/src/lib/text-token-parser.ts:232-255 | an address is shown as `#` and the digits of its first issue number exactly when it starts, in lower case, with the repository's issues address and has one; otherwise in full |
| TokensDescribed.TokensAreAsDescribed | app/src/lib/text-token-parser.ts:272-355 | for every text each token that is not text is what the word at its place stands for, and at no place of a text token does a word stand for anything |
| WrapCommitMessage.WrapRichTextCommitMessage | app/src/lib/wrap-rich-text-commit-message.ts:34-107 | the loop with its remainder computes the described summary and overflow, ellipses and the blank lines before the body included |
| WrapCommitMessage.WrapCutsOnce | app/src/lib/wrap-rich-text-commit-message.ts:45-93 | for every token list and limit the list is cut at one place: before a token that has no room and may not be cut there, or inside text or a link of which more than five characters stay, both parts leading to the text it showed |
| WrapCommitMessage.WrapConserves | app/src/lib/wrap-rich-text-commit-message.ts:45-93 | summary followed by overflow shows the tokens' text in order, and the summary's width, an emoji counting 2, is at most the limit |
| WrapCommitMessage.AtomsStayWhole | app/src/lib/wrap-rich-text-commit-message.ts:66-92 | an emoji or `#` link is never split |
| WrapCommitMessage.NothingOverflowsIffFits | app/src/lib/wrap-rich-text-commit-message.ts:47-58 | nothing overflows exactly when the tokens fit |
| WrapCommitMessage.EllipsisIffTooWide | app/src/lib/wrap-rich-text-commit-message.ts:95-104 | both parts get their ellipsis exactly when the summary is wider than the limit; the body is then the ellipsis, the overflow and, after a blank line, all tokens of the body text if it has any; otherwise both are the tokens unchanged |
| WrapCommitMessage.MessageConserved | app/src/lib/wrap-rich-text-commit-message.ts:95-104 | nothing of a message is lost: without ellipses and blank line, summary and body show the summary text's tokens and then the body text's tokens |
| Paging.NextPageFollows | app/src/lib/api.ts:720-758 | the next path asks for exactly the item after those received, whether or not the size grows; a size in 1..100 never falls or passes 100, and it doubles, up to 100, exactly when the items received are a whole number of pages of the new size |
| Paging.UnreadableLinkIsKept | app/src/lib/api.ts:733-735 | a link without a page size or page is followed as it is |
| Paging.NextPathFollows | app/src/lib/api.ts:1731-1733 | there is a next path exactly while items are left, and it starts where the last page ended |
| Paging.FetchAll | app/src/lib/api.ts:1711-1737 | the loop always holds the prefix before the page it asks for, and returns or fails as the description says |
| Paging.FetchesPrefix | app/src/lib/api.ts:1718-1736 | the result is a prefix of the collection, and all of it when nothing fails or stops the fetch |
| Paging.RequestsDouble | app/src/lib/api.ts:737-755 | while doubling stays within 100, each request after the first is the second page of half of what it completes |
| Paging.RequestsFollow | app/src/lib/api.ts:720-758 | on every collection with items left after request n, the server's answer to it leads to request n+1, which asks for exactly the items that follow |
| Paging.FetchReaches | app/src/lib/api.ts:1716-1734 | after n requests that succeed and go on, fetching stands at request n with everything before it received |
| Paging.FetchEnds | app/src/lib/api.ts:1718-1736 | what fetching returns at the first request that does not go on: everything received before when it fails and errors are suppressed, an error when not, all items when none are left, everything so far when the caller stops, its error when it gives up |
| Paging.SomeRequestIsLast | app/src/lib/api.ts:1718-1734 | for every collection some request is the first that does not go on, so `FetchEnds` says what every fetch returns |
| Paging.DeliveryDoubles | app/src/lib/api.ts:690-755 | the first j+1 of the requests that `RequestsFollow` describes deliver 2^j times the start size while that is at most 100 |
| Paging.BufferDoubles | app/src/lib/api.ts:1711-1737 | for every collection, start size in 1..100 and j with 2^j times the size at most 100 and at most the collection: after j+1 requests `fetchAll` holds exactly that many first items, which is what the caller is asked about, and what is returned if it stops or they are all |
| Paging.RequestsGoOn | app/src/lib/api.ts:1718-1734 | when no request fails and the caller always wants more, the requests that `BufferDoubles` speaks of do go on, on every collection that is long enough |
| UpdatedPullRequests.FetchUpdatedPullRequests | app/src/lib/api.ts:1164-1216 | fetches with growing pages from 10, stops, aborts and filters as described |
| UpdatedPullRequests.UpdatesAreComplete | app/src/lib/api.ts:1181-1211 | a call that does not throw returns every strictly newer item of a sorted collection, nothing older, in order and without repeats, although it stops early |
| UpdatedPullRequests.RequestsAreAsListed | app/src/lib/api.ts:690-704 | the requests are those of the documented table, on every collection and beyond the table |
| UpdatedPullRequests.ThrowsIff | app/src/lib/api.ts:1193-1204 | for every limit, exactly when the call throws although every request succeeds |
| UpdatedPullRequests.DefaultLimitThrowsIff | app/src/lib/api.ts:1160-1171 | with the default limit: exactly when there are over 320 items and the first 240 are strictly newer, so always when more than 320 are strictly newer |
| UpdatedPullRequests.OtherLimitsMayNotThrow | app/src/lib/api.ts:1160-1162 | six strictly newer pull requests and a limit of five for which the call does not throw |
| UpdatedPullRequests.OnOrAfterIff | app/src/lib/api.ts:1149-1211 | a call that does not throw returns every item updated on or after `since` exactly when the first page that does not end with a strictly newer item does not end between two items updated exactly at it |
| UpdatedPullRequests.UpdatedAtSinceAreCut | app/src/lib/api.ts:1149-1162 | 321 pull requests updated exactly at `since`: with the default limit the call does not throw and returns 10 |
| PopupManagement.PopupManager.AddPopup | app/src/lib/popup-manager.ts:91-110 | an error goes last with a new id; a type already present is refused and changes nothing; another popup keeps its id or gets the new one and stands right before the first error; one over the limit the oldest goes; the invariant is kept, and the popup returned is on the stack exactly under the condition of `AddedIsOnStackIff` |
| PopupManagement.AddedIsOnStackIff | app/src/lib/popup-manager.ts:91-158 | from every good stack the popup that adding returns is on the stack exactly when, for an error, the limit is not 0; for a type already present, that very popup was there; otherwise, there is room or the oldest popup is no error |
| PopupManagement.FullOfErrorsDropsAdded | app/src/lib/popup-manager.ts:85-110 | a stack full of errors, and a popup that is returned but not on the stack |
| PopupManagement.PopupManager.InsertBeforeErrorPopups | app/src/lib/popup-manager.ts:113-124 | exactly the new popup is added to what was there, and when errors are last it stands right before the first of them with nothing else moved |
| PopupManagement.PopupManager.AddErrorPopup | app/src/lib/popup-manager.ts:131-136 | a new error popup is last |
| PopupManagement.PopupManager.CheckStackLength | app/src/lib/popup-manager.ts:138-158 | within the limit nothing changes, one over it exactly the oldest goes and the limit is met; the popup shown stays unless none is left |
| PopupManagement.FindId | app/src/lib/popup-manager.ts:170-174 | the first popup with the id; -1 exactly when there is none |
| PopupManagement.PopupManager.UpdatePopup | app/src/lib/popup-manager.ts:164-181 | the popup given is then at the place of the first with its id and every other place is as before; without an id or a match nothing changes; the invariant is kept when the type is |
| PopupManagement.PopupManager.RemovePopup | app/src/lib/popup-manager.ts:186-192 | every popup stays as often as it was there, except those with its id, none when it has no id, which are all gone; the order is kept, and so is the invariant |
| PopupManagement.PopupManager.RemovePopupByType | app/src/lib/popup-manager.ts:197-199 | every popup stays as often as it was there, except those of the type, which are all gone; the order is kept, and so is the invariant |
| PopupManagement.PopupManager.RemovePopupById | app/src/lib/popup-manager.ts:204-206 | every popup stays as often as it was there, except those with the id, which are all gone; the order is kept, and so is the invariant |
| PopupManagement.StepKeeps | app/src/lib/popup-manager.ts:91-206 | every operation, updates keeping the type, keeps the limit, errors last, and other types single |
| PopupManagement.StepKeepsOrder | app/src/lib/popup-manager.ts:91-206 | among errors, and among the others, those that stay keep their order and a new one comes last |
| PopupManagement.RunsKeepInvariant | app/src/lib/popup-manager.ts:91-206 | both, over every run |
| PopupManagement.ErrorsAreShownFirst | app/src/lib/popup-manager.ts:50-52 | the popup shown is an error whenever there is one |
| StatusParser.ParsePorcelainStatus | app/src/lib/status-parser.ts:51-95 | the loop over tokens, which takes a second token for a rename, returns what reading them from the front gives, with the four errors |
| StatusParser.MatchPrinted | app/src/lib/status-parser.ts:98-149 | matching printed fields gives back the fields and the whole path, spaces included |
| StatusParser.EntryParses | app/src/lib/status-parser.ts:97-165 | a changed, renamed or unmerged entry is accepted, with its path and codes, exactly when it is printed as documented, and is an error otherwise; a renamed one also needs an old path |
| StatusParser.FirstIs | app/src/lib/status-parser.ts:72-92 | by its first characters a token is a header, one of the four kinds of entries or skipped; a renamed entry takes the next token as its old path |
| StatusParser.TokensAreRead | app/src/lib/status-parser.ts:70-94 | every token is read in order, a skipped one does not end the reading, and the first error is the result |
| StatusParser.RecordParses | app/src/lib/status-parser.ts:72-92 | the tokens of a record, whatever follows, are read as that record; a rename's old path is never taken for an entry or header |
| StatusParser.PrintedStatusParses | app/src/lib/status-parser.ts:51-177 | round trip: every list of headers and entries as git prints it is read back in order, ignored paths dropped |
| CarriageReturn.TypeParts | app/src/lib/parse-carriage-return.ts:29-36 | typing parts with a carriage return before each leaves the line the fold computes |
| CarriageReturn.ShowsWhatATerminalShows | app/src/lib/parse-carriage-return.ts:20-38 | for every text, on the fast path too, the result is what a terminal shows that is given the text character by character |
| RedirectFilter.SameOriginFilter.OnBeforeRequest | app/src/main-process/same-origin-filter.ts:40-52 | after every run of events that is followed by this one, each request still has the origin of its first non-exempt hop since it last completed; an origin once remembered is not replaced, and no other request's changes |
| RedirectFilter.SameOriginFilter.OnBeforeSendHeaders | app/src/main-process/same-origin-filter.ts:54-72 | after every run of events: all headers when the hop is to the first origin or there is none, otherwise exactly those outside the unsafe set with their values; nothing is forgotten |
| RedirectFilter.SameOriginFilter.OnCompleted | app/src/main-process/same-origin-filter.ts:74-76 | after every run of events that is followed by this one, the request has no origin, and every other request keeps its own |
| RedirectFilter.RemembersFirstOrigin | app/src/main-process/same-origin-filter.ts:40-76 | over every run of events an id remembers the origin of its first non-exempt hop since it last completed |
| RedirectFilter.HopsPassSafeHeaders | app/src/main-process/same-origin-filter.ts:54-72 | over every run, hops to that origin keep all headers, hops elsewhere pass on exactly those whose lower-case name is not authentication, authorization or cookie |
| RedirectFilter.ListenerSet.AddEventListener | app/src/main-process/ordered-webrequest.ts:73-82 | a new listener is last, a known one stays where it is |
| RedirectFilter.ListenerSet.RemoveEventListener | app/src/main-process/ordered-webrequest.ts:84-89 | exactly that listener goes and the others keep their order; the subscription is given up with the last one |
| RedirectFilter.OnBeforeRequest | app/src/main-process/ordered-webrequest.ts:140-158 | the answer is that of the first listener that cancels or redirects, otherwise of the last one |
| RedirectFilter.OnBeforeSendHeaders | app/src/main-process/ordered-webrequest.ts:160-187 | the fold hands each listener the headers the ones before it left, and stops at a cancel |
| RedirectFilter.FoldIsCalls | app/src/main-process/ordered-webrequest.ts:160-187 | the fold as calls: each listener that does not cancel hands on to the next, with the headers it left, several values joined by commas; the last details handed on are returned |
| RedirectFilter.NextFilterSeesPassed | app/src/main-process/ordered-webrequest.ts:166-183 | what the next filter sees of a hop is what the same-origin filter passes on |
| RedirectFilter.InstalledFiltersAddOnly | app/src/main-process/main.ts:335-344 | with the filters in their installed order, a header of a hop to another origin is a safe one unchanged or one the later filters add for this hop |

## Left out

- The expansion type of hunks, `maxLineNumber` and the hidden bidirectional character flag of parsed diffs: they are read nowhere in the modelled code.
- `DiffSelection`: a predicate on absolute indices stands for it.
- A no-newline marker is part of a line, and applying a patch compares it, but a file is a sequence of lines and not of bytes.
- The parser does not compare header counts with the body, and neither does the model; applying a patch does.
- Numbers are unbounded: what happens to a number too large for a double is not modelled.
- Strings are sequences of characters, not of UTF-16 units; lower-casing is an arbitrary function.
- CodeMirror modes are deterministic functions of the lines, the position and their state; that a mode's name may be missing is an empty name.
- Labels, accelerators and access keys of menu items, and the conversion from Electron menus. Items are values: where the code compares item identity the model compares values, which with unique ids is the same.
- Which app state enables which menu item (`getRepositoryMenuBuilder` and its kind are parameters): convergence holds for every wanted state.
- The order in which a map's entries are sent: the message is any list that says what the map says.
- The two main loops of the tokenizer, which differ in whether a repository is known, are one step.
- URLs and Link headers are the page and page size they name. A page or size the parser could not read is missing.
- Servers serve the size that is asked for and a collection that does not change meanwhile. Which requests fail is a predicate.
- `onPage` and other callbacks of `fetchAll` that only report.
- `uuid()` is a parameter of adding a popup; reporting a dropped popup is not modelled.
- `mapStatus` and the submodule status table.
- Addresses of requests are their protocol and origin. The response headers fold, listener sets without an answer and `onErrorOccurred`.
- The send-headers fold returns the details it has built, as the code does, so that a listener's cancel is not passed on.
- Promises, message passing between processes, the network, the file system, Electron and the user interface.
