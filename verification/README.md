# YAF.NET forum core, modelled in Dafny

This project models the parts of the YAF.NET forum (Yet Another Forum.NET) that carry logic of their own, and proves properties of that model. The pieces are:

- **Forbidden-tag detectors** (`YafFormatMessage.BBCodeForbiddenDetector`, `HtmlTagForbiddenDetector`, `CheckHtmlTags`). These are the character scanners that find the first `[...]` or `<...>` token of a message that no entry of a delimited allow-list names. The detectors are written as loop methods. They are proved equal to a functional reference: a tokenizer followed by a search for the first rejected token.
- **Message formatter helpers** (`YafFormatMessage`):
  - smiley-code escaping and smiley rule ranks (`AddSmiles`);
  - the right-to-left edit loops of `RepairHtml`, `SurroundWordList` and `RemoveHtmlByList`, all driven by `MatchAndPerformAction`;
  - the keyword list of `GetCleanedTopicMessage`;
  - the nofollow aging of `FormatMessage`.
- **BBCode rule set** (`YafBBCode`): which rules `CreateBBCodeRules` puts into the engine for each combination of flags, and with which ranks. Also covered:
  - `AddCustomBBCodeRules`;
  - the engine cache behind `MakeHtml` and `ConvertBBCodeToHtmlForEdit`;
  - the rewrite loop of `LocalizeCustomBBCodeElement`.
- **Reply tree** (`MessageRepositoryExtensions`): `Move`, `MoveRecursively`, the two `Delete` overloads, `DeleteRecursively`, `UpdateFlags`, `GetAllUserMessages`, and the date clamp of `FindUnreadAsDataTable`. Each operation runs over a message store that is a finite map from id to row.
- **Buddies** (`YafBuddy`): `IsBuddy`, `ApproveAllRequests` and `DenyAllRequests`, plus the cache-clearing order of the four mutators.
- **Board folders** (`YafBoardFolders`): the board folder and the seven folders derived from it.

Every operation is a pure function over immutable data, or a method proved equal to one. Everything the code gets from the framework comes in as a parameter:

- the clock;
- the current user;
- database results;
- localization lookups;
- HTML encoding;
- the accepted-tag test;
- the smiley link builder;
- board settings.

| file | module | what it holds |
|---|---|---|
| `text.dfy` | `Text` | `Option`; ASCII upper/lower case; .NET `Trim`, `Split(char)`, ordinal `Contains`; decimal formatting of integers with its parse-back |
| `forbidden_tags.dfy` | `ForbiddenTags` | both tag detectors, their functional reference, `CheckHtmlTags` |
| `smilies.dfy` | `Smilies` | smiley-code escaping, smiley rules and ranks |
| `keywords.dfy` | `Keywords` | the keyword pipeline of `GetCleanedTopicMessage` |
| `matching.dfy` | `Matching` | the matches of the few regular expressions a plain scanner can describe: one-character-class patterns and `<.*?>` |
| `edits.dfy` | `Edits` | applying non-overlapping edits from the last to the first, the same edits read left to right, and their undo |
| `format_edits.dfy` | `FormatEdits` | `MatchAndPerformAction`, the line-feed repair and final step of `RepairHtml`, `RemoveHtmlByList`, `SurroundWordList` |
| `bbcode_rules.dfy` | `BBCodeRules` | `CreateBBCodeRules`, `AddCustomBBCodeRules`, the engine cache, the rule part of `FormatMessage` |
| `localization.dfy` | `Localization` | the `[localization=tag]default[/localization]` scanner and the rewrite loop |
| `reply_tree.dfy` | `ReplyTree` | the message store, reply chains, acyclicity, the post-order traversal of a subtree |
| `messages.dfy` | `MessageRepository` | move, delete, flags, user messages, the last-read clamp |
| `buddy.dfy` | `Buddy` | buddy rows, `IsBuddy`, the mutators as effect sequences |
| `board_folders.dfy` | `BoardFolders` | board folder paths |

Source paths below are relative to the repository root.

## Model

| member | source | states |
|---|---|---|
| ForbiddenTags.AsWrittenLimit | yafsrc/YAF.Core/Services/YafFormatMessage.cs:164 | Both detectors look for a closing bracket only below the last index of the message. |
| ForbiddenTags.FirstCloseSpec | yafsrc/YAF.Core/Services/YafFormatMessage.cs:164-170 | The inner loop stops at the first closing bracket at or after the opening one and below the bound. It finds none only when there is none in that stretch. |
| ForbiddenTags.FirstCloseIs | yafsrc/YAF.Core/Services/YafFormatMessage.cs:164-170 | A closing bracket with no other between the opening bracket and it is the one the inner loop stops at. |
| ForbiddenTags.FirstCloseFound | yafsrc/YAF.Core/Services/YafFormatMessage.cs:164-170 | A closing bracket anywhere below the bound means the inner loop finds one. |
| ForbiddenTags.AllowedSnoc | yafsrc/YAF.Core/Services/YafFormatMessage.cs:177-195 | A token is accepted by the entries plus `t` exactly when the entries accept it or `t` names it. |
| ForbiddenTags.TokenAt | yafsrc/YAF.Core/Services/YafFormatMessage.cs:156-170 | A token that starts at `pos` ends at a closing bracket after `pos` and below the bound. |
| ForbiddenTags.Tokens | yafsrc/YAF.Core/Services/YafFormatMessage.cs:154-205 | The tokens examined from `pos` lie between `pos` and the bound. |
| ForbiddenTags.TokensAreTokens | yafsrc/YAF.Core/Services/YafFormatMessage.cs:156-170 | Every examined token opens with an opening bracket and ends at the first closing bracket after it. |
| ForbiddenTags.TokensOrdered | yafsrc/YAF.Core/Services/YafFormatMessage.cs:156-205 | Examined tokens come left to right without overlapping, since the scan resumes after each accepted token's closing bracket. |
| ForbiddenTags.TokensCover | yafsrc/YAF.Core/Services/YafFormatMessage.cs:154-205 | No opening bracket with a closing bracket after it is skipped: each lies within some examined token. |
| ForbiddenTags.TokensExist | yafsrc/YAF.Core/Services/YafFormatMessage.cs:154-170 | Tokens are examined exactly when the message holds an opening bracket followed by a closing bracket below the bound. |
| ForbiddenTags.FirstRejectedCons | yafsrc/YAF.Core/Services/YafFormatMessage.cs:177-213 | On a token list given as head and rest: `"ALL"` if the list is empty; otherwise the rest is searched when the head is named, and the head's whole text is reported when it is not. |
| ForbiddenTags.FirstRejectedSpec | yafsrc/YAF.Core/Services/YafFormatMessage.cs:177-213 | The search reports nothing exactly when every token is named. Otherwise it reports the first unnamed token, and every token before it is named. |
| ForbiddenTags.AllNamedCons | yafsrc/YAF.Core/Services/YafFormatMessage.cs:177-205 | A token list is named throughout exactly when its first token is named and so are the rest. |
| ForbiddenTags.ScanAtToken | yafsrc/YAF.Core/Services/YafFormatMessage.cs:183-213 | At a closed token: `"ALL"` when the list string is empty. Otherwise the scan resumes after the closing bracket when some entry names the token, and the token is reported when none does. |
| ForbiddenTags.UpperText | yafsrc/YAF.Core/Services/YafFormatMessage.cs:181-184 | The character loop builds exactly the upper-cased text of `s[from..to]`. |
| ForbiddenTags.FindClose | yafsrc/YAF.Core/Services/YafFormatMessage.cs:164-170 | The inner loop's stopping index is the first closing bracket below the last index. When there is none, it is the last index. |
| ForbiddenTags.ExamineToken | yafsrc/YAF.Core/Services/YafFormatMessage.cs:172-199 | The loop over the list returns `"ALL"` exactly when the list string is empty. It finds a naming entry exactly when some entry's trimmed upper-cased text, after `[` or `[/`, occurs in the token. |
| ForbiddenTags.ExamineAt | yafsrc/YAF.Core/Services/YafFormatMessage.cs:159-220 | One turn of the outer loop at an opening bracket agrees with the reference. A report is the reference's answer; an accepted token moves the scan past its closing bracket; an unclosed bracket moves it one position. |
| ForbiddenTags.DetectForbidden | yafsrc/YAF.Core/Services/YafFormatMessage.cs:141-227 | The loop nest returns exactly what the tokenizer and the first-rejected search give under the source's bound. |
| ForbiddenTags.BBCodeForbiddenDetector | yafsrc/YAF.Core/Services/YafFormatMessage.cs:141-227 | `BBCodeForbiddenDetector` is the reference over `[`/`]` with the source's bound. |
| ForbiddenTags.HtmlTagForbiddenDetector | yafsrc/YAF.Core/Services/YafFormatMessage.cs:541-624 | `HtmlTagForbiddenDetector` is the same reference over `<`/`>`. |
| ForbiddenTags.ReportedToken | yafsrc/YAF.Core/Services/YafFormatMessage.cs:154-226 | With a non-empty list string: nothing is reported exactly when every examined token is named. Otherwise the report is the whole text of the first unnamed token, and every token before it is named. |
| ForbiddenTags.EmptyListMeansAll | yafsrc/YAF.Core/Services/YafFormatMessage.cs:144-191 | With an empty list string the answer is `"ALL"` or nothing. It is `"ALL"` exactly when the message holds a closed bracket pair. |
| ForbiddenTags.NoPairNoReport | yafsrc/YAF.Core/Services/YafFormatMessage.cs:154-226 | With no opening bracket followed by a closing one below the bound, nothing is reported, whatever the list. |
| ForbiddenTags.WholeShape | yafsrc/YAF.Core/Services/YafFormatMessage.cs:211 | A token's reported text has at least two characters, starts with the opening bracket and ends with the closing one. |
| ForbiddenTags.ReportShape | yafsrc/YAF.Core/Services/YafFormatMessage.cs:159-211 | A report is the whole text of a token of the message, from its opening bracket to the first closing bracket after it. |
| ForbiddenTags.NonEmptyListNeverAll | yafsrc/YAF.Core/Services/YafFormatMessage.cs:144-211 | With a non-empty list string the answer is never `"ALL"`. |
| ForbiddenTags.BlankEntryAllowsEverything | yafsrc/YAF.Core/Services/YafFormatMessage.cs:194 | A list entry that is blank after trimming names every token, so nothing is ever reported. |
| ForbiddenTags.TokensPastLimit | yafsrc/YAF.Core/Services/YafFormatMessage.cs:164 | No token starts at or past the bound. |
| ForbiddenTags.FirstCloseAgrees | yafsrc/YAF.Core/Services/YafFormatMessage.cs:164-170 | The closing-bracket search reads nothing at or past its bound. |
| ForbiddenTags.TokensReadBelowLimit | yafsrc/YAF.Core/Services/YafFormatMessage.cs:154-170 | The tokenizer reads nothing at or past its bound. |
| ForbiddenTags.FirstRejectedReadsBelowLimit | yafsrc/YAF.Core/Services/YafFormatMessage.cs:177-213 | The search reads only the text of the tokens. |
| ForbiddenTags.ScanReadsBelowLimit | yafsrc/YAF.Core/Services/YafFormatMessage.cs:154-226 | Two messages that agree below the bound get the same answer. |
| ForbiddenTags.LastCharacterIgnored | yafsrc/YAF.Core/Services/YafFormatMessage.cs:164 | As written, the last character of a message never changes what either detector reports. (The same code is at line 564.) |
| ForbiddenTags.AsWrittenMissesFinalTag | yafsrc/YAF.Core/Services/YafFormatMessage.cs:164 | As written, `"[img]"` and `"<img>"` pass an allow-list of only `b`, because their closing bracket is the last character. (The same code is at line 564.) |
| ForbiddenTags.IntendedReportsFinalTag | yafsrc/YAF.Core/Services/YafFormatMessage.cs:164 | With the bound at the message's length, the same inputs are reported as `"[IMG]"` and `"<IMG>"`. (The same code is at lines 211, 564, 608.) |
| ForbiddenTags.IntendedSeesEveryToken | yafsrc/YAF.Core/Services/YafFormatMessage.cs:154-226 | With the corrected bound, every closed bracket pair lies in an examined token. With a non-empty list string, nothing is reported exactly when every token is named. |
| ForbiddenTags.CheckOutcome | yafsrc/YAF.Core/Services/YafFormatMessage.cs:247-257 | `CheckHtmlTags` gives the empty string exactly when the detector answers null or empty. It gives `HTMLTAG_FORBIDDEN` exactly on `"ALL"`, and `HTMLTAG_WRONG` with the detected tag otherwise. |
| ForbiddenTags.CheckHtmlTagsClean | yafsrc/YAF.Core/Services/YafFormatMessage.cs:244-258 | `CheckHtmlTags` runs the detector as written. A message passes exactly when the accepted tags name every `<...>` token closed before the last character; with an empty list, exactly when it has no such `<...>` pair. A wrong tag is always a whole `<...>` token of the message. |
| ForbiddenTags.CheckHtmlTagsIntendedClean | yafsrc/YAF.Core/Services/YafFormatMessage.cs:244-258 | The same check on the corrected detector (see Findings): a message passes exactly when the accepted tags name every `<...>` token up to the end. |
| ForbiddenTags.CheckHtmlTagsMissesFinalTag | yafsrc/YAF.Core/Services/YafFormatMessage.cs:246 | As written, `CheckHtmlTags("<img>", "b", ',')` gives the empty string; the corrected check reports `<IMG>`. |
| Smilies.ReplaceCharAppend | yafsrc/YAF.Core/Services/YafFormatMessage.cs:97-100 | `String.Replace` of one character works piece by piece over a concatenation. |
| Smilies.ReplaceCharAbsent | yafsrc/YAF.Core/Services/YafFormatMessage.cs:97-100 | `String.Replace` leaves a string without the character unchanged. |
| Smilies.ReplaceCharRemoves | yafsrc/YAF.Core/Services/YafFormatMessage.cs:97-100 | After `String.Replace`, the replaced character survives only where the replacement brings it in, and no other character appears that neither input had. |
| Smilies.EscapeCodeIsEach | yafsrc/YAF.Core/Services/YafFormatMessage.cs:97-100 | The four replacements, ampersand first, escape each character on its own: `&`, `>`, `<` and `"` become their entities and nothing is escaped twice. |
| Smilies.AmpersandFirstMatters | yafsrc/YAF.Core/Services/YafFormatMessage.cs:97-100 | The order matters: `>` becomes `&gt;`, while replacing the ampersand last would give `&amp;gt;`. |
| Smilies.EscapeRoundTrip | yafsrc/YAF.Core/Services/YafFormatMessage.cs:97-100 | Escaping loses nothing: decoding the four entities gives the smiley code back. |
| Smilies.EscapedIsSafe | yafsrc/YAF.Core/Services/YafFormatMessage.cs:97-100 | An escaped smiley code holds no `<`, `>` or `"`. |
| Smilies.AddSmiles | yafsrc/YAF.Core/Services/YafFormatMessage.cs:87-121 | The smiley rules go after the rules already collected, two per smiley, and those earlier rules are unchanged. |
| Smilies.SmileyRules | yafsrc/YAF.Core/Services/YafFormatMessage.cs:94-121 | Each smiley gives exactly two rules. |
| Smilies.SmileyRuleAt | yafsrc/YAF.Core/Services/YafFormatMessage.cs:94-121 | Smiley `k` gives its lower-case rule at position `2k` and its upper-case rule at `2k+1`, both ranked `base + 100 + k`. |
| Smilies.SmileyRankAt | yafsrc/YAF.Core/Services/YafFormatMessage.cs:114-121 | Rule `n` carries rank `base + 100 + n/2`. |
| Smilies.SmileyRanksIncrease | yafsrc/YAF.Core/Services/YafFormatMessage.cs:114-121 | Both rules of one smiley share a rank, and the rules of a later smiley rank strictly higher. |
| Keywords.DropPunctuation | yafsrc/YAF.Core/Services/YafFormatMessage.cs:495-497 | Only characters that are not punctuation, or that are white space, survive. |
| Keywords.CleanedHasNoPunctuation | yafsrc/YAF.Core/Services/YafFormatMessage.cs:495-497 | The cleaned, trimmed and lower-cased text holds no punctuation. |
| Keywords.Candidates | yafsrc/YAF.Core/Services/YafFormatMessage.cs:502-507 | A word is a candidate exactly when it is a word of the text, is at least five UTF-16 code units long (as .NET's `Length` counts them), does not start with a number character (`Char.IsNumber`: a digit, `¹`, `²`, `³`, `¼`, `½` or `¾`) and is not a common word. |
| Keywords.Distinct | yafsrc/YAF.Core/Services/YafFormatMessage.cs:506-507 | `Distinct()` keeps the same words, each once. |
| Keywords.LessIrreflexive | yafsrc/YAF.Core/Services/YafFormatMessage.cs:510 | No word sorts before itself in ordinal order. |
| Keywords.LessTotal | yafsrc/YAF.Core/Services/YafFormatMessage.cs:510 | Of two different words, one sorts before the other. |
| Keywords.LessTransitive | yafsrc/YAF.Core/Services/YafFormatMessage.cs:510 | Ordinal order is transitive. |
| Keywords.LessAsymmetric | yafsrc/YAF.Core/Services/YafFormatMessage.cs:510 | Two words never sort before each other. |
| Keywords.Insert | yafsrc/YAF.Core/Services/YafFormatMessage.cs:510 | One insertion step adds exactly the new word and keeps the list strictly increasing. |
| Keywords.Sort | yafsrc/YAF.Core/Services/YafFormatMessage.cs:510 | `List.Sort()` of a repeat-free list gives a permutation of it in strictly increasing ordinal order. |
| Keywords.KeywordList | yafsrc/YAF.Core/Services/YafFormatMessage.cs:513-516 | A message gets at most fifty keywords. |
| Keywords.AstralWordQualifies | yafsrc/YAF.Core/Services/YafFormatMessage.cs:506 | Word length is counted in UTF-16 code units: a word of three characters outside the Basic Multilingual Plane is six units long and qualifies. |
| Keywords.KeywordsQualify | yafsrc/YAF.Core/Services/YafFormatMessage.cs:495-517 | Keywords exist only when the cleaned text is longer than five UTF-16 code units. The list is strictly increasing, so it is sorted without repeats. Every keyword is a qualifying word of the cleaned text that starts with neither punctuation nor a number character. |
| Keywords.KeywordsComplete | yafsrc/YAF.Core/Services/YafFormatMessage.cs:499-517 | A qualifying word is missing from the list only when the list is full at fifty and every keyword sorts before it. |
| Keywords.SplitPieces | yafsrc/YAF.Core/Services/YafFormatMessage.cs:502 | Every character of a word comes from the text. |
| Matching.WordPattern | yafsrc/YAF.Core/Services/YafFormatMessage.cs:755 | The pattern for a word compares each of its characters without regard to case. |
| Matching.OrderedBounds | yafsrc/YAF.Core/Services/YafFormatMessage.cs:824 | The matches `Regex.Matches` reports lie in the text, in order and without overlap. |
| Matching.FindAll | yafsrc/YAF.Core/Services/YafFormatMessage.cs:662 | Every reported match has the pattern's length and matches there, and the matches come in order without overlap. (The same code is at lines 668, 824.) |
| Matching.FindAllCovers | yafsrc/YAF.Core/Services/YafFormatMessage.cs:662 | No match is missed: every place where the pattern matches lies within a reported match. (The same code is at lines 668, 824.) |
| Matching.FindAllEmpty | yafsrc/YAF.Core/Services/YafFormatMessage.cs:662-668 | Nothing is reported exactly when the pattern matches nowhere. |
| Matching.TagClose | yafsrc/YAF.Core/Services/YafFormatMessage.cs:851 | The lazy `.*?` in `<.*?>` ends at the first `>`, provided no line feed comes before it. |
| Matching.TagCloseFinds | yafsrc/YAF.Core/Services/YafFormatMessage.cs:851 | The first `>` with no line feed before it is the end found. |
| Matching.FindTags | yafsrc/YAF.Core/Services/YafFormatMessage.cs:851 | The tag matches come in order without overlap, each at least two characters long. |
| Matching.TagCloseTag | yafsrc/YAF.Core/Services/YafFormatMessage.cs:851 | A `<` followed by the end the lazy match finds is a tag: a `>` with no `>` or line feed between. |
| Matching.FindTagsAreTags | yafsrc/YAF.Core/Services/YafFormatMessage.cs:851 | Every tag match runs from a `<` to the first `>` after it, with no line feed between. |
| Matching.FindTagsCovers | yafsrc/YAF.Core/Services/YafFormatMessage.cs:851 | Every tag in the text overlaps a reported match. |
| Matching.TagReported | yafsrc/YAF.Core/Services/YafFormatMessage.cs:851 | A scan that reaches the start of a tag reports it. |
| Edits.SpliceLength | yafsrc/YAF.Core/Services/YafFormatMessage.cs:665 | Applying non-overlapping edits changes the length by the sum of what each edit adds. (The same code is at lines 759-760, 857.) |
| Edits.SortedFrom | yafsrc/YAF.Core/Services/YafFormatMessage.cs:824 | A suffix of a sorted edit list is sorted from its first edit on. |
| Edits.SpliceShift | yafsrc/YAF.Core/Services/YafFormatMessage.cs:824 | The unedited text before the first edit is kept as it is. |
| Edits.ApplyStep | yafsrc/YAF.Core/Services/YafFormatMessage.cs:663-666 | One turn of a right-to-left loop leaves every index still to come valid, and keeps the text in step with the left-to-right reading. (The same code is at lines 826-830.) |
| Edits.ApplyRightToLeft | yafsrc/YAF.Core/Services/YafFormatMessage.cs:663-666 | Applying the edits from the last to the first, each on the current text, gives the same text as reading them left to right. (The same code is at lines 826-830.) |
| Edits.UndoSplice | yafsrc/YAF.Core/Services/YafFormatMessage.cs:663-666 | The undo edits of an edit list are sorted, and applying them to the result gives back the input. |
| Edits.UndoSpliceStep | yafsrc/YAF.Core/Services/YafFormatMessage.cs:663-666 | The first undo edit puts back the text the first edit replaced. |
| Edits.UndoRestores | yafsrc/YAF.Core/Services/YafFormatMessage.cs:663-666 | Applying edits and then their undo, both right to left, restores the text, so the edit loops lose nothing. (The same code is at lines 759-760, 857.) |
| FormatEdits.Visited | yafsrc/YAF.Core/Services/YafFormatMessage.cs:824-830 | The loop makes at most one call per match. |
| FormatEdits.VisitedFails | yafsrc/YAF.Core/Services/YafFormatMessage.cs:828 | The loop fails exactly when some match is empty, because `Substring(index + 1, length - 1)` throws. It stops at the last empty match, after one call for each match to its right. |
| FormatEdits.VisitedCalls | yafsrc/YAF.Core/Services/YafFormatMessage.cs:824-829 | Calls go to the matches from the right: match `j` gets call `\|ms\| - 1 - j`, and it is not empty. |
| FormatEdits.VisitedInside | yafsrc/YAF.Core/Services/YafFormatMessage.cs:828 | Every call is for a non-empty match inside the text. |
| FormatEdits.VisitedDescending | yafsrc/YAF.Core/Services/YafFormatMessage.cs:824 | Calls go by strictly decreasing position. |
| FormatEdits.Calls | yafsrc/YAF.Core/Services/YafFormatMessage.cs:828-829 | Each call gets the match's text after its first character, trimmed and lower-cased, with the match's index and length. |
| FormatEdits.AfterFirst | yafsrc/YAF.Core/Services/YafFormatMessage.cs:665-671 | Each match asks for `" \r"` inserted right after its first character. |
| FormatEdits.AfterFirstSorted | yafsrc/YAF.Core/Services/YafFormatMessage.cs:662-671 | Those insertions do not overlap and come in order. |
| FormatEdits.RepairLineFeedsRightToLeft | yafsrc/YAF.Core/Services/YafFormatMessage.cs:662-672 | The two passes, each inserting from the last match to the first, give the left-to-right reading of the insertions. |
| FormatEdits.RepairPassInserts | yafsrc/YAF.Core/Services/YafFormatMessage.cs:662-672 | A pass adds two characters per match. Taking the inserted text out again gives back the pass's input. |
| FormatEdits.InsertGrowth | yafsrc/YAF.Core/Services/YafFormatMessage.cs:665-671 | Each insertion adds two characters. |
| FormatEdits.LoneLineFeedExample | yafsrc/YAF.Core/Services/YafFormatMessage.cs:662-666 | A lone line feed, as in `"a\nb"`, gets `" \r"` in front of it. |
| FormatEdits.NoLineFeedNoMatch | yafsrc/YAF.Core/Services/YafFormatMessage.cs:662-668 | Neither pattern matches a text without a line feed. |
| FormatEdits.NoLineFeedUnchanged | yafsrc/YAF.Core/Services/YafFormatMessage.cs:662-672 | A text without a line feed is left as it is by both passes. |
| FormatEdits.RepairHtmlSteps | yafsrc/YAF.Core/Services/YafFormatMessage.cs:658-685 | Without HTML the repaired text is HTML-encoded; with HTML, the tags the accepted list rejects are removed. A text with HTML allowed and no line feed or `<` comes back unchanged. |
| FormatEdits.Removals | yafsrc/YAF.Core/Services/YafFormatMessage.cs:851-858 | At most one removal per tag. |
| FormatEdits.RemovalsSorted | yafsrc/YAF.Core/Services/YafFormatMessage.cs:851-858 | The removals do not overlap and come in order. |
| FormatEdits.Tags | yafsrc/YAF.Core/Services/YafFormatMessage.cs:851 | The tags of `<.*?>` are in order, inside the text, and not empty. |
| FormatEdits.TagTexts | yafsrc/YAF.Core/Services/YafFormatMessage.cs:828 | Each tag gives one inner text, which the accepted-tag test at line 855 is asked about. |
| FormatEdits.RemoveHtmlByListRightToLeft | yafsrc/YAF.Core/Services/YafFormatMessage.cs:845-862 | Visiting the tags from the last to the first and removing each rejected one gives the left-to-right reading of the removals. |
| FormatEdits.RemoveHtmlByListRemoves | yafsrc/YAF.Core/Services/YafFormatMessage.cs:845-862 | Removal shortens the text by exactly the lengths of the rejected tags, and putting them back restores the text. |
| FormatEdits.RemovalGrowth | yafsrc/YAF.Core/Services/YafFormatMessage.cs:857 | Each removal shortens the text by its length. |
| FormatEdits.RemovalsIffRejected | yafsrc/YAF.Core/Services/YafFormatMessage.cs:855-857 | A tag is removed exactly when the accepted-tag test rejects it. |
| FormatEdits.RemoveHtmlByListKeeps | yafsrc/YAF.Core/Services/YafFormatMessage.cs:845-862 | The text is unchanged exactly when the test accepts every tag. |
| FormatEdits.RemovalsShorten | yafsrc/YAF.Core/Services/YafFormatMessage.cs:855-857 | Rejecting a tag removes at least one character. |
| FormatEdits.NoOpenNoTags | yafsrc/YAF.Core/Services/YafFormatMessage.cs:851 | A text without `<` has no tag. |
| FormatEdits.Wrap | yafsrc/YAF.Core/Services/YafFormatMessage.cs:759-760 | Each match asks for two insertions: the prefix before it and the postfix after it. |
| FormatEdits.WrapSorted | yafsrc/YAF.Core/Services/YafFormatMessage.cs:759-760 | Those insertions do not overlap and come in order. |
| FormatEdits.SurroundWordRightToLeft | yafsrc/YAF.Core/Services/YafFormatMessage.cs:752-761 | Inserting the postfix and then the prefix at each match, from the last match to the first, gives the left-to-right reading of the insertions. |
| FormatEdits.SurroundWordInserts | yafsrc/YAF.Core/Services/YafFormatMessage.cs:752-761 | Surrounding a word adds the prefix and the postfix once per match, and taking them out again gives back the message. |
| FormatEdits.WrapGrowth | yafsrc/YAF.Core/Services/YafFormatMessage.cs:759-760 | Each match grows the message by the prefix and postfix lengths. |
| FormatEdits.ShortWordsIgnored | yafsrc/YAF.Core/Services/YafFormatMessage.cs:752 | Words of three UTF-16 code units or fewer are never surrounded. |
| FormatEdits.AstralWordSurrounded | yafsrc/YAF.Core/Services/YafFormatMessage.cs:752 | A word of two characters outside the Basic Multilingual Plane is four code units long, so it is surrounded. |
| BBCodeRules.CustomRules | yafsrc/YAF.Core/BBCode/YafBBCode.cs:529-557 | No more rules than rows. |
| BBCodeRules.IsSetSpec | yafsrc/YAF.Core/BBCode/YafBBCode.cs:535-537 | A pattern or variable list counts as set exactly when it is present and holds a character that is not white space. Null, empty and all-blank strings are not set. |
| BBCodeRules.EligibleRows | yafsrc/YAF.Core/BBCode/YafBBCode.cs:535-536 | The rows that give a rule are exactly those that do not use a module and have a search pattern that is not blank. |
| BBCodeRules.CustomRulesPerRow | yafsrc/YAF.Core/BBCode/YafBBCode.cs:535-556 | Each eligible row gives exactly one rule, in table order. |
| BBCodeRules.CustomRulesMatchRows | yafsrc/YAF.Core/BBCode/YafBBCode.cs:535-556 | Every custom rule is ranked 50 and carries its row's search and replace patterns. It is a variable rule exactly when the row sets `Variables`, and those variables are split on `;`. |
| BBCodeRules.IneligibleRowsIgnored | yafsrc/YAF.Core/BBCode/YafBBCode.cs:535-536 | Rows that use a module or lack a search pattern give no rule. |
| BBCodeRules.CustomRulesShape | yafsrc/YAF.Core/BBCode/YafBBCode.cs:547-553 | Every custom rule is a custom kind of rank 50. |
| BBCodeRules.SmileyRules | yafsrc/YAF.Core/Services/YafFormatMessage.cs:94-121 | Each smiley gives two engine rules. |
| BBCodeRules.CreateBlocks | yafsrc/YAF.Core/BBCode/YafBBCode.cs:325-521 | A rule is in the set exactly when it belongs to a block the flags switch on: code always, formatting with `doFormatting`, smileys always, quotes with `convertBBQuotes`, post and topic always. |
| BBCodeRules.ConcatShaped | yafsrc/YAF.Core/BBCode/YafBBCode.cs:325-521 | Blocks of well-shaped rules concatenate into a well-shaped set. |
| BBCodeRules.StyleShaped | yafsrc/YAF.Core/BBCode/YafBBCode.cs:357-362 | The bold, strike, italic, underline and highlight rules fit a set that formats. |
| BBCodeRules.LinkShaped | yafsrc/YAF.Core/BBCode/YafBBCode.cs:364-403 | The e-mail and URL rules fit a set that formats, and the URL rules carry the set's link attributes. |
| BBCodeRules.FontShaped | yafsrc/YAF.Core/BBCode/YafBBCode.cs:405-425 | The font and color rules fit a set that formats. |
| BBCodeRules.ListShaped | yafsrc/YAF.Core/BBCode/YafBBCode.cs:427-432 | The bullet and list rules fit a set that formats. |
| BBCodeRules.AlignImageShaped | yafsrc/YAF.Core/BBCode/YafBBCode.cs:434-451 | The alignment and image rules fit a set that formats. |
| BBCodeRules.HrBrShaped | yafsrc/YAF.Core/BBCode/YafBBCode.cs:457-464 | `hr` keeps its class's default rank and `br` ranks one above it. |
| BBCodeRules.CustomShaped | yafsrc/YAF.Core/BBCode/YafBBCode.cs:454 | The custom rules fit a set that formats. (The same code is at lines 529-556.) |
| BBCodeRules.FixedShaped | yafsrc/YAF.Core/BBCode/YafBBCode.cs:357-451 | The fixed formatting rules fit a set that formats. |
| BBCodeRules.FormattingShaped | yafsrc/YAF.Core/BBCode/YafBBCode.cs:355-465 | The formatting block holds formatting kinds only, its links carry the set's attributes, and `hr` and `br` have their ranks. |
| BBCodeRules.SmileyBlock | yafsrc/YAF.Core/BBCode/YafBBCode.cs:468 | The smiley block holds smiley rules only. |
| BBCodeRules.SmileyShaped | yafsrc/YAF.Core/BBCode/YafBBCode.cs:468 | The smiley rules fit every set, whatever its flags. |
| BBCodeRules.CodeShaped | yafsrc/YAF.Core/BBCode/YafBBCode.cs:339-353 | The code and font-size rules fit every set, whatever its flags. |
| BBCodeRules.QuoteShaped | yafsrc/YAF.Core/BBCode/YafBBCode.cs:470-512 | The quote rules fit every set that converts quotes. |
| BBCodeRules.PostTopicShaped | yafsrc/YAF.Core/BBCode/YafBBCode.cs:515-521 | The post and topic rules carry the set's target. |
| BBCodeRules.CreateShape | yafsrc/YAF.Core/BBCode/YafBBCode.cs:325-521 | Every rule of every set fits its flags: formatting kinds only with `doFormatting`, quotes only with `convertBBQuotes`, links and post/topic rules with the set's attributes, `br` one above `hr`, and never an automatic link rule. |
| BBCodeRules.FormattingOnlyWhenAsked | yafsrc/YAF.Core/BBCode/YafBBCode.cs:355-465 | A formatting rule is in the set exactly when `doFormatting` is set, and then all of them are, custom rules included. |
| BBCodeRules.FormattingNeedsFlag | yafsrc/YAF.Core/BBCode/YafBBCode.cs:355 | A formatting rule in the set implies `doFormatting`. |
| BBCodeRules.FormattingAllThere | yafsrc/YAF.Core/BBCode/YafBBCode.cs:355-465 | With `doFormatting`, every formatting rule is in the set. |
| BBCodeRules.QuotesOnlyWhenAsked | yafsrc/YAF.Core/BBCode/YafBBCode.cs:470-512 | A quote rule is in the set exactly when `convertBBQuotes` is set, and then all three are. |
| BBCodeRules.AlwaysPresent | yafsrc/YAF.Core/BBCode/YafBBCode.cs:339-353 | The code, font-size, smiley, post and topic rules are in the set for every flag combination. (The same code is at lines 468, 515-521.) |
| BBCodeRules.BrRightAfterHr | yafsrc/YAF.Core/BBCode/YafBBCode.cs:457-464 | In every set, `br` ranks exactly one above `hr`, so `hr` runs first. |
| BBCodeRules.LinkAttributesAgree | yafsrc/YAF.Core/BBCode/YafBBCode.cs:327-330 | Links get `target="_blank"` exactly when `BlankLinks` or `targetBlankOverride` is set, and `rel="nofollow"` exactly when `useNoFollow` is set. (The same code is at lines 377-403, 515-520.) |
| BBCodeRules.Populate | yafsrc/YAF.Core/BBCode/YafBBCode.cs:234-243 | An engine that already has rules is returned unchanged. An empty one gets the new rules. No other engine of the cache changes. |
| BBCodeRules.MakeHtmlOnce | yafsrc/YAF.Core/BBCode/YafBBCode.cs:231-248 | A second `MakeHtml` with the same flags adds no rules and runs the same set. |
| BBCodeRules.ForEditKeepsQuotes | yafsrc/YAF.Core/BBCode/YafBBCode.cs:263-285 | The editor's conversion never gets a quote rule, so quotes stay as plain text. |
| BBCodeRules.Days | yafsrc/YAF.Core/Services/YafFormatMessage.cs:322-323 | `TimeSpan.Days` is the count of whole days, truncated toward zero. |
| BBCodeRules.NoFollowAsWrittenNeverAges | yafsrc/YAF.Core/Services/YafFormatMessage.cs:317-327 | As written, a message edited in the past never loses nofollow. |
| BBCodeRules.NoFollowAgingCounterexample | yafsrc/YAF.Core/Services/YafFormatMessage.cs:320-327 | A message edited a hundred days ago, on a board that drops nofollow after thirty days, keeps nofollow as written and loses it as intended. |
| BBCodeRules.DaysAbove | yafsrc/YAF.Core/Services/YafFormatMessage.cs:323 | More than `a` whole days is at least `a + 1` days of ticks. |
| BBCodeRules.NoFollowAges | yafsrc/YAF.Core/Services/YafFormatMessage.cs:317-327 | As intended, nofollow is on exactly when the board enables it and the last edit is fewer than `afterDays + 1` whole days ago (or aging is off). |
| BBCodeRules.NoFollowStaysOff | yafsrc/YAF.Core/Services/YafFormatMessage.cs:317-327 | Once a message has lost nofollow, it does not get it back as time passes. |
| BBCodeRules.AutoLinkFacts | yafsrc/YAF.Core/Services/YafFormatMessage.cs:343-405 | The e-mail rule is added, and all automatic link rules have rank 10 and the set's link attributes. |
| BBCodeRules.FormatMessage | yafsrc/YAF.Core/Services/YafFormatMessage.cs:315-338 | As written, a message last edited at or before now keeps the board's nofollow setting: it is repaired and formatted with the engine keyed by that setting. |
| BBCodeRules.FormatMessageFresh | yafsrc/YAF.Core/Services/YafFormatMessage.cs:333-406 | As written, a fresh engine for a message edited in the past gets the whole BBCode set for the board's nofollow setting, plus the e-mail rule and the automatic URL rules, ranked 10 and carrying nofollow exactly when the board uses it. |
| BBCodeRules.FormatMessageIntendedFresh | yafsrc/YAF.Core/Services/YafFormatMessage.cs:333-406 | With the corrected nofollow decision (see Findings), a fresh engine gets the BBCode set and the automatic link rules, whose links carry nofollow exactly as decided. |
| BBCodeRules.SharedEngine | yafsrc/YAF.Core/Services/YafFormatMessage.cs:333-338 | As written, `FormatMessage` for any message edited in the past runs the engine `MakeHtml` filled for the same flags. An engine that `MakeHtml` filled has no automatic link rule. |
| BBCodeRules.SharedEngineIntended | yafsrc/YAF.Core/Services/YafFormatMessage.cs:333-338 | With the corrected decision, the engine is shared with `MakeHtml` while nofollow is not aged away. |
| Localization.FoldsToLower | yafsrc/YAF.Core/BBCode/YafBBCode.cs:50-55 | Comparing without regard to case is comparing the lower-cased character. |
| Localization.FoldsFromSpec | yafsrc/YAF.Core/BBCode/YafBBCode.cs:50-55 | A literal is matched case-insensitively character by character. |
| Localization.FoldsAtMatches | yafsrc/YAF.Core/BBCode/YafBBCode.cs:50-55 | The literal matcher agrees with the case-insensitive pattern of a lower-case literal. |
| Localization.FoldsAtFirst | yafsrc/YAF.Core/BBCode/YafBBCode.cs:55 | An occurrence starts with a character that folds to the literal's first. |
| Localization.FirstBracket | yafsrc/YAF.Core/BBCode/YafBBCode.cs:55 | The `tag` group `[^\]]*` ends at a `]`. |
| Localization.FirstBracketSpec | yafsrc/YAF.Core/BBCode/YafBBCode.cs:55 | The `tag` group ends at the first `]`, and finds none only when there is none. |
| Localization.FirstBracketIs | yafsrc/YAF.Core/BBCode/YafBBCode.cs:55 | The first `]` is where the `tag` group ends. |
| Localization.FirstCloseTag | yafsrc/YAF.Core/BBCode/YafBBCode.cs:55 | The lazy `inner` group ends at an occurrence of the closing tag. |
| Localization.FirstCloseTagSpec | yafsrc/YAF.Core/BBCode/YafBBCode.cs:55 | The lazy `inner` group ends at the first closing tag, and there is none when none occurs. |
| Localization.FirstCloseTagIs | yafsrc/YAF.Core/BBCode/YafBBCode.cs:55 | The first closing tag is where the lazy group ends. |
| Localization.BlockAt | yafsrc/YAF.Core/BBCode/YafBBCode.cs:55 | A block matched at `p` starts at `p` and fits in the text. |
| Localization.BlockAtParts | yafsrc/YAF.Core/BBCode/YafBBCode.cs:55 | The anchored match consists of the opening literal, the tag up to the first `]`, and a non-empty inner text up to the first closing tag. |
| Localization.BlockAtIs | yafsrc/YAF.Core/BBCode/YafBBCode.cs:55 | Where the pattern matches, the anchored matcher reports its index, length, tag and inner groups. (The same code is at lines 660-661.) |
| Localization.BlockAtFound | yafsrc/YAF.Core/BBCode/YafBBCode.cs:55 | The anchored matcher finds a block only where the pattern matches. |
| Localization.FindBlock | yafsrc/YAF.Core/BBCode/YafBBCode.cs:654-673 | `Regex.Match` finds a block within the text. |
| Localization.FindBlockFound | yafsrc/YAF.Core/BBCode/YafBBCode.cs:654-673 | The block found is the leftmost one. |
| Localization.FindBlockNone | yafsrc/YAF.Core/BBCode/YafBBCode.cs:654-673 | When no block is found, none starts anywhere. |
| Localization.PastEnd | yafsrc/YAF.Core/BBCode/YafBBCode.cs:55 | No block starts past the end. |
| Localization.NoBlockUnchanged | yafsrc/YAF.Core/BBCode/YafBBCode.cs:654-677 | A text is returned unchanged exactly when it holds no block. |
| Localization.LocalizeFound | yafsrc/YAF.Core/BBCode/YafBBCode.cs:655-674 | One round replaces the leftmost block and searches the rewritten text from the start. |
| Localization.LocalizedHasNoBlock | yafsrc/YAF.Core/BBCode/YafBBCode.cs:654-677 | Whatever the loop returns holds no block. |
| Localization.MoreFuel | yafsrc/YAF.Core/BBCode/YafBBCode.cs:654-677 | More rounds never change an answer already reached. |
| Localization.StepShrinks | yafsrc/YAF.Core/BBCode/YafBBCode.cs:663-672 | A round whose localized text holds no `[` removes at least two `[`. |
| Localization.FoundShrinks | yafsrc/YAF.Core/BBCode/YafBBCode.cs:655-674 | The same for the leftmost block. |
| Localization.SpliceShrinks | yafsrc/YAF.Core/BBCode/YafBBCode.cs:663-672 | Replacing a stretch that holds two `[` by text with fewer `[` than its inner part leaves at least two `[` fewer. |
| Localization.LocalizeEnds | yafsrc/YAF.Core/BBCode/YafBBCode.cs:654-677 | When no localized text holds a `[`, the loop ends within as many rounds as the text has `[`. |
| Localization.BlockTextIsBlock | yafsrc/YAF.Core/BBCode/YafBBCode.cs:55 | A text `[localization=tag]d[/localization]` is one block from end to end, with tag `tag` and inner text `d`. |
| Localization.SelfReferenceNeverEnds | yafsrc/YAF.Core/BBCode/YafBBCode.cs:654-674 | When the localized text for a tag is a block for that same tag, the loop never ends. |
| Localization.LocalizationTags | yafsrc/YAF.Core/BBCode/YafBBCode.cs:55 | The literals of the source's pattern are lower-case, non-empty and start with `[`. |
| Localization.LoopingNeverEnds | yafsrc/YAF.Core/BBCode/YafBBCode.cs:654-674 | A concrete language entry whose text is its own block makes `LocalizeCustomBBCodeElement` loop forever. |
| ReplyTree.AncHigher | yafsrc/YAF.Core/Model/MessageRepositoryExtensions.cs:898-911 | Going up the reply chain strictly raises the height. |
| ReplyTree.LayeredAcyclic | yafsrc/YAF.Core/Model/MessageRepositoryExtensions.cs:898-911 | A store with such a height has no cycle of replies, so the recursion can terminate. |
| ReplyTree.AncStep | yafsrc/YAF.Core/Model/MessageRepositoryExtensions.cs:901 | One more step up from a message is a step from its parent. |
| ReplyTree.AncCompose | yafsrc/YAF.Core/Model/MessageRepositoryExtensions.cs:901 | Going up `n` steps and then `m` steps is going up `n + m` steps. |
| ReplyTree.AncSplit | yafsrc/YAF.Core/Model/MessageRepositoryExtensions.cs:901 | A chain going up `n` steps passes every shorter length. |
| ReplyTree.AncHeight | yafsrc/YAF.Core/Model/MessageRepositoryExtensions.cs:898-911 | Heights never go down along a chain. |
| ReplyTree.ShrinksLayered | yafsrc/YAF.Core/Model/MessageRepositoryExtensions.cs:870-885 | A store that lost rows stays acyclic. |
| ReplyTree.ShrinksAnc | yafsrc/YAF.Core/Model/MessageRepositoryExtensions.cs:870-885 | A reply chain in the smaller store is one in the larger. |
| ReplyTree.SortedIds | yafsrc/YAF.Core/Model/MessageRepositoryExtensions.cs:407 | The ids of a set, each once, ascending. (The same code is at lines 827, 901.) |
| ReplyTree.Replies | yafsrc/YAF.Core/Model/MessageRepositoryExtensions.cs:407 | `Get(m => m.ReplyTo == id)` is exactly the stored replies of `id`. (The same code is at lines 827, 901.) |
| ReplyTree.BelowStep | yafsrc/YAF.Core/Model/MessageRepositoryExtensions.cs:901-905 | A message strictly below `x` is below one of the replies of `x`. |
| ReplyTree.BelowChild | yafsrc/YAF.Core/Model/MessageRepositoryExtensions.cs:901-905 | What is below a reply of `x` is below `x`. |
| ReplyTree.BelowParent | yafsrc/YAF.Core/Model/MessageRepositoryExtensions.cs:901-905 | A reply of a message in the subtree of `x` is below `x`. |
| ReplyTree.SiblingsDisjoint | yafsrc/YAF.Core/Model/MessageRepositoryExtensions.cs:903-906 | The subtrees of two different replies of a message share nothing. |
| ReplyTree.SiblingsApart | yafsrc/YAF.Core/Model/MessageRepositoryExtensions.cs:903-906 | A chain from a reply's subtree climbs to the parent's height before it reaches a different message. |
| ReplyTree.OrderCovers | yafsrc/YAF.Core/Model/MessageRepositoryExtensions.cs:898-911 | The recursion visits exactly the subtree of the message. |
| ReplyTree.OrderAllCovers | yafsrc/YAF.Core/Model/MessageRepositoryExtensions.cs:903-906 | The loop over replies visits exactly their subtrees. |
| ReplyTree.OrderDistinct | yafsrc/YAF.Core/Model/MessageRepositoryExtensions.cs:898-911 | Each message of the subtree is visited exactly once. |
| ReplyTree.OrderAllDistinct | yafsrc/YAF.Core/Model/MessageRepositoryExtensions.cs:903-906 | The loop over replies visits each message once. |
| ReplyTree.PostOrderAppend | yafsrc/YAF.Core/Model/MessageRepositoryExtensions.cs:903-906 | Post-orders combine when the first part holds every reply of its members. |
| ReplyTree.OrderClosed | yafsrc/YAF.Core/Model/MessageRepositoryExtensions.cs:898-911 | The traversal holds every reply of its members. |
| ReplyTree.OrderPostOrder | yafsrc/YAF.Core/Model/MessageRepositoryExtensions.cs:898-911 | Every reply is handled before the message it replies to. |
| ReplyTree.OrderAllPostOrder | yafsrc/YAF.Core/Model/MessageRepositoryExtensions.cs:903-906 | The loop over replies handles replies first. |
| ReplyTree.PostOrderIndex | yafsrc/YAF.Core/Model/MessageRepositoryExtensions.cs:898-911 | In a post-order without repeats, a reply sits earlier than its parent. |
| ReplyTree.OrderRepliesFirst | yafsrc/YAF.Core/Model/MessageRepositoryExtensions.cs:898-911 | In the traversal of a subtree, every reply comes before the message it replies to. |
| ReplyTree.RepliesSame | yafsrc/YAF.Core/Model/MessageRepositoryExtensions.cs:901 | Stores with the same reply links give the same replies. |
| ReplyTree.OrderFrame | yafsrc/YAF.Core/Model/MessageRepositoryExtensions.cs:898-911 | The traversal depends only on the reply links inside the subtree. |
| ReplyTree.OrderAllFrame | yafsrc/YAF.Core/Model/MessageRepositoryExtensions.cs:903-906 | The loop depends only on the reply links inside the subtrees. |
| MessageRepository.Effect | yafsrc/YAF.Core/Model/MessageRepositoryExtensions.cs:396-398 | A stored procedure touches only the row of its message and never its reply link. (The same code is at lines 870-885, 908-910.) |
| MessageRepository.EffectIdempotent | yafsrc/YAF.Core/Model/MessageRepositoryExtensions.cs:870-910 | Running a procedure twice on a row is running it once. |
| MessageRepository.Apply | yafsrc/YAF.Core/Model/MessageRepositoryExtensions.cs:396-398 | One call changes only the row of its message. (The same code is at lines 870-885, 908-910.) |
| MessageRepository.ApplyAllAppend | yafsrc/YAF.Core/Model/MessageRepositoryExtensions.cs:903-910 | Calls in sequence compose. |
| MessageRepository.ApplyAllRow | yafsrc/YAF.Core/Model/MessageRepositoryExtensions.cs:903-910 | After the calls, a row has had the procedure applied exactly when its id was called. |
| MessageRepository.ApplyShrinks | yafsrc/YAF.Core/Model/MessageRepositoryExtensions.cs:870-910 | A call keeps the reply links and never adds a row. |
| MessageRepository.ApplyAllShrinks | yafsrc/YAF.Core/Model/MessageRepositoryExtensions.cs:870-910 | The same for any sequence of calls. |
| MessageRepository.Walk | yafsrc/YAF.Core/Model/MessageRepositoryExtensions.cs:898-911 | The recursion keeps the reply links and never adds a row. |
| MessageRepository.WalkAll | yafsrc/YAF.Core/Model/MessageRepositoryExtensions.cs:903-906 | The loop over the replies keeps the reply links and never adds a row. |
| MessageRepository.WalkFollowsOrder | yafsrc/YAF.Core/Model/MessageRepositoryExtensions.cs:898-911 | The recursion, asking the store for replies as it goes, calls the procedure in the subtree's post-order, and the store is the original with those calls applied. |
| MessageRepository.WalkAllFollowsOrder | yafsrc/YAF.Core/Model/MessageRepositoryExtensions.cs:903-906 | The loop over the replies does the same for each reply's subtree in turn. |
| MessageRepository.OutsideSibling | yafsrc/YAF.Core/Model/MessageRepositoryExtensions.cs:903-906 | A message in one reply's subtree is not called while another reply's subtree is handled. |
| MessageRepository.RestAfterFirst | yafsrc/YAF.Core/Model/MessageRepositoryExtensions.cs:903-906 | After the first reply's subtree is handled, the other replies still are replies, with the same subtrees. |
| MessageRepository.SameRepliesAfter | yafsrc/YAF.Core/Model/MessageRepositoryExtensions.cs:903-906 | Handling one reply's subtree leaves another's reply links as they were. |
| MessageRepository.WalkEffect | yafsrc/YAF.Core/Model/MessageRepositoryExtensions.cs:898-911 | The recursion calls exactly the subtree, each message once, replies first, and no other row changes. |
| MessageRepository.SameShapeSub | yafsrc/YAF.Core/Model/MessageRepositoryExtensions.cs:908-910 | Stores with the same ids and reply links have the same subtrees. |
| MessageRepository.MoveKeepsShape | yafsrc/YAF.Core/Model/MessageRepositoryExtensions.cs:396-398 | Moving keeps every row and every reply link. (The same code is at lines 908-910.) |
| MessageRepository.MoveRecursivelyMovesSubtree | yafsrc/YAF.Core/Model/MessageRepositoryExtensions.cs:898-911 | `MoveRecursively` moves the whole subtree to the topic and changes nothing else, each message once, after its replies. |
| MessageRepository.MoveMoves | yafsrc/YAF.Core/Model/MessageRepositoryExtensions.cs:393-413 | `Move` moves the message first. With `moveAll` every transitive reply follows; without it only the message moves and its replies keep their topic. |
| MessageRepository.DeleteReaches | yafsrc/YAF.Core/Model/MessageRepositoryExtensions.cs:363-379 | With `deleteLinked` the procedure runs on exactly the subtree, each message once, replies before parents. Without it, it runs on the message alone. No other row changes. (The same code is at lines 812-886.) |
| MessageRepository.DeleteHardOrSoft | yafsrc/YAF.Core/Model/MessageRepositoryExtensions.cs:363-379 | `eraseMessage` removes exactly the reached rows. Otherwise every row stays, and the reached ones are marked deleted or undeleted with the reason. (The same code is at lines 870-885.) |
| MessageRepository.DeleteSoftKeepsRows | yafsrc/YAF.Core/Model/MessageRepositoryExtensions.cs:337-340 | The five-argument `Delete` always soft-deletes and never removes a row. |
| MessageRepository.EraseNeverDangles | yafsrc/YAF.Core/Model/MessageRepositoryExtensions.cs:824-876 | Replies are erased before their parent, so after every call of a linked hard delete no remaining message replies to an erased one. |
| MessageRepository.UnlinkedEraseOrphans | yafsrc/YAF.Core/Model/MessageRepositoryExtensions.cs:824-876 | Erasing without `deleteLinked` leaves the replies in place, still naming the erased message. |
| MessageRepository.UpdateFlags | yafsrc/YAF.Core/Model/MessageRepositoryExtensions.cs:305-310 | Only the `Flags` column changes, and only in the row with that id. |
| MessageRepository.UpdateFlagsRestores | yafsrc/YAF.Core/Model/MessageRepositoryExtensions.cs:305-310 | Writing back the old flags undoes the update. |
| MessageRepository.InsertByPosted | yafsrc/YAF.Core/Model/MessageRepositoryExtensions.cs:191 | One sorting step adds exactly the message and keeps the list newest first, with rows posted at the same time in the database's order. |
| MessageRepository.SortByPosted | yafsrc/YAF.Core/Model/MessageRepositoryExtensions.cs:191 | `OrderByDescending(m => m.Posted)` gives a permutation, newest first; it is stable, so rows posted at the same time keep the order the database returned them in. |
| MessageRepository.GetAllUserMessages | yafsrc/YAF.Core/Model/MessageRepositoryExtensions.cs:189-192 | Given the rows `Get(m => m.UserID == userId)` returns, each once and in an order the database chooses, the result is exactly the user's messages, newest first, with ties in the database's order. |
| MessageRepository.NewestUnique | yafsrc/YAF.Core/Model/MessageRepositoryExtensions.cs:191 | Two lists with the same messages, both newest first with ties in the database's order, are equal. |
| MessageRepository.NewestTail | yafsrc/YAF.Core/Model/MessageRepositoryExtensions.cs:191 | In such a list the head occurs once. |
| MessageRepository.UserMessagesSpec | yafsrc/YAF.Core/Model/MessageRepositoryExtensions.cs:189-192 | Any list of exactly the user's messages, newest first with ties in the database's order, is the result of `GetAllUserMessages`. |
| MessageRepository.TiesKeepDatabaseOrder | yafsrc/YAF.Core/Model/MessageRepositoryExtensions.cs:191 | Two of the user's rows posted at the same time come out in the order the database returned them. |
| MessageRepository.ClampLastRead | yafsrc/YAF.Core/Model/MessageRepositoryExtensions.cs:461-465 | The result is `DateTime.MinValue` only when the SQL minimum is, and any other last-read time is kept. |
| Buddy.HasRowSpec | yafsrc/YAF.Core/Services/YafBuddy.cs:245-258 | The row filter holds exactly when some row has that user id, and is approved when approval is asked for. |
| Buddy.IsBuddySpec | yafsrc/YAF.Core/Services/YafBuddy.cs:230-261 | `IsBuddy` holds exactly when the user is the current one, or the list is there and has a row for the user that is approved when approval is asked for. |
| Buddy.ApprovedIsBuddy | yafsrc/YAF.Core/Services/YafBuddy.cs:245-258 | An approved buddy is a buddy. |
| Buddy.Calls | yafsrc/YAF.Core/Services/YafBuddy.cs:162-166 | Leaving out the cache clears leaves at most as many effects. |
| Buddy.Issue | yafsrc/YAF.Core/Services/YafBuddy.cs:100 | A mutator clears the current user's cache and then the target's, before its one repository call. (The same code is at lines 139, 162-166, 197, 274.) |
| Buddy.AddRequest | yafsrc/YAF.Core/Services/YafBuddy.cs:98-106 | `AddRequest` clears both caches, then adds a request from the current user to the target. |
| Buddy.ApproveRequest | yafsrc/YAF.Core/Services/YafBuddy.cs:137-145 | `ApproveRequest` clears both caches, then approves the target's request to the current user with the `mutual` flag. |
| Buddy.DenyRequest | yafsrc/YAF.Core/Services/YafBuddy.cs:195-202 | `DenyRequest` clears both caches, then denies the target's request to the current user. |
| Buddy.Remove | yafsrc/YAF.Core/Services/YafBuddy.cs:272-279 | `Remove` clears both caches, then removes the target from the current user's buddies. |
| Buddy.CallsAppend | yafsrc/YAF.Core/Services/YafBuddy.cs:119-122 | Repository calls of effects in sequence are the calls of each part in sequence, as in the loops here and at lines 181-183. |
| Buddy.GuardedAppend | yafsrc/YAF.Core/Services/YafBuddy.cs:119-122 | Guarded effect sequences stay guarded when concatenated, as in the loops here and at lines 181-183. |
| Buddy.Pending | yafsrc/YAF.Core/Services/YafBuddy.cs:118 | The row filter keeps at most every row. (The same filter is at line 175.) |
| Buddy.PendingSpec | yafsrc/YAF.Core/Services/YafBuddy.cs:118 | The filter keeps exactly the unapproved rows whose `UserID` is the current user. (The same filter is at line 175.) |
| Buddy.Overdue | yafsrc/YAF.Core/Services/YafBuddy.cs:177-180 | The date filter keeps at most every row. |
| Buddy.OverdueSpec | yafsrc/YAF.Core/Services/YafBuddy.cs:180 | The date filter keeps exactly the rows whose request time plus fourteen days lies before now. |
| Buddy.ApproveEachSpec | yafsrc/YAF.Core/Services/YafBuddy.cs:119-122 | One approval per row, in row order, each behind its two cache clears. |
| Buddy.DenyEachSpec | yafsrc/YAF.Core/Services/YafBuddy.cs:181-183 | One denial per row, in row order, each behind its two cache clears. |
| Buddy.ApproveAllSpec | yafsrc/YAF.Core/Services/YafBuddy.cs:114-123 | `ApproveAllRequests` approves every pending request to the current user, each with its `FromUserID` and the same `mutual` flag, and nothing else. Every approval is guarded by cache clears. |
| Buddy.DenyAllSpec | yafsrc/YAF.Core/Services/YafBuddy.cs:171-184 | `DenyAllRequests` denies every pending request older than fourteen days, and nothing else. Every denial is guarded by cache clears. |
| BoardFolders.BoardFolder | yafsrc/YAF.Classes/YAF.Classes.Config/YafBoardFolders.cs:42-45 | The board folder starts with the board root. |
| BoardFolders.PathUnderBoard | yafsrc/YAF.Classes/YAF.Classes.Config/YafBoardFolders.cs:50-80 | Every folder is the board folder followed by its fixed suffix. |
| BoardFolders.ImageSuffix | yafsrc/YAF.Classes/YAF.Classes.Config/YafBoardFolders.cs:60-80 | The suffix of every image folder starts with `Images/`. |
| BoardFolders.ImageFoldersUnderImages | yafsrc/YAF.Classes/YAF.Classes.Config/YafBoardFolders.cs:55-80 | Avatars, Categories, Forums, Medals and Ranks all lie under `Images` followed by `/`. |
| BoardFolders.SuffixesDistinct | yafsrc/YAF.Classes/YAF.Classes.Config/YafBoardFolders.cs:50-80 | The seven suffixes differ pairwise. |
| BoardFolders.FoldersDistinct | yafsrc/YAF.Classes/YAF.Classes.Config/YafBoardFolders.cs:50-80 | The seven folders of one board differ pairwise. |
| BoardFolders.NoSlash | yafsrc/YAF.Classes/YAF.Classes.Config/YafBoardFolders.cs:44 | A formatted board id holds no `/`. |
| BoardFolders.FirstSlash | yafsrc/YAF.Classes/YAF.Classes.Config/YafBoardFolders.cs:44 | Two slash-free heads, each followed by `/`, that start the same string are equal. |
| BoardFolders.Apart | yafsrc/YAF.Classes/YAF.Classes.Config/YafBoardFolders.cs:44 | Under a common root, different slash-free heads followed by `/` start different strings. |
| BoardFolders.BoardsApart | yafsrc/YAF.Classes/YAF.Classes.Config/YafBoardFolders.cs:42-80 | With a folder per board, no folder of one board is a folder of another board. |
| BoardFolders.BoardsShare | yafsrc/YAF.Classes/YAF.Classes.Config/YafBoardFolders.cs:42-80 | Without it, every board uses the same folders, the root followed by the suffix. |
| Text.UpperAt | yafsrc/YAF.Core/Services/YafFormatMessage.cs:185-194 | `ToUpper` maps each character on its own. |
| Text.UpperSlice | yafsrc/YAF.Core/Services/YafFormatMessage.cs:183-186 | Upper-casing a slice is slicing the upper-cased text. |
| Text.UpperAppend | yafsrc/YAF.Core/Services/YafFormatMessage.cs:183-186 | Building the upper-cased text character by character gives the upper-cased whole. |
| Text.Utf16Length | yafsrc/YAF.Core/Services/YafFormatMessage.cs:499 | `String.Length` counts UTF-16 code units: at least one and at most two per character. |
| Text.Utf16LengthBmp | yafsrc/YAF.Core/Services/YafFormatMessage.cs:752 | The code-unit length equals the character count exactly when no character lies outside the Basic Multilingual Plane. |
| Text.Utf16LengthAppend | yafsrc/YAF.Core/Services/YafFormatMessage.cs:499 | Code-unit lengths add up over concatenation. |
| Text.LowerAt | yafsrc/YAF.Core/Services/YafFormatMessage.cs:497 | `ToLower` maps each character on its own. (The same code is at line 828.) |
| Text.TrimStartSpec | yafsrc/YAF.Core/Services/YafFormatMessage.cs:194 | `TrimStart` keeps the suffix starting at the first character that is not white space, and cuts only white space. (The same code is at line 497.) |
| Text.TrimEndSpec | yafsrc/YAF.Core/Services/YafFormatMessage.cs:194 | `TrimEnd` keeps the prefix ending at the last character that is not white space, and cuts only white space. (The same code is at line 497.) |
| Text.TrimSpec | yafsrc/YAF.Core/Services/YafFormatMessage.cs:194 | `Trim` keeps a piece of the input that neither starts nor ends with white space, and only white space is cut off. (The same code is at line 497.) |
| Text.JoinSplit | yafsrc/YAF.Core/Services/YafFormatMessage.cs:148 | Joining the pieces of `Split` with the delimiter gives the input back. (The same code is at line 548.) |
| Text.SplitCount | yafsrc/YAF.Core/Services/YafFormatMessage.cs:148 | There is one piece exactly when the delimiter does not occur. (The same code is at line 548.) |
| Text.SplitPieces | yafsrc/YAF.Core/Services/YafFormatMessage.cs:148 | No piece holds the delimiter. (The same code is at line 548.) |
| Text.SplitInverse | yafsrc/YAF.Core/Services/YafFormatMessage.cs:148 | Splitting loses nothing: the pieces are delimiter-free and joining them gives the input back. There is one piece exactly when the delimiter is absent. (The same code is at line 548.) |
| Text.ContainsOccurs | yafsrc/YAF.Core/Services/YafFormatMessage.cs:194 | `Contains` holds exactly when the needle occurs somewhere. (The same code is at line 591.) |
| Text.ContainsEmpty | yafsrc/YAF.Core/Services/YafFormatMessage.cs:194 | Every string contains the empty string. |
| Text.ContainsPrefix | yafsrc/YAF.Core/Services/YafFormatMessage.cs:194 | A string contains each of its prefixes. |
| Text.NatToString | yafsrc/YAF.Classes/YAF.Classes.Config/YafBoardFolders.cs:44 | A formatted natural number is a non-empty run of digits without a leading zero. |
| Text.DigitsRoundTrip | yafsrc/YAF.Classes/YAF.Classes.Config/YafBoardFolders.cs:44 | Reading the digits back gives the number. |
| Text.IntToString | yafsrc/YAF.Classes/YAF.Classes.Config/YafBoardFolders.cs:44 | A formatted integer is non-empty and starts with `-` exactly when the integer is negative. |
| Text.IntRoundTrip | yafsrc/YAF.Classes/YAF.Classes.Config/YafBoardFolders.cs:44 | Formatting an integer and parsing it back gives the integer. |
| Text.IntToStringInjective | yafsrc/YAF.Classes/YAF.Classes.Config/YafBoardFolders.cs:44 | Different board ids format differently. |
| Smilies.EscapeCodeAppend | yafsrc/YAF.Core/Services/YafFormatMessage.cs:97-100 | The four replacements work piece by piece over a concatenation. |
| Smilies.EscapeCodeOne | yafsrc/YAF.Core/Services/YafFormatMessage.cs:97-100 | On a single character the four replacements give that character's escape. |
| Smilies.EscapeEachRoundTrip | yafsrc/YAF.Core/Services/YafFormatMessage.cs:97-100 | Decoding the per-character escape gives the text back. |
| ForbiddenTags.NotNamed | yafsrc/YAF.Core/Services/YafFormatMessage.cs:194 | The entry `b` names neither `[IMG` nor `<IMG`. |
| Localization.FoldsExact | yafsrc/YAF.Core/BBCode/YafBBCode.cs:50-55 | An exact occurrence of a lower-case literal is a case-insensitive match. |

## Left out

- Regular expressions in general. The engine is not modelled. Only the patterns the core depends on are described, by scanners proved to find what the pattern finds: the two line-feed classes of `RepairHtml`, `<.*?>`, the case-insensitive word pattern of `SurroundWordList`, and the localization block. The replace rules of the BBCode engine keep their kind and rank only; their patterns and templates are left out.
- `ProcessReplaceRules.Process`, the rule engine run itself, and the bad-word replacement of `FormatMessage`: they belong to rule classes that are not part of this model.
- `RemoveNestedQuotes` and `RepairHtmlFeeds`: the first is one more regular expression, and the second repeats the line-feed passes of `RepairHtml` with only `a` accepted.
- `MakeMatchList` and `RegisterCustomBBCodePageElements`: they build strings for the page, with no logic beyond what is modelled.
- Matching.WordPattern: `ToRegExString` is a string helper whose code is not part of this model; the pattern is taken to match the lower-cased word literally, that is, as if `ToRegExString` escaped every regular-expression metacharacter of the word.
- Text.Utf16Length: strings are sequences of Unicode scalar values. A .NET string can also hold a lone surrogate code unit, which the model cannot represent. Lengths the code compares are counted in UTF-16 code units with `Text.Utf16Length`.
- Keywords.KeywordList: a cleaned text holding a lone surrogate cannot be represented; the `Length > 5` guard is modelled in UTF-16 code units.
- FormatEdits.ShortWordsIgnored: a word holding a lone surrogate cannot be represented; the `Length > 3` test is modelled in UTF-16 code units.
- Case mapping is ASCII only. Culture-specific `ToUpper`/`ToLower` mappings are left out.
- `char.IsPunctuation` is modelled for ASCII and Latin-1 punctuation only. Other Unicode punctuation classes are left out.
- Keywords.Candidates: `Char.IsNumber` is modelled on the Basic Latin and Latin-1 blocks (the digits, `¹`, `²`, `³`, `¼`, `½`, `¾`); number characters of other Unicode blocks, such as other scripts' digits, are not rejected by the model. Words holding a lone surrogate cannot be represented.
- Keywords.KeywordsQualify: "qualifies" uses that Latin-1 number test, so a keyword may still start with a number character from outside Latin-1. Words holding a lone surrogate cannot be represented.
- Keywords.KeywordsComplete: completeness is relative to the same Latin-1 number test, and to texts without lone surrogates.
- BBCodeRules.IsSet: the code of YAF's `IsSet` string extension is not part of this model. It is taken as `!string.IsNullOrWhiteSpace(s)`, with white space as defined by `Text.IsWhiteSpace`.
- Keywords.Sort: `List<string>.Sort()` compares with the current culture; the model sorts by ordinal character order, since culture collation tables are not part of this model. Ordinal order here compares Unicode scalar values, where .NET's ordinal order compares UTF-16 code units, so the two differ between characters above U+DFFF in the Basic Multilingual Plane and characters outside it.
- Keywords.Candidates: `StringToList(' ', commonWords)`, `GetNewNoEmptyStrings` and `GetNewNoSmallStrings(5)` are string helpers whose code is not part of this model. They are modelled as: split on spaces, drop the common words, drop empty words, and keep words of at least five UTF-16 code units.
- The cleaning steps of `GetCleanedTopicMessage` before the punctuation filter are left out: `CleanHtmlString`, `StripHtml`, `StripBBCode`, `RemoveMultipleWhitespace`. So are the cache lookup and the 255-character truncation of the message. The keyword list takes the cleaned text as its input.
- Stored procedures and SQL (`message_move`, `message_delete`, `message_deleteundelete`) are not part of this model. Each is taken as the row update its name and arguments describe: a topic change, a row removal, and the deleted flag with its reason.
- MessageRepository.GetAllUserMessages: the order in which the database returns the user's rows is not specified by the source, so it is a parameter (`db`); the result is stated relative to it, as `OrderByDescending` is a stable sort.
- ReplyTree.Layered: the reply-tree operations (`Walk`, `Order`, `MoveRecursively`, `Move`, `DeleteRecursively` and the `Delete` overloads) require a height function for the store, that is, a store with no cycle of `ReplyTo` links (`ReplyTree.LayeredAcyclic`). The source does not check this: on a cycle, such as message 1 replying to 2 and 2 replying to 1, `MoveRecursively` and `DeleteRecursively` recurse without end. The model does not describe that case.
- ReplyTree.Replies: the database returns `Get(m => m.ReplyTo == id)` in no particular order. The model fixes ascending ids, so proofs about call order assume that order.
- `DeleteRecursively` deletes attachment files from disk and swallows any error. File I/O and `UseFileTable` are left out, since they do not touch the message store.
- `DataTable`, `DataView` and row filters are modelled as sequences of records and list filters. The return values of the buddy repository calls, which are display names, are left out.
- `HttpContext`, `YafContext.Current`, the localization service, the cache of rule engines and the clock are parameters or explicit state. `DateTime` is a tick count with no kind or time zone.
- `HtmlHelper.IsValidTag` and `YafBBCode.EncodeHTML` are parameters: an accepted-tag test and an encoder.
- ForbiddenTags.CheckHtmlTags: `HTMLTAG_WRONG` is formatted with `HttpUtility.HtmlEncode` of the detected tag; the model's `WrongTag` carries the tag as detected, since the encoder and the localized texts are not part of this model.
- Localization.Localize: the loop of `LocalizeCustomBBCodeElement` need not end (`Localization.LoopingNeverEnds`). The model runs it with fuel and answers `None` when the fuel runs out while a block remains. `Localization.LocalizeEnds` names the fuel that suffices when no localized text holds a `[`.
- BoardFolders.BoardFolder: `string.Format` reads `Config.BoardRoot` as part of the format string. A board root holding `{` or `}` would be read as a format item or throw; the model treats the root as plain text.
- Text.IntToString models `string.Format("{0}", id)` for the invariant culture only.
- FormatEdits.Calls: `Trim().ToLower()` of the inner text use the ASCII case mapping and the .NET white-space set above.
- MessageRepository.ClampLastRead: `SqlDbMinTime()` is a parameter, so the contract only says that it replaces `DateTime.MinValue` and that every other time is kept.
- `DenyAllRequests` compares `Requested.AddDays(14)` with `DateTime.UtcNow`; the model adds fourteen days of ticks with no calendar or overflow handling.
- `FormatMessage` is modelled up to the rules engine: the nofollow decision as written (`BBCodeRules.FormatMessage`, with the corrected decision beside it as `BBCodeRules.FormatMessageIntended`), the HTML repair (`FormatEdits.RepairHtml`) and the engine with the rule set it builds. Running the engine and replacing bad words are left out, since their rule classes are not part of this model.
- The rest of the repository (pages, controls, the data layer, the other services) is not part of this model.

## Findings

| source | as written | input that shows it | evidently intended | confidence | as-written member | corrected member |
|---|---|---|---|---|---|---|
| yafsrc/YAF.Core/Services/YafFormatMessage.cs:164 | The inner loop of both forbidden-tag detectors (here and at line 564) runs `j < charray.Length - 1`, so it never looks at the last character. A tag whose closing bracket ends the message is never examined. | `BBCodeForbiddenDetector("[img]", "b", ',')` returns null, and `HtmlTagForbiddenDetector("<img>", "b", ',')` does too. | The loop runs to the end of the message, and these inputs are reported as `[IMG]` and `<IMG>`. | not executed | ForbiddenTags.AsWrittenMissesFinalTag | ForbiddenTags.IntendedReportsFinalTag |
| yafsrc/YAF.Core/Services/YafFormatMessage.cs:322-323 | The message age is `messageLastEdited - DateTime.UtcNow`. For any past edit this is zero or negative, so its `Days` never exceeds `DisableNoFollowLinksAfterDay` and nofollow is never dropped. | A message last edited 100 days ago, on a board with `UseNoFollowLinks` on and `DisableNoFollowLinksAfterDay` 30: nofollow stays. | The age is `DateTime.UtcNow - messageLastEdited`, and nofollow is dropped after 30 whole days. | not executed | BBCodeRules.NoFollowAgingCounterexample | BBCodeRules.NoFollowAges |
