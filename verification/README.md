# Elements of Style for TFLint, in Dafny

This project models the rules of the *elements of style* TFLint ruleset. Each
rule looks at the Terraform files of a module and emits issues: a message
plus the source range it applies to. The model covers both generations of
the code. The **current** rules live under `rules/<rule>/`. The **legacy**
rules are the flat files under `rules/`. Where the two generations differ, a
`Gen = Current | Legacy` parameter chooses one.

What is modelled:

- **Walker** (`Walk`). `WalkBlocks` turns the top-level blocks of every file
  into definitions: a range, a type, a name and a synonym. `locals` blocks
  yield one definition per attribute. The walker then runs every registered
  check on each definition. `WalkTokens` runs a token check on every lexed
  token of every file of the root module; a lex error fails the run.
- **Severity** (`Severity`). `ToSeverity` maps the `level` setting to
  notice, warning or error.
- **Comments** (`Comments`, `Jammed`). The block, end-of-line, jammed and
  length checks run on each comment token. The comment-to-content ratio
  check runs per file. Both generations' settings are modelled, including
  the legacy package-level jammed pattern.
- **Death mask** (`DeathMask`). Comment tokens are grouped into runs. Each
  run is unwrapped into lines, and a run whose suffix parses as code gets
  one issue.
- **DRY** (`Dry`, `DryBlocks`, `Grouping`). Repeated template interpolations
  without `count`/`each` are collected and grouped by source text. Duplicate
  `resource`/`data` blocks are keyed by kind plus name-sorted, whitespace-free
  attributes. Groups of at least the threshold are reported at their
  earliest range.
- **Heredoc** (`Heredoc`). The opener pattern `<<(-?)([a-zA-Z0-9]+)\s*$`
  yields the standard-heredoc issue and the `EOF`-delimiter issue.
- **Hungarian** (`Hungarian`). A name that starts with a tag, ends with it,
  or contains `_tag` gets one issue, for the first such tag.
- **Meta** (`Meta`, `MetaCount`, `MetaSource`, `MetaOrder`). The `count`
  guard accepts only a literal 0 or 1 (or a conditional of them). Module
  sources are classified as local, git, https, mercurial or registry, and
  version constraints are checked. Argument order is checked against
  first/last lists.
- **Naming** (`Naming`, `TypeEcho`). The checks are length, shouting and
  snake case, plus the type-echo check with its synonyms. The module also
  covers which checks a configuration selects.
- **Reminder** (`Reminder`). A comment whose upper-cased text has a space
  gets one issue for every configured tag found around the first space.

Conventions:

- Strings are sequences of Unicode scalar values. Go's byte length (`len`)
  is `Text.Utf8Len`.
- The DRY rule indexes file contents by byte offset, so there one string
  element stands for one byte.
- Go maps iterated with `range` (files, attributes) become sequences in an
  order the caller chooses.
- Lexer output is part of `Syntax.SourceFile`: `None` stands for a lex error.
- The HCL parse that the death-mask rule uses is a parameter
  `isCode: string -> bool`.
- Expression evaluation is a given `Option<Value>` on each attribute.
- Where the code and its comments disagree, the model follows the code.
  "## Findings" lists the three places where the code looks unintended.

## Model

| member | source | states |
|---|---|---|
| Walk.TypeAndName | internal/rulehelper/walk.go:37-51 | A block with two labels is named by them. With one label, the type is the block keyword and the name is the label. Otherwise the type is the keyword and the name is empty. |
| Walk.SynonymOf | internal/rulehelper/walk.go:53-59 | The synonym comes from the first block definition that lists the type and has a synonym. It is empty exactly when no definition gives one. |
| Walk.DefaultsHaveNoSynonym | internal/rulehelper/walk.go:22-31 | No entry in the default lintable block list supplies a synonym. |
| Walk.DefRange | internal/rulehelper/walk.go:114-122 | The definition range starts at the block keyword. It ends at the last label, or at the keyword when there are no labels. |
| Walk.DefRangeIsHeader | internal/rulehelper/walk.go:114-122 | The definition range lies in the block header, before the opening brace. |
| Walk.BlockDefOf | internal/rulehelper/walk.go:94-126 | A block's definition carries the header range, the type and name from its labels, and the synonym of its type. |
| Walk.VisitBlock | internal/rulehelper/walk.go:84-106 | A `locals` block yields one local definition per attribute. A block of a listed kind yields its definition. Any other block yields nothing. |
| Walk.VisitBlocksMember | internal/rulehelper/walk.go:65-131 | A definition is visited exactly when some top-level block yields it. |
| Walk.LocalsExpanded | internal/rulehelper/walk.go:84-91 | A `locals` block gives as many definitions as it has attributes. Each one carries an attribute's name and range. |
| Walk.NestedNotVisited | internal/rulehelper/walk.go:97-106 | Nested blocks never change what a top-level block yields, so only top-level blocks are walked. |
| Walk.WalkOneCheck | internal/rulehelper/walk.go:124-126 | With one registered check, the walk's issues are that check's issues for each visited definition, in visit order. |
| Walk.WalkSplitChecks | internal/rulehelper/walk.go:124-126 | Running two lists of checks together yields the union, as a multiset, of running each list alone. |
| Walk.WalkTokens | internal/rulehelper/walk.go:135-165 | A non-root module yields no issues and no failure. Otherwise the run fails exactly when some file does not lex. |
| Walk.FilePass | internal/rulehelper/walk.go:150-161 | The pass over files fails exactly when some file does not lex. |
| Walk.FilePassAll | internal/rulehelper/walk.go:150-161 | When every file lexes, the issues are each file's token-check issues concatenated in file order. |
| Walk.FilePassPrefix | internal/rulehelper/walk.go:150-157 | The files before a lex error keep the issues they already produced. |
| Walk.CheckTokensMember | internal/rulehelper/walk.go:159-161 | An issue comes from a file's tokens exactly when the check produces it for one of those tokens. |
| Severity.ToSeverity | internal/rulehelper/helper.go:18-27 | "notice" and "warning", in any letter case, map to notice and warning. Every other spelling, the empty one included, maps to error. |
| Severity.SeverityIgnoresCase | internal/rulehelper/helper.go:18-27 | The severity depends only on the lower-cased level text. |
| Severity.MixedCaseWarning | internal/rulehelper/helper.go:20-23 | "WaRnInG" is a warning. |
| Severity.UnknownIsError | internal/rulehelper/helper.go:24-26 | The empty level and an unknown level are errors. |
| Comments.PrevNonComment | rules/comment/comments.go:112-118 | The context token is the nearest earlier token that is not a comment. There is none exactly when every earlier token is a comment. |
| Comments.BlockIssues | rules/comment/comments_block.go:17-27 | A comment gets the block-comment issue exactly when the check is on and its text starts with `/*`. |
| Comments.EolIssues | rules/comment/comments_eol.go:15-33 | A comment gets the end-of-line issue exactly when the check is on and the context token is not a newline and ends on the comment's start line. |
| Comments.Snippet | rules/comment/comments_jammed.go:24-30 | The snippet is the first five characters of the trimmed text, or all of it when shorter. |
| Comments.JammedIssues | rules/comment/comments_jammed.go:18-37 | A comment gets the jammed issue exactly when the configured pattern matches its text, as the regular expression is written. |
| Comments.LineText | rules/comments_length.go:18 | The measured text is the comment without its trailing CR/LF characters. |
| Comments.LengthIssues | rules/comments_length.go:16-37 | A comment gets the length issue exactly when the column limit is positive, the URL bypass does not apply, and the comment ends past the column. |
| Comments.ColumnMonotone | rules/comments_length.go:28 | Raising the column limit never adds a length issue. |
| Comments.OnlyComments | rules/comment/comments.go:107-110 | Every per-token issue belongs to a comment token and sits at its range. |
| Comments.NoCommentsNoIssues | rules/comment/comments.go:107-110 | A file without comment tokens gets no per-token issues. |
| Comments.LastLine | rules/comment/comments_threshold.go:45-47 | A token that ends at the start of a later line counts only up to the line before that. |
| Comments.ContentLines | rules/comment/comments_threshold.go:37-54 | The content lines are the lines covered by tokens other than newlines and the end of file. |
| Comments.CommentLines | rules/comment/comments_threshold.go:49-54 | The comment lines are the lines covered by comment tokens. |
| Comments.CommentLinesWithin | rules/comment/comments_threshold.go:49-54 | Every comment line is a content line. |
| Comments.Ratio | rules/comment/comments_threshold.go:64-65 | The ratio lies between 0 and 1. It is 1 when every content line holds a comment. |
| Comments.RatioIssues | rules/comment/comments_threshold.go:60-70 | A file gets the ratio issue, at its start, exactly when it has content and its ratio is below the threshold. |
| Comments.ThresholdBounds | rules/comment/comments_threshold.go:60-70 | A threshold of at most 0 never reports. A fully commented file never reports under a threshold of at most 1. |
| Comments.ThresholdPass | rules/comment/comments_threshold.go:16-31 | Without a threshold there is no pass. With one, the pass fails exactly when some file does not lex. |
| Comments.Run | rules/comment/comments.go:91-127 | The per-comment pass fails exactly when some file does not lex. |
| Comments.CurrentSettings | rules/comment/comments.go:14-47 | The jammed check is on exactly when configured. It then uses the repeated-delimiter pattern. Without a length block, the column limit is 0. |
| Comments.PatternFor | rules/comments_jammed.go:33-41 | The repeated-delimiter pattern is chosen exactly when `tails` is set. |
| Comments.LegacyJammed | rules/comments_jammed.go:28-36 | An absent jammed block means the single-delimiter check. The check is off exactly when `enabled = false` is set. |
| Comments.Check | rules/comment/comments.go:62-86 | A disabled current rule does nothing. Otherwise the run fails exactly when some file does not lex. |
| Comments.DefaultsAgree | rules/comment/comments.go:37-47 | The current and legacy default configurations give the same settings. |
| Comments.SharedPatternStep | rules/comments_jammed.go:38-41 | A call without `tails` uses, and leaves behind, the single-delimiter pattern. A call with `tails` uses whatever pattern is left. |
| Comments.SharedPatterns | rules/comments_jammed.go:38-44 | A sequence of calls yields one pattern per call. |
| Comments.SharedPatternSticks | rules/comments_jammed.go:38-41 | Once one call has run without `tails`, every later call uses the single-delimiter pattern. |
| Comments.SharedPatternLeaks | rules/comments_jammed.go:38-44 | After a call without `tails`, a `tails` call flags `## x`, which its own pattern does not. |
| Comments.CallPatterns | rules/comments_jammed.go:33-41 | With the pattern chosen per call, there is one pattern per call. |
| Comments.CallsIndependent | rules/comments_jammed.go:33-41 | A per-call pattern ignores earlier calls. It is the repeated one exactly when the call sets `tails`. |
| Jammed.ScanIsMatch | rules/comment/comments_jammed.go:18 | The character scan agrees with the regular expression `^\s*(///*\|##*\|/\*\**)([^\s/#])`, and with `^\s*(//\|#\|/\*)\S` for the single pattern. |
| Jammed.JammedExamples | rules/comment/comments_jammed.go:18 | `#`, `##`, `//` or `///` followed by a non-space, non-`/`, non-`#` character is jammed. |
| Jammed.SpacedExamples | rules/comment/comments_jammed.go:18 | `# text` and `// text` are not jammed. |
| Jammed.DoubleHashExample | rules/comments_jammed.go:18-40 | `## x` is not jammed under the repeated pattern but is jammed under the single pattern. |
| Jammed.DocCommentFlaggedAsWritten | rules/comment/comments_jammed.go:18 | The expression as written flags `/** doc */`. The intended reading does not. |
| Jammed.SpacedBlockNeverJammed | rules/comment/comments_jammed.go:18 | Under the intended reading, `/*`, any run of stars and a space is never jammed. |
| DeathMask.Runs | rules/death_mask/death_mask.go:79-111 | Runs partition the file's comment tokens in order. A run breaks at a later start line or at any token other than a newline or the end of file. |
| DeathMask.GroupingUnique | rules/death_mask/death_mask.go:79-111 | Only one grouping of the comment tokens obeys the run rules. |
| DeathMask.FirstRunEndsAtCut | rules/death_mask/death_mask.go:87-94 | The first run ends at the first gap between consecutive comment tokens. |
| DeathMask.StripComment | rules/death_mask/death_mask.go:120-140 | `//` and `#` comments lose the marker and one space. A `/*` comment loses its delimiters and splits into lines. Anything else yields no lines. |
| DeathMask.LinesAppend | rules/death_mask/death_mask.go:118-141 | The lines of two token lists together are the lines of each, concatenated. |
| DeathMask.FirstCode | rules/death_mask/death_mask.go:143-154 | The result is the first suffix of lines that parses as code, or none when no suffix does. |
| DeathMask.RunRange | rules/death_mask/death_mask.go:156-162 | The issue range runs from the first token's start to the last token's end, in the first token's file. |
| DeathMask.RunIssues | rules/death_mask/death_mask.go:143-171 | A run gets one issue, over its whole range, exactly when some suffix of its lines parses as code. |
| DeathMask.RunsIssuesIff | rules/death_mask/death_mask.go:81-111 | An issue is produced exactly when it is the issue of some run. |
| DeathMask.FileIssues | rules/death_mask/death_mask.go:73-114 | A file gets at most one issue per run, each with the death-mask message. |
| DeathMask.Check | rules/death_mask/death_mask.go:46-70 | A disabled current rule does nothing. An enabled one fails exactly when some file does not lex. |
| Dry.Capture | rules/dry/dry.go:130-137 | A template becomes a candidate exactly when it does not mention `count`/`each` and its range lies in the file. The key is its source text. |
| Dry.Children | rules/dry/dry.go:127-201 | The expressions the walk descends into are smaller than their parent. Tuples, objects, traversals and literals have none. |
| Dry.CollectUnfolds | rules/dry/dry.go:122-202 | Collecting an expression gives its own capture, then its children's collections in order. |
| Dry.CollectSound | rules/dry/dry.go:122-268 | Every candidate is the exact text of a reachable template that does not mention `count`/`each`. |
| Dry.CollectComplete | rules/dry/dry.go:122-268 | Every reachable template that is clean and in range is collected. |
| Dry.ChildMentions | rules/dry/dry.go:206-268 | A child that mentions `count` or `each` makes its parent mention it too. |
| Dry.ModuleSourceSkipped | rules/dry/dry.go:105-115 | The `source` attribute of a module block contributes no candidates. Other attributes contribute their expressions' candidates. |
| Dry.EffectiveThreshold | rules/dry/dry.go:58-63 | The threshold is at least 2 and at least the configured value. A configured value of 2 or more is kept. |
| Dry.RepeatMessage | rules/dry/dry.go:84-89 | Keys starting with `[` are reported as lists and keys starting with `{` as maps. Other keys are quoted values, each with the count. |
| Dry.DuplicateMessage | rules/dry/dry.go:293 | The duplicate-block message carries the count. |
| Dry.Check | rules/dry/dry.go:46-102 | A disabled current rule reports nothing. The legacy rule reports repeated expressions only, with threshold 2. |
| Dry.LowThresholdIsTwo | rules/dry/dry.go:58-63 | Any configured threshold below 2 behaves as 2. |
| Dry.ExpressionReportedIff | rules/dry/dry.go:78-95 | A key is reported exactly when it has at least the threshold's number of ranges. It is reported once. |
| Dry.RaisingThresholdNeverAdds | rules/dry/dry.go:78-97 | Raising the threshold never adds an issue. |
| Dry.LegacyHasNoBlockIssues | rules/dry.go:36-77 | Every legacy issue is a repeated-value issue. |
| DryBlocks.Minimize | rules/dry/dry.go:348-356 | Minimising drops only spaces, tabs, CR and LF. It keeps every other character. |
| DryBlocks.MinimizeAppend | rules/dry/dry.go:348-356 | Minimising distributes over concatenation. |
| DryBlocks.MinimizeIgnoresLayout | rules/dry/dry.go:348-356 | Inserting a layout character does not change the minimised text. |
| DryBlocks.MinimizeIdempotent | rules/dry/dry.go:348-356 | Minimising twice is minimising once. |
| DryBlocks.BlockKey | rules/dry/dry.go:316-345 | A block's key starts with its keyword and ` {` and ends with `}`. |
| DryBlocks.KeyIgnoresAttributeOrder | rules/dry/dry.go:317-322 | Blocks whose attributes are permutations of each other get the same key. |
| DryBlocks.KeyIgnoresLabelsAndNesting | rules/dry/dry.go:324-341 | Labels, nested blocks and the block range do not change the key. |
| DryBlocks.KeyIgnoresLayout | rules/dry/dry.go:328-339 | Attribute texts that differ only in layout give the same key. |
| DryBlocks.CollectBlocksMember | rules/dry/dry.go:304-313 | A candidate is collected exactly when it is the key and range of a `resource` or `data` block at any depth. |
| Grouping.Keys | rules/dry/dry.go:78 | The keys are the candidates' keys, each listed once. |
| Grouping.RangesOf | rules/dry/dry.go:70-76 | A key's ranges are exactly the ranges collected under it. |
| Grouping.Earliest | rules/dry/dry.go:80-91 | The reported range is one of the group's ranges with the smallest start byte. |
| Grouping.ReportedIff | rules/dry/dry.go:78-95 | A key is reported exactly when its group reaches the threshold. Every report carries the group's size and earliest range. |
| Grouping.ReportsOnce | rules/dry/dry.go:78-95 | No key is reported twice. |
| Grouping.MoreThresholdFewerReports | rules/dry/dry.go:79 | Every report under a higher threshold is also a report under a lower one. |
| Heredoc.ParseIsShape | rules/heredoc/heredoc.go:20 | The opener scan agrees with the pattern `<<(-?)([a-zA-Z0-9]+)\s*$`, anchored at the end of the token. |
| Heredoc.TokenIssues | rules/heredoc/heredoc.go:63-88 | A heredoc opener gets the standard-heredoc issue exactly when `-` is missing. It gets the EOF issue exactly when the check is on and the delimiter is `EOF`. Other tokens get nothing. |
| Heredoc.StandardEofIssues | rules/heredoc/heredoc.go:63-88 | `<<EOF` with the EOF check on gets both issues. |
| Heredoc.IndentedEofIssues | rules/heredoc/heredoc.go:77-85 | `<<-EOF` gets only the EOF issue, and only when that check is on. |
| Heredoc.IndentedEndIssues | rules/heredoc/heredoc.go:63-88 | `<<-END` gets no issue. |
| Heredoc.Check | rules/heredoc/heredoc.go:48-60 | A disabled current rule, or a non-root module, gives nothing. |
| Hungarian.FirstTag | rules/hungarian/hungarian.go:75-83 | The reported tag is the first tag in list order that the name carries. |
| Hungarian.TagIssues | rules/hungarian/hungarian.go:68-84 | A name gets one issue exactly when it starts with a tag, ends with it, or contains it after an underscore. The issue names the tag. |
| Hungarian.Tags | rules/hungarian/hungarian.go:70-73 | The current rule checks the defaults followed by the configured tags. The legacy rule checks only the configured tags. |
| Hungarian.MergedFlagsMore | rules/hungarian/hungarian.go:70-73 | Merging the defaults never loses an issue that the configured tags or the defaults alone would give. |
| Hungarian.NoTagsNoIssues | rules/hungarian.go:54-67 | Legacy with no configured tags reports nothing. |
| Hungarian.TaggedAfterUnderscore | rules/hungarian/hungarian.go:76 | A name containing `_tag` carries the tag. |
| Hungarian.Check | rules/hungarian/hungarian.go:52-65 | A disabled current rule reports nothing. |
| Meta.BlockIssues | rules/meta/meta.go:54-60 | A block gets at most the count-guard issue and the module-source issue. It gets neither without `count` when the source check does not apply. |
| Meta.FileFromBlocks | rules/meta/meta.go:52-61 | A file's issues are exactly those of its top-level blocks. |
| Meta.CheckFromTopLevel | rules/meta/meta.go:42-66 | The rule's issues are exactly those of the top-level blocks of parsed files. |
| Meta.NestedIgnored | rules/meta/meta.go:54 | Nested blocks do not change a block's issues. |
| Meta.LegacyCountOnly | rules/meta.go:41-62 | The legacy rule checks only `count`, whatever the configuration says. |
| MetaCount.LiteralValue | rules/meta/meta_count_guard.go:48-61 | A literal is a guard value exactly when it is the number 0 or 1. |
| MetaCount.CountIssues | rules/meta/meta_count_guard.go:16-39 | A conditional is accepted exactly when both branches are guard values. Otherwise it gets the "must return 0 or 1" issue. Any other expression is accepted exactly when it is a guard value; otherwise it gets the dynamic-count issue. |
| MetaCount.ConditionIgnored | rules/meta/meta_count_guard.go:35-38 | The condition of a conditional count does not matter. |
| MetaCount.NonNumericGuardFlagged | rules/meta/meta_count_guard.go:35-45 | A conditional with a non-numeric branch is flagged. |
| MetaCount.GenerationsAgree | rules/meta.go:64-88 | Both generations flag the same counts. Only their messages differ. |
| MetaSource.RegistryIsShape | rules/meta/meta_source_version.go:146-150 | The registry scan agrees with the regular expression `^(?:([a-zA-Z0-9.-]+)/)?([^/]+)/([^/]+)/([^/]+)$`. |
| MetaSource.ArchiveScanIsQuery | rules/meta/meta_source_version.go:64 | The archive scan agrees with `^https://.*\?.*archive=\..*&?`, where `.` excludes newlines. |
| MetaSource.FirstFlagged | rules/meta/meta_source_version.go:102-117 | The flagged constraint is the first one that does not pass. |
| MetaSource.VersionIssues | rules/meta/meta_source_version.go:100-117 | A version string gets no issue exactly when every constraint passes. Otherwise it gets one issue for the first failing constraint. |
| MetaSource.Classify | rules/meta/meta_source_version.go:43-83 | Local, git, https and mercurial sources are tested in that order. A source is a registry source exactly when it is none of those and matches the registry pattern, and unrecognised exactly when it matches nothing. |
| MetaSource.RegistryIssues | rules/meta/meta_source_version.go:83-99 | A registry module without `version` is flagged. A version that is not a string is skipped. |
| MetaSource.ClassIssues | rules/meta/meta_source_version.go:43-119 | Local and unrecognised sources pass. Git needs `ref=`, https needs an archive extension or query, and mercurial needs `#`. Registry sources go to the version check. |
| MetaSource.SourceIssues | rules/meta/meta_source_version.go:25-41 | A block whose `source` is missing or not a string gets no issue. |
| MetaOrder.Infos | rules/meta/meta_order.go:46-55 | Each attribute is paired with its line and its first/last classification. |
| MetaOrder.SortByLine | rules/meta/meta_order.go:61-68 | The swap loop leaves a permutation of the attributes sorted by line. |
| MetaOrder.FirstOutOfPlace | rules/meta/meta_order.go:73-82 | The result is the earliest first-listed attribute after a non-first one. There is none exactly when first-listed attributes lead. |
| MetaOrder.LastOutOfPlace | rules/meta/meta_order.go:86-96 | The result is the earliest non-last attribute after a last-listed one. There is none exactly when last-listed attributes trail. |
| MetaOrder.SortedIssues | rules/meta/meta_order.go:70-96 | A sorted list gets no issue exactly when it is well ordered. Otherwise it gets one issue at the first-pass culprit, or, when the first pass is clean, at the last-pass culprit. |
| MetaOrder.RespectsBridge | rules/meta/meta_order.go:15-18 | The per-attribute classification states the same ordering promise as the configuration. |
| MetaOrder.CheckOrder | rules/meta/meta_order.go:19-97 | With no order, empty lists or no attributes, there is no issue. Otherwise the issue is that of the sorted list. Passing implies the promise holds, and the promise holds for attributes on distinct lines only if the block passes. |
| Naming.LengthIssues | rules/naming/naming_length.go:15-28 | A name gets one issue exactly when its byte length exceeds the limit. |
| Naming.LimitMonotone | rules/naming/naming_length.go:21 | A wider limit never adds an issue, and a name exactly at the limit passes. |
| Naming.ShoutFlags | rules/naming/naming_shout.go:20-27 | The two flags say whether the name has a letter and whether all its letters are upper case. |
| Naming.ShoutIssues | rules/naming/naming_shout.go:20-36 | A name gets the shout issue exactly when it has a letter and no lower-case letter. |
| Naming.ShoutIgnoresNonLetters | rules/naming/naming_shout.go:20-27 | Appending characters that are not letters does not change the verdict. |
| Naming.ShoutExamples | rules/naming/naming_shout.go:20-27 | "SHOUT" followed by an emoji is shouting. "Shout", "" and "123" are not. |
| Naming.FirstNonSnake | rules/naming/naming_snake.go:18-23 | The result is the first character that is not lower case, a digit or `_`. There is none exactly when every character is one of those. |
| Naming.SnakeIssues | rules/naming/naming_snake.go:15-32 | A name gets the snake-case issue exactly when some character is not a lower-case letter, a digit or `_`. |
| Naming.SnakeExamples | rules/naming/naming_snake.go:18-23 | CamelCase, kebab-case and dotted names are flagged. The empty name and snake_case_2 are not. |
| Naming.Selected | rules/naming/naming.go:52-82 | Each of length, shout, snake and type-echo is registered exactly when the configuration asks for it. Registration follows that order. |
| Naming.SelectionDetermined | rules/naming/naming.go:59-81 | Any list holding exactly the wanted checks in that order is the selection. |
| Naming.NegativeLengthDisables | rules/naming/naming.go:60-66 | A length of 0 or less registers no length check. |
| Naming.DefaultSelection | rules/naming/naming.go:16-27 | The default configuration registers length 16, shout, snake and type echo without synonyms. |
| Naming.LegacyLimit | rules/naming.go:62-75 | The legacy limit is the configured one when positive and 16 otherwise. |
| Naming.NonPositiveLimitDiffers | rules/naming.go:62-75 | A non-positive configured length turns the current check off, while the legacy rule falls back to 16. |
| TypeEcho.SynonymsFor | rules/naming/naming_type_echo.go:38-45 | Without a synonyms table there are no synonyms. With one, the synonyms are the part's entries plus the walker's synonym. |
| TypeEcho.SynonymLoop | rules/naming/naming_type_echo.go:51-65 | The loop hits exactly when the name has some synonym of the list. With no echo known yet, the suffix names the first such synonym. With an echo known, only the first synonym is tried. |
| TypeEcho.Scan | rules/naming/naming_type_echo.go:31-66 | From a given type word on, an echo is found exactly when some later word is echoed directly or through a synonym. The suffix stays empty exactly when no synonym is found for a word reached before a direct echo. |
| TypeEcho.Echo | rules/naming/naming_type_echo.go:15-66 | A name echoes its type exactly when some type word is contained in the lower-cased name, or one of its synonyms is in a name piece. The suffix is empty exactly when the scan reaches no word with a synonym found in the name. Otherwise it names a synonym of some type word. |
| TypeEcho.EchoIssues | rules/naming/naming_type_echo.go:68-76 | An echo gets one issue naming the type, the synonym if any, and the name. |
| TypeEcho.EchoIgnoresCase | rules/naming/naming_type_echo.go:23-24 | Lower-casing the type and name does not change the verdict. |
| TypeEcho.NoSynonymsDirectOnly | rules/naming/naming_type_echo.go:31-45 | Without a synonyms table, a name echoes exactly when some type word occurs in it. |
| TypeEcho.SynonymsOnlyAdd | rules/naming/naming_type_echo.go:38-65 | Adding a synonyms table never removes an echo. |
| TypeEcho.LegacySynonyms | rules/type_echo.go:67-70 | The legacy rule always has a synonyms table, possibly empty. |
| TypeEcho.LegacyUsesWalkerSynonym | rules/type_echo.go:67-83 | In the legacy rule, a walker synonym found in a name piece is an echo even without configured synonyms. |
| TypeEcho.SynonymSplitAsWritten | rules/naming/naming_type_echo.go:50-76 | Type `aws_s3_bucket`, synonyms `bucket: [bkt]`, name `mybkt`: the check reports exactly one issue, `Avoid echoing type "aws_s3_bucket" (via synonym 'bkt') in label "mybkt".` |
| TypeEcho.EchoIntended | rules/naming/naming_type_echo.go:47-65 | The corrected check: a synonym counts only as a whole word of the name. An echo, and the suffix, are otherwise found as in the check as written. |
| TypeEcho.IntendedIssues | rules/naming/naming_type_echo.go:68-76 | The corrected check gets one issue exactly when it finds an echo, with the same message format. |
| TypeEcho.IntendedAgreesWithoutSynonyms | rules/naming/naming_type_echo.go:38-45 | Without a synonyms table the corrected check and the check as written give the same outcome and the same issues. |
| TypeEcho.IntendedOnlyRemoves | rules/naming/naming_type_echo.go:47-65 | Every echo the corrected check finds is also found as written: the correction only removes reports. |
| TypeEcho.WordInPiece | rules/naming/naming_type_echo.go:50-53 | A synonym that is a whole word of the name lies inside some piece of the name. |
| TypeEcho.GluedSynonymIgnored | rules/naming/naming_type_echo.go:47-49 | For type `aws_s3_bucket`, synonyms `bucket: [bkt]` and name `mybkt`, the corrected check reports nothing. |
| TypeEcho.SpacedSynonymFound | rules/naming/naming_type_echo.go:47-49 | For the same type and synonyms and the name `my_bkt`, the corrected check reports the echo via `bkt`. |
| TypeEcho.SynonymOnWordBoundaries | rules/naming/naming_type_echo.go:47-49 | The word-boundary reading matches "my_s3" and not "mys3". |
| Reminder.SplitAfterSpace | rules/reminder/reminder.go:60 | Splitting after the first space gives one piece when there is no space. Otherwise it gives two pieces that rejoin to the text, the first ending at the first space. |
| Reminder.HitTags | rules/reminder/reminder.go:65-66 | The hitting tags, in list order and with repeats kept, are those found at the end of the first word or at the start of the rest. |
| Reminder.HitTagsCount | rules/reminder/reminder.go:65-73 | There are as many hits as list positions whose tag hits. |
| Reminder.TokenIssues | rules/reminder/reminder.go:53-74 | Only comments with a space are reported. There is one identical issue per list position whose tag hits. |
| Reminder.LowercaseTagsSilent | rules/reminder/reminder.go:60-66 | Tags containing a lower-case ASCII letter never hit, because the text is upper-cased. |
| Reminder.CaseBlind | rules/reminder/reminder.go:60 | Upper-casing the comment does not change the number of issues. |
| Reminder.TagAfterFirstSpace | rules/reminder/reminder.go:66 | A tag right after the first space is always reported. |
| Reminder.DefaultTagsUpper | rules/reminder/reminder.go:18-23 | The default tags are already upper case. |
| Reminder.Check | rules/reminder/reminder.go:45-51 | A non-root module gives nothing. Otherwise the run fails exactly when some file does not lex. |
| StringOrder.Sort | rules/dry/dry.go:322 | The attribute names are sorted into a permutation in byte order. |
| StringOrder.SortIgnoresOrder | rules/dry/dry.go:317-322 | Permutations of the same names sort to the same list. |
| Text.Split | rules/meta/meta_source_version.go:101 | The pieces rejoin to the input and none contains the separator. The first cut is at the first occurrence of the separator, and there is no cut when it does not occur. |
| Text.SplitJoin | rules/meta/meta_source_version.go:148 | Splitting at a one-character separator undoes joining with it, for pieces that do not contain it. |
| Text.InsidePiece | rules/naming/naming_type_echo.go:50 | An occurrence of a text that no separator overlaps lies inside one of the pieces. |
| Text.Utf8Len | rules/naming/naming_length.go:21 | A string's byte length is between its rune count and four times it. |

## Left out

- I/O and the host: `GetFiles`, `EmitIssue` and its errors, logging, and the plugin entry point are not modelled. Issues are returned as a sequence.
- `LoadRuleConfig`/`DecodeRuleConfig` error returns are not modelled. The rules start from an already decoded configuration.
- The HCL lexer and parser are not modelled. Token lists, block trees and attribute values are inputs. The death-mask "parses as code" test is the parameter `isCode`.
- Map iteration order: files from `GetFiles`, attributes from `Body.Attributes` and the DRY candidate map are iterated in an order Go leaves unspecified. The model takes the caller's sequence order, and reports DRY groups in the order their keys first appear.
- Grouping.Earliest: when two ranges in one group share a start byte (possible across files), Go's unstable sort may put either first. The model picks the earliest in collection order.
- DryBlocks.BlockKey: the key is the normalised text itself, not its SHA-256 digest. The two differ only under a hash collision.
- DryBlocks.BlockKey: an attribute range outside the file contributes an empty text, where the Go slicing would panic.
- Naming.ShoutFlags: letters and upper/lower case are ASCII only. Go's `unicode.IsLetter`/`IsUpper` also count letters such as `ä`. For example, "äBC" counts as shouting here but not in Go.
- Naming.SnakeIssues: lower-case letters and digits are ASCII only, so "café" gets a snake-case issue here and none in Go.
- Text.ToLower/ToUpper: case mapping covers ASCII plus the four non-ASCII letters whose simple mapping lands in ASCII (U+0130, U+212A, U+0131, U+017F). Go maps all of Unicode.
- TypeEcho.Echo: because of the ASCII case mapping, a name "ÉCHO" does not echo a type word "écho" here, though it does in Go.
- Reminder.TokenIssues: because of the ASCII case mapping, a tag with non-ASCII lower-case letters behaves differently here than in Go.
- MetaCount.LiteralValue: numbers are exact reals, not rounded through `float64`. A literal such as `1.00000000000000000001` is accepted by Go and flagged here.
- Comments.RatioIssues: the ratio message rounds half up on exact reals. Go formats a `float64` with `%.0f`.
- Comments.CurrentSettings: `checkLength` of the current comments package is not part of this model. The current rule is given the legacy length semantics (`rules/comments_length.go`), with an unset `allow_url` counting as on, as its default.
- Comments.LegacySettings: the legacy end-of-line and ratio checks (`checkEOL`, `checkThreshold` in `rules/comments.go:53-61`) are not part of this model. The legacy rule is given the current package's end-of-line and ratio checks. The legacy tests expect the same messages (`rules/comments_eol_test.go:38`, `rules/comments_threshold_test.go:39`).
- MetaOrder.CheckOrder: the dispatch in `rules/meta/meta.go` does not call `checkOrder`, and its configuration has no `Order` field. The order check is therefore modelled on its own, per block.
- Severity and `Link`/`Name`/`Enabled` accessors are modelled only where a rule's behaviour depends on them.
- Test helpers (`internal/testhelper`) and the configuration loader (`internal/rulehelper/config.go`) are not part of this model.

## Findings

| source | as written | input that shows it | evidently intended | confidence | as-written member | corrected member |
|---|---|---|---|---|---|---|
| rules/comments_jammed.go:38-41 | A call with `tails = false` overwrites the package-level pattern, and every later call keeps the single-delimiter pattern whatever its own `tails` says | Two calls, the first with `tails = false` and the second with `tails = true`, on the comment `## x`: the second call flags it | Each call uses the pattern its own configuration selects | not executed | Comments.SharedPatternLeaks | Comments.CallsIndependent |
| rules/comment/comments_jammed.go:18 | In `/\*\**` followed by `[^\s/#]`, the star run may take zero stars, so the second `*` of `/**` counts as the jammed character | `/** doc */` is flagged as jammed | A run of stars followed by a space is a spaced comment: `*` is not a jammed character after a star run | not executed | Jammed.DocCommentFlaggedAsWritten | Jammed.SpacedBlockNeverJammed |
| rules/naming/naming_type_echo.go:50 | The name is split on the literal two-character separator `_-`, so a name normally stays in one piece and synonyms match anywhere inside it | Type `aws_s3_bucket`, synonyms `bucket: [bkt]`, name `mybkt`: no type word occurs in the name, yet the issue `Avoid echoing type "aws_s3_bucket" (via synonym 'bkt') in label "mybkt".` is reported | Synonyms match on word boundaries (`_` or `-`), as the comment on lines 47-49 says: `my_bkt` echoes and `mybkt` does not | not executed | TypeEcho.SynonymSplitAsWritten | TypeEcho.GluedSynonymIgnored |
