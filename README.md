# Rewriter: Apache rewrite rules from URL pairs

`Rewriter` (Rewriter.php) turns source→destination URL pairs into the text of Apache
`mod_rewrite` directives. An instance has three settings fixed at construction:

- whether to wrap the output in `<IfModule mod_rewrite.c>` … `</IfModule>`;
- whether to emit `RewriteEngine on`;
- whether redirects are permanent (`R=301`) or plain (`R`).

It also has two pieces of state:

- an ordered map `urls` from source to destination;
- the output text `rewrites`.

Pairs come in two ways:

- **As an array.** `generateRewritesFromArray` merges the pairs. An array destination is refused.
- **As delimited text.** `generateRewritesFromString` trims the text and splits it into lines and
  then into source and destination. It skips blank lines and refuses a line whose separator is
  missing or comes first. It strips one leading `/` from each source.

Either way, a successful call appends to `rewrites` a block for **all** pairs merged so far:

- an optional header;
- for each pair, an optional `RewriteCond %{QUERY_STRING}` line for the text after its first `?`;
- then the pair's `RewriteRule` line, with `^`/`$` anchors around the quoted pattern, `?` after the
  destination, and the flags;
- an optional footer.

Every line is preceded by a line break. The output is never cleared, so a second call appends a
second complete block. A refused entry raises an exception partway through the merge: the pairs
merged before it in the same call stay merged, and nothing is written.

The project has these modules:

- `Wrappers`: `Option`.
- `PhpStrings`: the PHP built-ins the class uses, as functions with their own contracts and lemmas:
  - `trim`
  - `strpos`
  - `explode` with and without a limit
  - `preg_quote`

  It also has `Implode`. The class never calls `implode`; `Implode` is there only as the
  partner of explode in the round trips `ImplodeExplode` and `DelimitedLines`.
- `UrlMap`: the PHP array `urls`. It is a sequence of pairs with unique keys. Assigning to a present
  key replaces its value in place, and a new key goes to the end.
- `Directives`: the text. This module has:
  - the single lines;
  - the lines for one pair and for a whole block;
  - `Emit`, which puts a line break before each line;
  - the lemmas about rule and condition lines.
- `UrlInput`: the two input paths as specification functions over outcomes (skip, merge, or fail
  with an error). It also has the lemmas about merging and parsing.
- `Rewrites`: the class `Rewriter`. It has `urls` and `rewrites` as mutable fields and imperative
  methods whose loops are proved against the functions above.

## Model

| member | source | states |
|---|---|---|
| Rewrites.Rewriter.constructor | Rewriter.php:13-23 | The three settings are the arguments, each `true` by default. No pairs are held and the output is empty. |
| Rewrites.Rewriter.GenerateRewritesFromArray | Rewriter.php:32-47 | The argument defaults to the empty array, and its sources are distinct, as the keys of a PHP array are. The pairs become the array-path merge of the entries into the old pairs. On an array destination the result is that error (naming the source) and the output is unchanged. Otherwise the output is the old output followed by the block for all pairs, and that whole output is returned. The keys stay unique. |
| Rewrites.Rewriter.GenerateRewritesFromString | Rewriter.php:58-102 | An array argument behaves exactly like the array path. Text is merged line by line: the trimmed text is split at the line break. The first refused line is returned as the error, the lines before it stay merged, and the output is unchanged. Otherwise the block for all pairs is appended and the whole output returned. An empty line break is refused, and then nothing changes. |
| Rewrites.Rewriter.MergeLine | Rewriter.php:67-95 | A blank line changes nothing. A refused line changes nothing and returns its error. An accepted line stores its destination under its source, as the line parser describes. The output is never touched. |
| Rewrites.Rewriter.MergeDelimited | Rewriter.php:67-96 | The loop over the lines merges them in order. Its pairs and error are exactly the string-path merge of the lines into the old pairs: it stops at the first refused line with that line's error, keeping the lines before it merged. The output is never touched. |
| Rewrites.Rewriter.BuildRewrites | Rewriter.php:109-159 | Append-only: the new output is the old one followed by the optional header, the lines of every pair in map order, and the optional footer, each preceded by a line break. The pairs are unchanged. The whole output is returned. |
| Rewrites.Rewriter.BuildEntries | Rewriter.php:122-150 | The loop over the pairs appends the lines of each pair in map order and nothing else. |
| Rewrites.Rewriter.BuildEntry | Rewriter.php:125-149 | For one pair it appends the optional condition and then the rule, exactly as the specification of one pair's lines says. |
| Rewrites.Rewriter.AppendLineToRewrites | Rewriter.php:166-168 | The output grows by a line break and the line, and by nothing else. |
| Rewrites.Rewriter.AppendIfModuleCheckStart | Rewriter.php:173-176 | Appends the line `<IfModule mod_rewrite.c>`. |
| Rewrites.Rewriter.AppendIfModuleCheckEnd | Rewriter.php:181-184 | Appends the line `</IfModule>`. |
| Rewrites.Rewriter.AppendTurnOnEngine | Rewriter.php:189-192 | Appends the line `RewriteEngine on`. |
| Rewrites.Rewriter.BuildRewriteCondition | Rewriter.php:212-215 | Appends exactly the condition line for that variable and query string. |
| Rewrites.Rewriter.BuildRewriteRule | Rewriter.php:223-227 | Appends exactly the rule line for that path, destination and the instance's flags. |
| Directives.WrapRegex | Rewriter.php:202-204 | The result is two characters longer than the pattern. It starts with `^`, ends with `$`, and has exactly the pattern in between. |
| Directives.BuildRewriteFlags | Rewriter.php:234-244 | The flags are a bracketed text. |
| Directives.RewriteFlagsList | Rewriter.php:234-244 | Inside the brackets, the comma-separated list is `R=301`, `L`, `NC` when http301 is set and `R`, `L`, `NC` otherwise. |
| Directives.ConditionLine | Rewriter.php:212-215 | A condition line starts with `RewriteCond ` and is never a rule line. |
| Directives.RuleLine | Rewriter.php:223-227 | A rule line starts with `RewriteRule `, is never a condition line, and ends with `? ` followed by the flags. |
| Directives.ConditionLineShape | Rewriter.php:212-215 | A condition line is `RewriteCond ` + `%{` + variable + `} ^` + quoted pattern + `$`. The quoted pattern reads back as exactly the query string. |
| Directives.RuleLineShape | Rewriter.php:223-227 | A rule line is `RewriteRule ^` + quoted source + `$ ` + destination + `? ` + flags. The quoted source reads back as exactly the source. |
| Directives.SplitQuery | Rewriter.php:128-145 | With no `?`, the path is the whole source. Otherwise the source is path + `?` + query, and the path has no `?`, so the cut is at the first `?`. |
| Directives.EntryLinesWithQuery | Rewriter.php:128-148 | When the first `?` is at p: there is a condition on the text after p exactly when that text is non-empty. The rule is for the text before p, and this truncation happens even when the `?` is last. |
| Directives.EntryLinesWithoutQuery | Rewriter.php:128-148 | When the source has no `?`, a pair writes no condition and just the rule for the whole source. |
| Directives.HasQueryString | Rewriter.php:128-137 | Specification of the test for a condition: the source has a `?` and the text after the first one is non-empty. EntryLinesWithQuery, EntryKinds and ConditionCount state what it decides. |
| Directives.EntryKinds | Rewriter.php:125-149 | One pair yields exactly one rule, the one for its path. It yields one condition when the source has a non-empty query string and none otherwise. |
| Directives.OneRulePerEntry | Rewriter.php:122-150 | The rule lines of a block, in order, are exactly one rule per pair in map order, whatever the settings. |
| Directives.RulesShareFlags | Rewriter.php:223-244 | Every rule line of a block ends with `? ` and the same flags. |
| Directives.ConditionCount | Rewriter.php:128-141 | A block has as many condition lines as there are pairs whose source has a non-empty query string. |
| Directives.ConditionImmediatelyBeforeRule | Rewriter.php:137-148 | In a block, every condition line is directly followed by a rule line. |
| Directives.EntriesLinesAppend | Rewriter.php:125-149 | The lines for the pairs plus one more are the lines for the pairs followed by that pair's lines. |
| Directives.EntryLines | Rewriter.php:128-148 | Specification of the lines one pair writes: the optional condition on the query string, then the rule for the path. It is characterised by EntryLinesWithQuery, EntryKinds and EntryConditionFirst. |
| Directives.EntryConditionFirst | Rewriter.php:137-148 | Within one pair's lines every condition is directly followed by a rule, and the last line is not a condition. |
| Directives.EntriesLines | Rewriter.php:125-149 | Specification of the lines of all pairs: each pair's lines in map order. It is characterised by EntriesLinesAppend, EntriesLength and OneRulePerEntry. |
| Directives.BlockLines | Rewriter.php:109-159 | Specification of the lines of one generation: header, the lines of all pairs, and footer. It is characterised by BlockLength, OneRulePerEntry, ConditionCount and ConditionImmediatelyBeforeRule. |
| Directives.Header | Rewriter.php:112-119 | Specification of the opening lines: `<IfModule mod_rewrite.c>` when the module check is on, then `RewriteEngine on` when the engine line is on. FrameFacts and FrameLinesAreNotDirectives state that they are neither rules nor conditions and hold no line break; BlockLength counts them. |
| Directives.Footer | Rewriter.php:153-155 | Specification of the closing line: `</IfModule>` when the module check is on. FrameFacts and FrameLinesAreNotDirectives state that it is neither a rule nor a condition and holds no line break. |
| Directives.Emit | Rewriter.php:166-168 | Specification of the written text: each line preceded by a line break. It is characterised by EmitConcat and BlockTextSplitsIntoLines. |
| Directives.EntriesLength | Rewriter.php:125-149 | The pairs write one line each plus one more for each source with a non-empty query string. |
| Directives.BlockLength | Rewriter.php:109-159 | A block has two frame lines when the module check is on, one when the engine line is on, one rule per pair and one condition per non-empty query string. |
| Directives.OneRulePerSource | Rewriter.php:122-150 | With unique sources (the class invariant `Valid`), each source in the map has exactly one rule: the rule at its position in the map, for its path and its destination. No other pair has that source. |
| Directives.EmitConcat | Rewriter.php:166-168 | Writing two runs of lines one after the other gives the text of writing them together. |
| Directives.BlockTextSplitsIntoLines | Rewriter.php:166-168 | When no source or destination holds a line break, splitting the appended text at line breaks gives back an empty first piece and then exactly the block's lines. |
| UrlMap.Put | Rewriter.php:39 | Assignment `$urls[$key] = $value`, here and at line 93. The key then maps to the value, every other key keeps its value, and the keys stay unique. The key order is unchanged for a present key; a new key is appended. |
| UrlMap.PutPresent | Rewriter.php:39 | Assigning to a key already present replaces its value at its own position. The keys stay as they were, other keys keep their values, and uniqueness is kept. |
| UrlMap.PutAbsent | Rewriter.php:39 | Assigning to an absent key appends it at the end. Other keys keep their values, and uniqueness is kept. |
| UrlInput.MergeOutcomes | Rewriter.php:34-40 | Merging keeps the keys unique. |
| UrlInput.MergeSucceeds | Rewriter.php:34-40 | A merge whose items are never refused reports no failure. |
| UrlInput.MergeStopsAt | Rewriter.php:34-40 | At the first refused item the merge stops with that item's error. The pairs are exactly those merged from the items before it. |
| UrlInput.MergeKeepsOthers | Rewriter.php:39 | A source that no item names keeps its earlier destination (or stays absent). |
| UrlInput.MergeLastWins | Rewriter.php:39 | In a merge that succeeds, a source maps to the destination of its last occurrence. |
| UrlInput.MergeKeepsOrder | Rewriter.php:39 | The keys before a merge are a prefix of the keys after it. The assignment here and at line 93 keeps a present key in place, so pairs from earlier calls persist where they stood. |
| UrlInput.MergeEntriesStep | Rewriter.php:34-40 | The first entry either stops the array path with an error naming its source (array destination) or is merged before the rest. |
| UrlInput.ArrayOutcome | Rewriter.php:36-39 | Specification of one array element: an array destination is refused with the error naming the source, and any other destination is a pair with the source unchanged. MergeEntriesStep and ArrayPathStopsAtFirstNested state its effect. |
| UrlInput.MergeEntries | Rewriter.php:34-40 | Specification of the array-path loop: the elements merged in order into the pairs, stopping at the first refused one. GenerateRewritesFromArray is proved against it, and MergeEntriesStep and the ArrayPath lemmas state its properties. |
| UrlInput.ArrayPathStopsAtFirstNested | Rewriter.php:36-38 | Stops at the first array destination with the error naming that source. The entries before it are merged. |
| UrlInput.ArrayPathSucceeds | Rewriter.php:34-43 | With no array destination the array path succeeds. |
| UrlInput.ArrayPathLastWins | Rewriter.php:39 | Each source, stored unchanged (no `/` is stripped), maps to its last destination. |
| UrlInput.ArrayPathStoresEach | Rewriter.php:39 | With distinct sources and no array destination, every source of the array is stored unchanged with its own destination. |
| UrlInput.ArrayPathKeepsOthers | Rewriter.php:34-40 | Sources the entries do not name keep their destinations. |
| UrlInput.ParseLineCases | Rewriter.php:69-83 | A line is skipped exactly when it is empty. It is refused exactly when it is non-empty and the separator is missing or first occurs at index 0. A refusal is always the missing-separator error, so the part-count error can never arise. |
| UrlInput.EmptySeparatorRefusesAll | Rewriter.php:73-74 | With an empty separator every non-empty line is refused as missing its separator. |
| UrlInput.ParseLineSplits | Rewriter.php:78-90 | An accepted line is its leading `/` (if any), the stored source, the separator, and the destination. The separator's first occurrence is right after the source. |
| UrlInput.MergeLinesStep | Rewriter.php:67-95 | The first line is skipped, stops the string path with its error, or is merged before the rest. |
| UrlInput.MergeLines | Rewriter.php:67-96 | Specification of the string-path loop: the lines parsed and merged in order into the pairs, stopping at the first refused one. MergeDelimited is proved against it, and MergeLinesStep and StringPathStopsAtFirstBadLine state its properties. |
| UrlInput.DelimitedLines | Rewriter.php:63-66 | The lines joined with the line break give back the trimmed text. Only the whole text is trimmed, not each line. |
| UrlInput.StringPathStopsAtFirstBadLine | Rewriter.php:67-75 | Stops at the first non-empty line whose separator is missing or first, with the missing-separator error for that line. The lines before it are merged. |
| UrlInput.ParseLine | Rewriter.php:69-90 | Specification of one line: blank, refused with the missing-separator or part-count error, or split at the first separator with one leading `/` stripped from the source. It is characterised by ParseLineCases and ParseLineSplits. |
| PhpStrings.Trim | Rewriter.php:63 | The result is a middle part of the text: only trim characters are cut from both ends, and it neither starts nor ends with one. |
| PhpStrings.StrPos | Rewriter.php:73 | The separator occurs at the index found and at no earlier index. None means it occurs nowhere. |
| PhpStrings.StrPosEmptyNeedle | Rewriter.php:73 | An empty needle is found at index 0. |
| PhpStrings.StrPosFindsChar | Rewriter.php:128 | A `?` is found exactly when the text contains one, and what is found is the first one. |
| PhpStrings.Explode | Rewriter.php:66 | explode without a limit gives at least one part. ExplodeUnsplit and ExplodeStep fix the parts: the whole text when the separator does not occur, otherwise the text before the first occurrence followed by the parts of the rest. |
| PhpStrings.ExplodeUnsplit | Rewriter.php:66 | With no occurrence of the separator, both forms of explode give the whole text as the only part. |
| PhpStrings.ExplodeStep | Rewriter.php:66 | At the first occurrence of the separator, both forms of explode give the text before it, followed by the parts of the text after it; the limit drops by one. |
| PhpStrings.ExplodeLimit | Rewriter.php:78 | explode with a positive limit gives between one and limit parts. ExplodeLimitAgrees relates them to the unlimited explode. |
| PhpStrings.ImplodeExplode | Rewriter.php:66 | Joining the parts of explode with the separator gives back the text. |
| PhpStrings.ExplodePartsFree | Rewriter.php:66 | No part of explode contains the separator. |
| PhpStrings.ExplodeLimitAgrees | Rewriter.php:78 | With a limit, explode keeps the first parts of the unlimited explode. It joins the rest into the last part and gives min(parts, limit) parts. |
| PhpStrings.SplitAtFirst | Rewriter.php:78-85 | With limit 2 and a separator at p, the parts are exactly the text before p and the text after the separator. The text is their join. |
| PhpStrings.PregQuote | Rewriter.php:213 | Quoting never shortens the text. What it keeps is stated by UnquotePregQuote, PregQuotePlain and PregQuoteKeepsLineFree. |
| PhpStrings.UnquotePregQuote | Rewriter.php:213 | Quoting loses nothing: it reads back as exactly the text it was made from. |
| PhpStrings.PregQuotePlain | Rewriter.php:225 | A text without special characters is quoted as itself. |
| PhpStrings.PregQuoteKeepsLineFree | Rewriter.php:213 | Quoting introduces no line break. |

## Left out

- `preg_quote` (Rewriter.php:213, 225) follows PHP's documented escape set, one character at a
  time: a backslash before `. \ + * ? [ ^ ] $ ( ) { } = ! < > | : - #`, and NUL as `\000`. It
  works on characters rather than bytes. Nothing about regular-expression semantics is modelled.
- `trim` (Rewriter.php:63) removes PHP's default set: space, tab, line feed, carriage return, NUL
  and vertical tab. Custom character lists are not used by the class.
- PHP loose typing is left out:
  - integer-like string keys are not coerced to integers in `urls`;
  - the settings are booleans, so the `switch` loose comparison at Rewriter.php:235-242 becomes an
    `if`;
  - a destination is text or an array (`Destination`), so destinations that are other scalars
    become text.
- The `is_array` else branch at Rewriter.php:45 is unreachable behind the `array` type hint, so it
  is not modelled.
- Exceptions are values of `Error`: the array-destination error with its source, the
  missing-separator and bad-part-count errors with their line, and `EmptyLineBreak`. The message
  texts are not modelled.
- An empty line break follows PHP 8, where `explode` raises an error. The model returns
  `EmptyLineBreak` before anything is merged. PHP 7 behaviour is not modelled: there `explode`
  returns `false` with a warning, the loop is skipped, and a block is still appended.
- The array argument is a sequence of pairs. Its sources must be distinct, as the keys of a PHP
  array are: a PHP array literal that repeats a key has already collapsed it before the call.
- `unset` at Rewriter.php:94 and 97 frees locals only and changes no state, so it is not modelled.
- The three settings are `const` fields, because the class never writes them after construction.
- `MergeDelimited` and `MergeLine` are the loop of `generateRewritesFromString` and its body.
  `BuildEntries` and `BuildEntry` are the loop of `buildRewrites` and its body. Each is a method of
  its own with the same behaviour.
  `BuildEntries` loops over a copy of `urls`, as PHP's `foreach` does.
- How Apache interprets the generated directives is not modelled; only the text is.
- Directives.BuildRewriteFlags: its own contract gives only the brackets; the list inside them is
  stated by `Directives.RewriteFlagsList`.
- PhpStrings.PregQuote: its own contract gives only that quoting never shortens the text; what it
  keeps is stated by `UnquotePregQuote`, `PregQuotePlain` and `PregQuoteKeepsLineFree`.
- PhpStrings.Explode: its own contract gives only that there is at least one part; the content is
  stated by `ExplodeUnsplit` and `ExplodeStep`, which fix every part, and by `ImplodeExplode` and
  `ExplodePartsFree`.
- PhpStrings.ExplodeLimit: its own contract gives only the number of parts; the content is stated
  by `ExplodeLimitAgrees`, `ExplodeUnsplit` and `ExplodeStep`.
- Specification functions without a contract of their own: `UrlInput.ParseLine`,
  `UrlInput.ArrayOutcome`, `UrlInput.MergeEntries`, `UrlInput.MergeLines`,
  `Directives.HasQueryString`, `Directives.EntryLines`, `Directives.EntriesLines`,
  `Directives.Header`, `Directives.Footer`, `Directives.BlockLines` and `Directives.Emit`.
  Their rows name the lemmas that state their properties.
