# learnosity-qti: response processing and conversion helpers in Dafny

This project models the pure core of learnosity-qti. That library converts assessment content
between Learnosity JSON and IMS QTI 2.1 XML. The model covers the following.

- **The response-processing interpreter** of the QTI importer (`BaseInteractionValidationBuilder`).
  - It walks a QTI 2.1 `responseProcessing` rule tree: `responseCondition`, then `responseIf` / `responseElseIf*` / `responseElse?`.
  - The guards are `isNull`, `match` and `equal`; the rules are `setOutcomeValue` over `baseValue`, `variable` or `mapResponse`.
  - It reduces the tree to a scoring map with the keys `unattempted`, `correct`, `incorrect`, `scoring_type` and `score`.
  - It dispatches on the response-processing template kind, and it turns a scoring map into a `(score, mode)` pair.
- **Converter**: it classifies Learnosity JSON as `item` / `question` / `questiondata`, and it splits an item from its questions. It also rewrites the schema-error message and sets the per-file failure policy of directory conversion.
- **StringUtil**: `contains`, `startsWith`, `endsWith`, and the guard and output shape of `generateRandomString`.
- **The Learnosity-to-QTI preprocessing service**:
  - the widget index;
  - string-leaf rewriting in `processJson`;
  - the self-closing tag rewrite;
  - class-name parsing for features;
  - the accept/reject decision for feature replacements.
- **ConvertToQtiService**: the question/feature reference table, feature lookup, manifest file entries, and the supported-type filter of `convertAssessmentItem`.

The library runs on PHP 7: it imports the class `Match`, which is a reserved word from PHP 8 on. The model uses the semantics of PHP 7.0 to 7.3 for the builtins it relies on. Those builtins are modelled in two modules:
- `PhpArrays`: ordered arrays with int/string keys, `array_merge`, `array_merge_recursive`, `empty`, `isset`, `count`, `floatval` and loose `in_array`. `array_column` is modelled where it is used, as `Converter.Column` and `PreProcessing.IndexWidgets`.
- `PhpStrings`: `strpos`, `strrpos`, `str_replace`, `trim`, `explode`, `substr` and `bin2hex`.

Modelling choices:
- A PHP array is a sequence of key/value entries. Values are a closed JSON-like datatype.
- Log messages are a closed `Diagnostic` datatype, returned next to each result (`Logged<T>`).
- Collaborators are function parameters. These include:
  - the subclass hooks of the validation builder;
  - the item mapper;
  - `processHtml`;
  - the QTI marshaller;
  - `strip_tags`;
  - the random byte source;
  - the numeric-prefix reading of `floatval`.
- QTI identifiers are stored under string keys. Learnosity references go through PHP's numeric-string key normalisation.

Module layout: `Wrappers`, `Sequences`, `PhpArrays`, `PhpStrings`, `StringUtil`, `QtiModel` (the rule tree), `ValidationBuilder`, `ScoringScenarios` (the two standard templates and the merge quirks, end to end), `Converter`, `PreProcessing` and `ConvertToQti`.

## Model

| member | source | states |
|---|---|---|
| ValidationBuilder.MapResponseScore | src/Processors/QtiV2/In/Validation/BaseInteractionValidationBuilder.php:347-356 | the `mapResponse` score is null exactly when the mapping has no entries |
| ValidationBuilder.FirstPositiveMappedValueWins | src/Processors/QtiV2/In/Validation/BaseInteractionValidationBuilder.php:350-355 | the scan stops at the first strictly positive mapped value, which becomes the score |
| ValidationBuilder.LastMappedValueWithoutPositive | src/Processors/QtiV2/In/Validation/BaseInteractionValidationBuilder.php:350-356 | with no positive mapped value the last entry's value is the score |
| ValidationBuilder.OutcomeValuesFromRules | src/Processors/QtiV2/In/Validation/BaseInteractionValidationBuilder.php:300-367 | each rule adds at most one positional outcome value |
| ValidationBuilder.ResolveOutcomeShift | src/Processors/QtiV2/In/Validation/BaseInteractionValidationBuilder.php:309-364 | a rule's contribution does not depend on what earlier rules collected: it appends its values, and its map_response score overrides earlier ones |
| ValidationBuilder.OutcomeValuesOfConcatenation | src/Processors/QtiV2/In/Validation/BaseInteractionValidationBuilder.php:309-364 | resolving two rule lists one after the other concatenates their values and logs, and the later mapped score wins |
| ValidationBuilder.BaseValuesCollectLiterals | src/Processors/QtiV2/In/Validation/BaseInteractionValidationBuilder.php:314-316 | `baseValue` rules collect exactly their literals, in order, with no map_response and no log |
| ValidationBuilder.UnknownVariableContributesNothing | src/Processors/QtiV2/In/Validation/BaseInteractionValidationBuilder.php:318-326 | a `variable` without an outcome declaration adds nothing and logs the missing mapping |
| ValidationBuilder.MapResponseNeedsMapping | src/Processors/QtiV2/In/Validation/BaseInteractionValidationBuilder.php:335-359 | `mapResponse` adds no positional value; it sets the mapped score exactly when the builder's own declaration has a mapping, whatever identifier it names |
| ValidationBuilder.ProcessConditionBranch | src/Processors/QtiV2/In/Validation/BaseInteractionValidationBuilder.php:219-292 | a branch result is string-keyed with distinct keys; the response id is present exactly for an isNull/match/equal guard and is its first operand; for any rules, isNull files the first outcome value as `unattempted`, match files it as `correct` with `scoring_type` "match", equal files a one-element `correct` list of that value as score and the literal as answer; isNull and match log one extra-rules warning ahead of the rules' log when there is more than one rule, equal and else log only the rules' log; an unsupported guard gives an empty result, no id and one log entry |
| ValidationBuilder.FirstValueOfRules | src/Processors/QtiV2/In/Validation/BaseInteractionValidationBuilder.php:309-364 | the first outcome value of a rule list is the first rule's literal for a `baseValue`, the declared first default for a declared `variable`, and otherwise the first value of the remaining rules |
| ValidationBuilder.NoValueFilesNull | src/Processors/QtiV2/In/Validation/BaseInteractionValidationBuilder.php:231-253 | a guarded branch whose rules are all `mapResponse` files null as its `unattempted` or `correct` value |
| ValidationBuilder.MapResponsesCollectNoValue | src/Processors/QtiV2/In/Validation/BaseInteractionValidationBuilder.php:338-359 | `mapResponse` rules add no positional outcome value |
| ValidationBuilder.OnlyFirstRuleScores | src/Processors/QtiV2/In/Validation/BaseInteractionValidationBuilder.php:231-270 | for a guarded branch whose first rule is a `baseValue`, that literal alone decides, whatever rules follow: isNull gives `unattempted`, match gives `correct` plus `scoring_type` "match", equal gives a one-element `correct` list of score and answer |
| ValidationBuilder.ElseBranchMeaning | src/Processors/QtiV2/In/Validation/BaseInteractionValidationBuilder.php:272-285 | an else branch gives `scoring_type` "partial" and the score when mapResponse fired; otherwise only `incorrect`, which is 0 exactly when the first value is empty and that value otherwise |
| ValidationBuilder.BranchIgnoresOperand | src/Processors/QtiV2/In/Validation/BaseInteractionValidationBuilder.php:231-270 | a branch's entries and log do not depend on which interaction its guard names |
| ValidationBuilder.MergeResponseResults | src/Processors/QtiV2/In/Validation/BaseInteractionValidationBuilder.php:194-208 | with an id, every other top-level key is unchanged and the key set is that of assigning the id; a fresh id gets exactly the branch result; distinct keys are kept |
| ValidationBuilder.MergeIntoGlobalScope | src/Processors/QtiV2/In/Validation/BaseInteractionValidationBuilder.php:196-198 | with an empty id, each string key takes the branch's value when it has one and keeps the old one otherwise |
| ValidationBuilder.MergeIntoExistingEntry | src/Processors/QtiV2/In/Validation/BaseInteractionValidationBuilder.php:199-201 | with an existing array entry, each key of that entry is merged recursively with the branch's value |
| ValidationBuilder.MergedUnderExistingId | src/Processors/QtiV2/In/Validation/BaseInteractionValidationBuilder.php:199-201 | the entry under an existing id becomes the recursive merge of the old entry and the branch result |
| ValidationBuilder.MergeElseIfs | src/Processors/QtiV2/In/Validation/BaseInteractionValidationBuilder.php:170-174 | merging the else-if branches keeps the keys distinct |
| ValidationBuilder.ProcessResponseCondition | src/Processors/QtiV2/In/Validation/BaseInteractionValidationBuilder.php:148-183 | the merged condition result has distinct keys |
| ValidationBuilder.ElseIfsKeepSingleEntry | src/Processors/QtiV2/In/Validation/BaseInteractionValidationBuilder.php:170-174 | merging under one id never adds a second top-level key |
| ValidationBuilder.ConditionFiledUnderIfId | src/Processors/QtiV2/In/Validation/BaseInteractionValidationBuilder.php:162-183 | when the if branch names a non-empty id, the whole condition is filed under that one key |
| ValidationBuilder.MergeElseIfsCongruent | src/Processors/QtiV2/In/Validation/BaseInteractionValidationBuilder.php:170-174 | the else-if loop depends only on each branch's entries and log |
| ValidationBuilder.ElseIfIdsIgnored | src/Processors/QtiV2/In/Validation/BaseInteractionValidationBuilder.php:170-180 | the id an else-if guard names is discarded: renaming it leaves the condition's result and log unchanged |
| ValidationBuilder.BuiltinScores | src/Processors/QtiV2/In/Validation/BaseInteractionValidationBuilder.php:77-91 | the scores merged over the top-level rules have distinct keys |
| ValidationBuilder.BuiltinScoresLogConcat | src/Processors/QtiV2/In/Validation/BaseInteractionValidationBuilder.php:76-90 | the log of a rule list is the log of its first part followed by the log of the rest |
| ValidationBuilder.SkippedRuleOnlyLogged | src/Processors/QtiV2/In/Validation/BaseInteractionValidationBuilder.php:87-88 | a non-condition top-level rule anywhere in the list leaves the scores as without it and puts one unsupported-rule entry at its place in the log |
| ValidationBuilder.SkippedRuleKeepsScores | src/Processors/QtiV2/In/Validation/BaseInteractionValidationBuilder.php:87-88 | a non-condition top-level rule anywhere in the list leaves the scores as without it |
| ValidationBuilder.SkippedRulesLogged | src/Processors/QtiV2/In/Validation/BaseInteractionValidationBuilder.php:76-90 | a list of only non-condition rules gives no scores and logs exactly one unsupported-rule entry per rule, naming its class, in order |
| ValidationBuilder.Conditions | src/Processors/QtiV2/In/Validation/BaseInteractionValidationBuilder.php:79-90 | selects only the top-level response conditions |
| ValidationBuilder.BuiltinScoresOnlyFromConditions | src/Processors/QtiV2/In/Validation/BaseInteractionValidationBuilder.php:77-91 | top-level rules other than conditions, including `setOutcomeValue`, contribute nothing |
| ValidationBuilder.NoConditionsNoScores | src/Processors/QtiV2/In/Validation/BaseInteractionValidationBuilder.php:77-93 | without a top-level condition the scores are the empty array |
| ValidationBuilder.GetBuiltinResponseValidation | src/Processors/QtiV2/In/Validation/BaseInteractionValidationBuilder.php:66-94 | the result is null exactly when there is no processing; otherwise its keys are distinct |
| ValidationBuilder.Catch | src/Processors/QtiV2/In/Validation/BaseInteractionValidationBuilder.php:133-136 | a hook that returns gives its validation; one that raises a mapping error gives null and logs the message |
| ValidationBuilder.BuildValidation | src/Processors/QtiV2/In/Validation/BaseInteractionValidationBuilder.php:96-137 | match_correct goes to the match hook, map_response and CC2 to the map hook; with no template, map entries are checked before correct values, else the no-template hook; an unknown template gives null |
| ValidationBuilder.BuiltinDispatch | src/Processors/QtiV2/In/Validation/BaseInteractionValidationBuilder.php:120-128 | a built-in processing with non-empty scores passes them to the match hook; null or empty scores give null with an "unrecognized scoring type" log |
| ValidationBuilder.BuiltinWithoutConditionsGivesNothing | src/Processors/QtiV2/In/Validation/BaseInteractionValidationBuilder.php:120-128 | a built-in processing without conditions never yields a validation |
| ValidationBuilder.BaseHooksNeverValidate | src/Processors/QtiV2/In/Validation/BaseInteractionValidationBuilder.php:36-58 | with the base class's own hooks no template yields a validation |
| ValidationBuilder.GetScoresForInteraction | src/Processors/QtiV2/In/Validation/BaseInteractionValidationBuilder.php:375-386 | the entry is returned exactly when a declaration exists and its id's entry is non-empty, and then it is that entry |
| ValidationBuilder.GetValidationScoringData | src/Processors/QtiV2/In/Validation/BaseInteractionValidationBuilder.php:396-412 | the mode is partialMatch exactly when `scoring_type` is "partial"; the score is the float of a non-empty `correct`, else of a non-empty `score`, else 1 |
| ScoringScenarios.MatchCorrectTreeScoresExactly | src/Processors/QtiV2/In/Validation/BaseInteractionValidationBuilder.php:66-94 | the match_correct rule tree files `correct` 1, `scoring_type` match and `incorrect` 0 under the declaration's id, and scores 1.0 in exactMatch mode |
| ScoringScenarios.MapResponseTreeScoresPartially | src/Processors/QtiV2/In/Validation/BaseInteractionValidationBuilder.php:66-94 | the map_response rule tree files `unattempted`, `scoring_type` partial and the mapped score under the id, and scores the mapped value (1 when it is null or 0) in partialMatch mode |
| ScoringScenarios.IfElseCondition | src/Processors/QtiV2/In/Validation/BaseInteractionValidationBuilder.php:162-181 | an if/else condition merges the else result under the if branch's id |
| ScoringScenarios.IfElseIfCondition | src/Processors/QtiV2/In/Validation/BaseInteractionValidationBuilder.php:162-174 | an if/else-if condition merges the else-if result under the if branch's id |
| ScoringScenarios.SingleConditionProcessing | src/Processors/QtiV2/In/Validation/BaseInteractionValidationBuilder.php:77-93 | a processing of one condition yields exactly that condition's result |
| ScoringScenarios.MatchThenEqualCollideIntoLists | src/Processors/QtiV2/In/Validation/BaseInteractionValidationBuilder.php:199-201 | a match branch followed by an equal else-if turns both `correct` and both `scoring_type` values into two-element lists, and scoring still reports exactMatch |
| ScoringScenarios.TwoKeysCollide | src/Processors/QtiV2/In/Validation/BaseInteractionValidationBuilder.php:201 | merging recursively two arrays with the same two string keys collides the values under each key, in order |
| PhpArrays.Lookup | src/Processors/QtiV2/In/Validation/BaseInteractionValidationBuilder.php:199 | a lookup is absent exactly when the key is absent, and otherwise returns a stored entry's value |
| PhpArrays.LookupUnique | src/Processors/QtiV2/In/Validation/BaseInteractionValidationBuilder.php:199 | with distinct keys, looking up an entry's key finds that entry's value |
| PhpArrays.Set | src/Processors/QtiV2/In/Validation/BaseInteractionValidationBuilder.php:201-204 | assigning a key overwrites it in place or appends it; the new value is found and no other key changes |
| PhpArrays.Remove | src/Converter.php:208 | after `unset` the key is absent and every other key keeps its value |
| PhpArrays.Append | src/Converter.php:73 | `$a[] = v` stores v under one more than the largest integer key, and at least 0, and changes nothing else |
| PhpArrays.PutAllPointwise | src/Processors/QtiV2/In/Validation/BaseInteractionValidationBuilder.php:198 | after `array_merge`, a string key holds the second array's value when it has one, else the first's |
| PhpArrays.ArrayMergePointwise | src/Processors/QtiV2/In/Validation/BaseInteractionValidationBuilder.php:198 | the same for `array_merge` of two arrays with distinct keys |
| PhpArrays.MergeFromPointwise | src/Processors/QtiV2/In/Validation/BaseInteractionValidationBuilder.php:201 | merging recursively entry by entry combines each string key's two values |
| PhpArrays.ArrayMergeRecursivePointwise | src/Processors/QtiV2/In/Validation/BaseInteractionValidationBuilder.php:201 | after `array_merge_recursive`, a string key present on one side keeps that value; on both sides the two values collide |
| PhpArrays.ArrayMergeRecursive | src/Processors/QtiV2/In/Validation/BaseInteractionValidationBuilder.php:80 | the recursive merge always has distinct keys |
| PhpArrays.ArrayMergeRecursiveDisjoint | src/Processors/QtiV2/In/Validation/BaseInteractionValidationBuilder.php:80 | merging recursively string-keyed arrays with disjoint keys concatenates them |
| PhpArrays.ScalarCollisionIsList | src/Processors/QtiV2/In/Validation/BaseInteractionValidationBuilder.php:201 | two colliding scalars become the two-element list of both, in order |
| PhpArrays.ScalarCollidesWithSingleton | src/Processors/QtiV2/In/Validation/BaseInteractionValidationBuilder.php:201 | a scalar colliding with a one-element list becomes the scalar followed by the list's element |
| PhpArrays.SymtableKey | src/Services/LearnosityToQtiPreProcessingService.php:21 | a string key becomes an integer key exactly when it is a canonical decimal numeral whose value lies in the 64-bit range, and is kept as it is otherwise |
| PhpArrays.DigitsReadBack | src/Services/LearnosityToQtiPreProcessingService.php:21 | the decimal digits of a number read back as that number and have no leading zero |
| PhpArrays.IntStringReadBack | src/Services/LearnosityToQtiPreProcessingService.php:21 | an integer written in decimal is a canonical numeral denoting that integer |
| PhpArrays.IntStringKeyRoundTrip | src/Services/LearnosityToQtiPreProcessingService.php:21 | every 64-bit integer written in decimal is read back as the same integer key |
| PhpArrays.Values | src/Converter.php:220 | `foreach` visits the values in order |
| PhpArrays.List | src/Converter.php:206 | a list holds its i-th value under the integer key i |
| PhpStrings.Strpos | src/Utils/StringUtil.php:18 | the first occurrence at or after the offset; none for an empty needle or no occurrence |
| PhpStrings.LastOccurrence | src/Utils/StringUtil.php:23 | the last occurrence lying wholly inside the window |
| PhpStrings.StrReplaceLeading | src/Services/LearnosityToQtiPreProcessingService.php:29 | a leading occurrence is replaced and the scan resumes after it |
| PhpStrings.StrReplaceWithoutOccurrence | src/Services/LearnosityToQtiPreProcessingService.php:29 | a subject without the search string comes back unchanged |
| PhpStrings.Trim | src/Services/LearnosityToQtiPreProcessingService.php:65-66 | the result is a contiguous part of the input with only trim characters outside it on either side; it neither starts nor ends with a trim character, and an already trimmed string is unchanged |
| PhpStrings.TrimEndChar | src/Services/LearnosityToQtiPreProcessingService.php:45 | `rtrim` with one character removes exactly the trailing run of it |
| PhpStrings.ToLower | src/Services/LearnosityToQtiPreProcessingService.php:110 | `strtolower` maps each character, changing only ASCII capitals |
| PhpStrings.SplitWhitespace | src/Services/LearnosityToQtiPreProcessingService.php:107 | no piece holds whitespace; a string without whitespace is one piece; the first piece runs to the first whitespace |
| PhpStrings.ImplodeExplode | src/Services/ConvertToQtiService.php:638 | joining the pieces of `explode` with the delimiter gives back the string |
| PhpStrings.ExplodePiecesLackDelimiter | src/Services/ConvertToQtiService.php:638 | no piece of `explode` contains the delimiter |
| PhpStrings.Substr | src/Services/ConvertToQtiService.php:577 | `substr` from a start is false past the end and otherwise the rest after the start |
| PhpStrings.Bin2Hex | src/Utils/StringUtil.php:13 | two lowercase hexadecimal digits per byte |
| PhpStrings.Hex2BinBin2Hex | src/Utils/StringUtil.php:13 | the hexadecimal text recovers the bytes |
| StringUtil.Contains | src/Utils/StringUtil.php:16-19 | `contains` never holds for the empty needle |
| StringUtil.ContainsIffOccurs | src/Utils/StringUtil.php:16-19 | `contains` holds exactly when the needle is non-empty and occurs somewhere |
| StringUtil.StartsWithIsPrefix | src/Utils/StringUtil.php:21-24 | `startsWith` is the prefix test; it is true for the empty needle and false for a longer needle |
| StringUtil.EndsWithIsSuffix | src/Utils/StringUtil.php:26-29 | `endsWith` holds exactly when the needle fits and is the haystack's suffix |
| StringUtil.StartsAndEndsWithItself | src/Utils/StringUtil.php:21-29 | every string starts and ends with itself |
| StringUtil.AffixIsContained | src/Utils/StringUtil.php:16-29 | a non-empty prefix or suffix is contained in the string |
| StringUtil.GenerateRandomString | src/Utils/StringUtil.php:7-14 | zero or odd lengths raise "Length must be even number"; otherwise the output is two lowercase hex digits per drawn byte |
| StringUtil.RandomStringCarriesDrawnBytes | src/Utils/StringUtil.php:12-13 | for an even positive length the output has exactly that many characters and encodes the drawn bytes |
| Converter.GuessJsonDataType | src/Converter.php:231-255 | empty data is "Invalid JSON"; without `type` it is an item exactly when reference or content is set; with `type` and `data` it is a question exactly when reference is set; with `type` only it is questiondata |
| Converter.GuessGivesKnownKind | src/Converter.php:159-170 | the classifier only answers item, question or questiondata |
| Converter.ItemCheckedBeforeData | src/Converter.php:238-243 | without `type`, the `data` key plays no part |
| Converter.UnknownFormatUnreachable | src/Converter.php:168-170 | "Unknown JSON format" is never raised by the dispatch |
| Converter.ConvertLearnosityToQti | src/Converter.php:155-170 | a classification failure propagates; each kind is preprocessed and sent to its own writer |
| Converter.ColumnOfKeyedRows | src/Converter.php:206 | when every row holds the key, `array_column` has one value per row, in order |
| Converter.ColumnAt | src/Converter.php:206 | the i-th column value is the i-th row's value under the key |
| Converter.ColumnLength | src/Converter.php:206 | all rows keyed gives one value per row |
| Converter.MappedQuestions | src/Converter.php:219-224 | the mapped questions are exactly those whose type is not audioplayer, videoplayer or sharedpassage |
| Converter.MappedQuestionsConcat | src/Converter.php:219-224 | the question filter keeps the relative order |
| Converter.SplitItem | src/Converter.php:203-213 | splitting needs the questions to be an array, and the item no longer holds `questions` |
| Converter.SplitItemContents | src/Converter.php:206-213 | `questionReferences` is the processed column of question references; every other key holds the processed original value |
| Converter.SplitItemQuestions | src/Converter.php:211-224 | the questions passed on are the filtered questions after preprocessing with the question widgets |
| Converter.LineEnd | src/Converter.php:132 | the end of the line holding a position: the next newline or the end |
| Converter.RewriteWithoutPrefix | src/Converter.php:132 | a message without the schema prefix is unchanged |
| Converter.RewriteFirstLine | src/Converter.php:132 | a message starting with the prefix has the rest of its first line replaced by the standard text |
| Converter.RewriteSingleLine | src/Converter.php:132 | a one-line message starting with the prefix becomes exactly the standard text |
| Converter.StorageErrorToFailure | src/Converter.php:130-136 | a schema error becomes an invalid-QTI failure with the rewritten message; any other storage error is kept |
| Converter.ConvertQtiItemToLearnosity | src/Converter.php:126-137 | a successful parse is returned; a storage error is mapped as above; any other error is passed on |
| Converter.SchemaErrorReported | src/Converter.php:130-133 | a one-line schema error is reported as exactly the replacement text |
| Converter.XmlBasename | src/Converter.php:58 | a name ending in `.xml` (and longer than the suffix) loses exactly that suffix; any other name is kept whole |
| Converter.ResultPath | src/Converter.php:58 | the result is written to a `.json` path |
| Converter.ResultPathOfXml | src/Converter.php:58 | the JSON for `NAME.xml` goes to `Json/NAME.json` under the output directory; a file named just `.xml` gives `Json/.xml.json` |
| Converter.ConvertDirectory | src/Converter.php:53-86 | every written file is a reference or a failure; the manifest is never recorded as failed |
| Converter.ConvertDirectoryConcat | src/Converter.php:53-86 | converting two runs of files one after the other combines their outcomes; a failure does not stop later files |
| Converter.SingleFileOutcome | src/Converter.php:55-84 | the manifest is skipped; a success writes its result and records its reference; a failure writes a failed result and records the file name |
| Converter.ConvertDirectoryReferences | src/Converter.php:53-86 | the returned references are exactly those of the successful files, in order |
| PreProcessing.IndexWidgets | src/Services/LearnosityToQtiPreProcessingService.php:19-22 | the widget index has distinct keys and at most one entry per widget |
| PreProcessing.LastFiledUnder | src/Services/LearnosityToQtiPreProcessingService.php:21 | the last widget filed under a key, or none when no widget has it |
| PreProcessing.IndexWidgetsLaterWins | src/Services/LearnosityToQtiPreProcessingService.php:21 | for duplicate references the later widget wins: under a string key, or under any key when every row has a reference, the index holds exactly the last widget filed there, and nothing when there is none |
| PreProcessing.IndexWidgetsFiledRowWins | src/Services/LearnosityToQtiPreProcessingService.php:21 | whenever some widget is filed under a key, integer keys included, the index holds the last such widget there, whatever rows without a reference are appended |
| PreProcessing.ProcessJson | src/Services/LearnosityToQtiPreProcessingService.php:24-34 | arrays stay arrays with the same keys in order, strings stay strings, other leaves are unchanged |
| PreProcessing.ProcessJsonKeepsKeys | src/Services/LearnosityToQtiPreProcessingService.php:26 | the processed array keeps the original keys |
| PreProcessing.LookupProcessed | src/Services/LearnosityToQtiPreProcessingService.php:26 | looking a key up in a processed array finds the processed value |
| PreProcessing.ProcessJsonAlongPath | src/Services/LearnosityToQtiPreProcessingService.php:26-31 | each nested string leaf is rewritten in place, and other leaves and missing paths are unchanged |
| PreProcessing.NbspRemovedBeforeHtml | src/Services/LearnosityToQtiPreProcessingService.php:29-30 | no `&nbsp;` is left in the string handed to the HTML step |
| PreProcessing.ReplaceLeavesNoOccurrence | src/Services/LearnosityToQtiPreProcessingService.php:29 | a replacement that cannot restart the search string leaves no occurrence |
| PreProcessing.ReplaceKeepsLength | src/Services/LearnosityToQtiPreProcessingService.php:29 | an equally long replacement keeps the length |
| PreProcessing.SelfClose | src/Services/LearnosityToQtiPreProcessingService.php:44-46 | the rewritten tag ends in `/>` after the tag with all its trailing `>` removed |
| PreProcessing.SelfCloseOfSelfClosed | src/Services/LearnosityToQtiPreProcessingService.php:45 | a tag already ending in `/>` gains another slash |
| PreProcessing.FirstFeatureToken | src/Services/LearnosityToQtiPreProcessingService.php:108-113 | the first token that starts with `feature-` when lower-cased, or none |
| PreProcessing.FeatureReferenceFromClassName | src/Services/LearnosityToQtiPreProcessingService.php:103-116 | null exactly when no token matches, case-insensitively; otherwise the second token with `feature-` removed, or "" when there is no second token |
| PreProcessing.SplitTwoWords | src/Services/LearnosityToQtiPreProcessingService.php:107 | two space-free words joined by a space split into those words |
| PreProcessing.TwoTokenClass | src/Services/LearnosityToQtiPreProcessingService.php:107-112 | with two tokens, one matching, the result is the second token with `feature-` removed |
| PreProcessing.FeatureClassYieldsReference | src/Services/LearnosityToQtiPreProcessingService.php:105-112 | `learnosity-feature feature-REF` yields REF |
| PreProcessing.SecondTokenWins | src/Services/LearnosityToQtiPreProcessingService.php:108-112 | a matching first token still yields the second token |
| PreProcessing.IssetOrEmpty | src/Services/LearnosityToQtiPreProcessingService.php:77-82 | the nested value when it is set, else "" |
| PreProcessing.ClassFeatureType | src/Services/LearnosityToQtiPreProcessingService.php:75-83 | the type of the referenced widget, or else the `type` of the widget index's entry 1 |
| PreProcessing.FeatureReplacement | src/Services/LearnosityToQtiPreProcessingService.php:61-101 | an inline feature is replaced exactly when its trimmed type is audioplayer or videoplayer; a class feature exactly when its type is sharedpassage; every other case is rejected |
| PreProcessing.ClassReferencedMediaRejected | src/Services/LearnosityToQtiPreProcessingService.php:84-87 | a class-referenced audio or video feature is rejected |
| PreProcessing.ReplacementMatchesNodeKind | src/Services/LearnosityToQtiPreProcessingService.php:64-95 | media objects come only from inline features, shared passages only from class features |
| PreProcessing.InlineIgnoresWidgets | src/Services/LearnosityToQtiPreProcessingService.php:64-69 | an inline feature's decision does not depend on the widgets |
| PreProcessing.ProcessFeatureNode | src/Services/LearnosityToQtiPreProcessingService.php:49-57 | a rejected feature leaves the node as it was and is logged; an accepted one is replaced by the marshalled element |
| ConvertToQti.StrReplacePastPlainPrefix | src/Services/ConvertToQtiService.php:643 | text that cannot start the search string is kept by `str_replace` |
| ConvertToQti.CleanSpan | src/Services/ConvertToQtiService.php:643-649 | a span's opening markup, tag end and surrounding whitespace are stripped, leaving the reference |
| ConvertToQti.QuestionSpanFilesReference | src/Services/ConvertToQtiService.php:647-650 | a question span segment yields its question reference |
| ConvertToQti.QuestionSpanFound | src/Services/ConvertToQtiService.php:647 | a question span segment contains `question` past position 0 |
| ConvertToQti.FeatureReferenceAfter | src/Services/ConvertToQtiService.php:642-645 | no feature reference is in force exactly when no earlier-or-same segment has one |
| ConvertToQti.FeatureReferencePersists | src/Services/ConvertToQtiService.php:642-653 | a feature reference stays in force until the next one |
| ConvertToQti.ReferenceArray | src/Services/ConvertToQtiService.php:640-656 | at most one row per segment, each for an earlier segment |
| ConvertToQti.ReferenceArrayRows | src/Services/ConvertToQtiService.php:647-653 | each row stands for a question segment and carries the feature reference in force there; rows follow segment order |
| ConvertToQti.ReferenceArrayComplete | src/Services/ConvertToQtiService.php:647-650 | every question segment has a row |
| ConvertToQti.GetReferenceArray | src/Services/ConvertToQtiService.php:635-657 | the loop builds exactly the reference table |
| ConvertToQti.GetFeatureReference | src/Services/ConvertToQtiService.php:659-671 | the result is "" or some row's feature reference |
| ConvertToQti.NoRowNoFeature | src/Services/ConvertToQtiService.php:659-671 | with no matching row the result is "" |
| ConvertToQti.LastRowWins | src/Services/ConvertToQtiService.php:662-669 | the last matching row with a feature reference decides |
| ConvertToQti.OtherRowsIgnored | src/Services/ConvertToQtiService.php:663 | rows for other questions make no difference |
| ConvertToQti.FilterMembers | src/Services/ConvertToQtiService.php:676-680 | the filter keeps exactly the accepted elements |
| ConvertToQti.FilterConcat | src/Services/ConvertToQtiService.php:676-680 | the filter works piecewise, keeping order |
| ConvertToQti.GetFeature | src/Services/ConvertToQtiService.php:673-683 | exactly the features whose reference is the argument |
| ConvertToQti.GetFeatureConcat | src/Services/ConvertToQtiService.php:673-683 | `getFeature` keeps the input order |
| ConvertToQti.AddAdditionalFileInfo | src/Services/ConvertToQtiService.php:573-582 | one file per entry is appended after the existing ones, in order, with the item-bank path length cut off |
| ConvertToQti.AdditionalFileHref | src/Services/ConvertToQtiService.php:577 | an entry under the item-bank path gets the rest; a shorter entry gets false |
| ConvertToQti.ConvertEach | src/Services/ConvertToQtiService.php:234-278 | at most one result per item |
| ConvertToQti.ConvertEachCountsSupported | src/Services/ConvertToQtiService.php:244-256 | when no conversion raises, there is exactly one result per supported item |
| ConvertToQti.UnsupportedContributesNothing | src/Services/ConvertToQtiService.php:248-256 | an unsupported item contributes nothing |
| ConvertToQti.SupportedItemAppended | src/Services/ConvertToQtiService.php:244-247 | a supported item's result is appended with the item-bank path removed |
| ConvertToQti.PrepareWithFeatures | src/Services/ConvertToQtiService.php:236-242 | a question of the first loop carries the item's content; its `feature` is the list of features found for the question's feature reference, or the empty array when that reference is ""; every other key keeps its value |
| ConvertToQti.PrepareWithoutFeatures | src/Services/ConvertToQtiService.php:263-264 | a question of the second loop carries the content and no features |
| ConvertToQti.PrepareFeature | src/Services/ConvertToQtiService.php:283 | a feature carries the item's content |
| ConvertToQti.ConvertAssessmentItem | src/Services/ConvertToQtiService.php:221-303 | the result carries the original JSON; features are converted only without questions; questions only when present |
| ConvertToQti.OneQuestionLoop | src/Services/ConvertToQtiService.php:231-260 | for array or missing features at most one question loop runs |
| ConvertToQti.BothQuestionLoops | src/Services/ConvertToQtiService.php:231-260 | features equal to "0" run both question loops |
| ConvertToQti.QuestionsSuppressFeatures | src/Services/ConvertToQtiService.php:281 | an item with questions converts no features |

## Left out

- Filesystem and I/O: directory creation, Finder's file order, image extraction, JSON writing, console output and `LogService` output. The directory loop takes the files as a sequence in the order Finder yields them.
- `createSharedPassageFolder` (src/Services/ConvertToQtiService.php:227-229) is a filesystem side effect and is not modelled.
- Collaborators are parameters: the item mapper and writers, the qtism object model and its marshaller, `SimpleHtmlDom` parsing and saving, mime guessing, `strip_tags`, `openssl_random_pseudo_bytes`, and the reading of a numeric prefix in `floatval` of a string.
- Log text is a closed `Diagnostic` datatype, not the PHP message strings.
- Scores are reals. The int/float distinction between the default score 1 and `floatval` results is not kept.
- Input shapes on which the interpreter would crash are not representable. These include a guard operand without an identifier, an outcome declaration without a default value, and rules other than `setOutcomeValue` inside a branch.
- Behaviour under PHP 8 is not modelled. The code cannot load there, because it imports `Match`.
- ValidationBuilder.Catch: only the mapping exception is caught. A hook raising anything else is outside the model, because hooks return `HookOutcome`.
- ValidationBuilder.BuiltinScoresOnlyFromConditions: the "Skipping top level SetOutcomeValue" log can never be written. The class it tests is not imported, so every non-condition rule takes the unsupported-rule arm.
- ValidationBuilder.MapResponseNeedsMapping: `$this->responseDeclarations` is never assigned. `mapResponse` therefore always reads the builder's own declaration, and its identifier is ignored.
- QTI identifiers are used as string keys directly. qtism rejects identifiers that look like decimal numerals, so PHP's numeric-key normalisation never applies to them.
- HTML attributes without a value, and repeated attributes, are not represented in a feature node.
- Converter.ConvertDirectory: only an `Exception` from converting a file is caught (src/Converter.php:74). The model treats every conversion failure as such an exception; an `Error` or `TypeError` raised by the mapper would end the loop and the whole call, and that outcome is not modelled.
- PHP strings are byte strings, while the model's strings are sequences of characters. Positions and lengths therefore agree only for single-byte text. For example, `substr` at 28 of fourteen `é` (28 bytes in UTF-8) gives "" in PHP but false in the model.
- PhpStrings.Substr: positions count characters, not bytes, as the line above says.
- PhpArrays.SymtableKey: the range of an integer key is that of a 64-bit build; a 32-bit build is not modelled.
- The PHP builtins `empty` (`PhpArrays.IsEmpty`, `PhpArrays.EmptyAt`), `count` (`PhpArrays.Count`), `floatval` (`PhpArrays.FloatVal`), loose `in_array` (`PhpArrays.LooselyIn`), `strrpos` (`PhpStrings.Strrpos`) and `str_replace` (`PhpStrings.StrReplace`) are reference definitions written case by case from PHP 7's documented behaviour. They carry no contract of their own beyond the occurrence bound of `Strrpos`; their properties are stated by the lemmas and members that use them.
- Converter.ColumnOfKeyedRows: `array_column` is modelled as PHP 7 does it on arrays. Rows that are objects are not modelled. The one-value-per-row property is stated only when every row holds the key. `Column` itself states only the length bound.
- ConvertToQti.ConvertEach: a question that is a string is read as having no fields. PHP string-offset reads and writes on it are not modelled.
- ConvertToQti.GetFeatureReference: the loose `==` comparison is modelled as equality of the question value with a string reference. For strings and references that are non-numeric text, the two agree.
- ConvertToQti.GetFeature: the same loose `==` is modelled as equality with a string reference. A feature that is a string is read as having no `reference`, so it is never kept; PHP 7 reads `$feature['reference']` of a string as its first character (with an "Illegal string offset" warning) and can keep it.
- ConvertToQti.ConvertAssessmentItem: a `questions` value that is not an array is treated as having no elements, as PHP 7's `foreach` does after its "Invalid argument supplied for foreach()" warning; the warning itself is not modelled. The "Ignoring ..." result built for unsupported items is overwritten without being used, and is not modelled.
- ConvertToQti.GetReferenceArray: it starts from the segments already classified (`ClassifyAll`), that is, after `strip_tags` and `explode`.
- StringUtil.GenerateRandomString: only the length guard and the output shape are stated. The randomness of the bytes is not modelled. A negative even length gives "" as on PHP 7.0 to 7.3; PHP 7.4 throws an `Error` from `openssl_random_pseudo_bytes` there instead, which is not modelled.
- The generated entity classes, the QTI-out mappers and validation builders, and the test files are not part of this model.
