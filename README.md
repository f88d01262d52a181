# normalizer — a Dafny model

`hiscaler/normalizer` extracts a key→typed-value map from loosely formatted text made of
`label<separator>value` lines, driven by a list of rules (`NormalizePattern`). This project models
the `Normalizer` object of `normalizer.go`. That covers:

- the label normalisation `clean`;
- the configuration setters;
- rule installation (`SetPatterns`);
- rule validation with its cached verdict (`Validate`);
- the two loops of `Parse`:
  - the line scan, which matches labels exactly or by whole word, tracks the per-rule `used` flags and attaches continuation lines;
  - the second pass, which transforms each value (replacements longest key first), casts it to the rule's type and merges it into `Items`.

Modules:

- `Wrappers`: `Option` and map lookup.
- `Strings`: the parts of Go's `strings`/`strconv` used by the normalizer, over `seq<char>`.
  `TrimSpace` uses `unicode.IsSpace`. `\s` is the RE2 class `[\t\n\f\r ]`. Lengths for sorting are UTF-8 byte counts.
- `Labels`: `clean`, the known-label set and the fuzzy whole-word match.
- `Values`: the value union, `ParseInt`/`ParseBool`, the replacer, the sort by key length, the
  array split, the cast, the merge and the coercion of defaults.
- `Rules`: the rule datatype, the preparation done by `SetPatterns`, and the validation as a function `Violation`.
- `Engine`: the line scan (`Scan`) and the record loop (`Apply`) as specification functions, with their lemmas.
- `Normalizer`: the class `Normalizer` with fields `labels`, `separator`, `strictMode`,
  `validate`, `errors`, `originalText`, `patterns`, `used`, `items`. Its methods are loops proved
  against the Engine/Rules functions. Between calls the class keeps the invariant `Valid()`:
  - the rules are prepared;
  - the verdict is cached only for valid rules;
  - valid rules have distinct keys whose entries hold values of the rules' types.

`Parse` does not reset
`Items` to the defaults: it merges into whatever the map holds. `SetOriginalText` empties the map
rather than restoring the defaults. So the key set of `Items` is the set of rule keys only right
after `SetPatterns`. After `SetOriginalText`, then `Parse`, it holds exactly the keys of the rules
that matched a line (`Normalizer.ParseOutcomeKeys`, from `Engine.ApplyAllKeys` and `Engine.ScanKeys`).

Three pieces of code that `normalizer.go` calls are not part of this model's sources:

- Float parsing (`strconv.ParseFloat`) and the `spf13/cast` coercions of default values. These
  are parameters of the model, in the datatype `Values.Library`.
- `inx.StringIn` of the `gox` library, which the type check calls. It is modelled as membership
  up to case (`strings.EqualFold`), as `Rules.StringIn`. The casts and merges compare the type
  exactly, so a rule typed `Int` passes `Validate` and its values are kept as strings
  (`Rules.MixedCaseType`).
- `stringx.Split`, also from `gox`. It follows its documented behaviour:
  - the empty value gives no element;
  - the value is cut at every occurrence of any separator, the first one listed winning at a position;
  - every piece is trimmed.

## Model

| member | source | states |
|---|---|---|
| Labels.Clean | normalizer.go:116-125 | The empty label cleans to the empty string; every cleaned label is trimmed |
| Labels.CleanShape | normalizer.go:123-124 | Outside strict mode the cleaned label has no upper-case letter, no two adjacent `\s` characters and no full-width space |
| Labels.CleanStrict | normalizer.go:120-122 | In strict mode cleaning is exactly `TrimSpace`, so case and inner spacing are kept |
| Labels.CleanIdempotent | normalizer.go:116-125 | Cleaning a cleaned label changes nothing, in both modes |
| Labels.ReplaceFullWidthShape | normalizer.go:47 | After the full-width replacer no U+3000 is left, and a text without one is unchanged |
| Labels.CollapseShape | normalizer.go:46 | Collapsing `\s{2,}` leaves no adjacent `\s` pair and adds only the space character |
| Labels.CollapseKeepsText | normalizer.go:123 | Collapsing changes only white-space runs: the non-space text is the same sequence |
| Labels.CollapseFixpoint | normalizer.go:123 | A text without adjacent `\s` is unchanged by the collapse |
| Labels.TrimKeepsNoAdjacent | normalizer.go:124 | Trimming keeps single spacing |
| Labels.LowerKeepsSpaces | normalizer.go:124 | Lower-casing keeps length and white space and leaves no upper-case letter |
| Labels.LowerKeepsShape | normalizer.go:124 | Lower-casing a single-spaced text without full-width spaces keeps both properties |
| Labels.LabelSetCleaned | normalizer.go:129-133 | Every label in the known-label set is non-empty and already clean |
| Labels.WholeWordFound | normalizer.go:37 | The fuzzy match finds `name` in `baby name` |
| Labels.WholeWordNotInsideWord | normalizer.go:39 | The fuzzy match does not find `name` inside `baby username` |
| Labels.WholeWordNeedsSpaceAfter | normalizer.go:259 | The source's pattern needs white space or the end after the keyword, so `name` is not found in `your name?` |
| Strings.TrimSpaceBlank | normalizer.go:389 | `TrimSpace(s)` is empty exactly when `s` is all white space |
| Strings.TrimSpace | normalizer.go:218 | The trimmed text has no white space at either end, is no longer than the input, and a text already trimmed is unchanged |
| Strings.TrimLeftRemovesSpace | normalizer.go:218 | What trimming removes on the left is white space |
| Strings.TrimRightRemovesSpace | normalizer.go:218 | What trimming removes on the right is white space |
| Strings.EqualFoldLower | normalizer.go:400 | `EqualFold` holds exactly when the lower-case forms are equal |
| Strings.IndexFirst | normalizer.go:251 | `Index` returns the first occurrence, and -1 exactly when there is none |
| Strings.JoinSplit | normalizer.go:217 | Joining the lines of `strings.Split` with the separator gives the text back |
| Strings.SplitPiecesFree | normalizer.go:217 | No line that `strings.Split` returns contains the separator |
| Strings.Utf8LenPrefix | normalizer.go:311-313 | A proper prefix has fewer UTF-8 bytes, so a longer key that extends another sorts first |
| Values.Coerce | normalizer.go:164-183 | The default has the rule's type, and an array rule always defaults to the empty array |
| Values.ParseBool | normalizer.go:337 | `strconv.ParseBool` accepts exactly its twelve spellings and is true exactly for the six true ones |
| Values.ParseInt | normalizer.go:341 | The result is within 64 bits, and a failed parse that does not give a bound (the overflow result) gives 0 |
| Values.ParseIntFormatInt | normalizer.go:341 | Every 64-bit integer is read back from its decimal text with no error |
| Values.ParseIntOk | normalizer.go:341 | `ParseInt` succeeds exactly on an optional sign followed by one or more digits whose value is within 64 bits, and then gives that value |
| Values.ParseIntDecimal | normalizer.go:341 | A decimal text gives its value, or the nearer 64-bit bound with a range error |
| Values.ParseIntNotDecimal | normalizer.go:341 | Any other text gives 0 with the syntax error, unless the digits before its first non-digit already overflow, which gives the bound with the range error |
| Values.ParseDigitsOfDigits | normalizer.go:341 | Over digits only, the digit loop gives their value, or a range error past 2^64-1 |
| Values.ParseDigitsNonDigit | normalizer.go:341 | The digit loop stops at the first non-digit with a syntax error, unless the digits before it already overflowed |
| Values.IntCastSyntaxError | normalizer.go:340-341 | An int rule's value that does not start with a digit after its optional sign (the empty text and a lone sign included) casts to 0 and assigns the syntax error |
| Values.ParseDigitsOfNat | normalizer.go:341 | The digits of a natural number within 64 bits are read back as that number |
| Values.IntCastRoundTrip | normalizer.go:340-341 | Casting the decimal text of a 64-bit integer to `int` gives that integer and assigns no error |
| Values.BooleanAliases | normalizer.go:326-339 | Empty is false; `y`/`yes` true and `n`/`no` false in any case, without touching `err`; any other unknown word is false with a ParseBool syntax error |
| Values.CastKeepsErr | normalizer.go:324-349 | The cast leaves `err` as it was exactly for an empty or `y`/`yes`/`n`/`no` boolean, an array, and any type the switch does not name (such as `String`) |
| Values.Cast | normalizer.go:324-349 | The cast value has the rule's type |
| Values.FirstKeyAt | normalizer.go:319 | The replacer's choice at a position is the first pair in order whose key starts there, and none when no key does |
| Values.ReplaceNoOccurrence | normalizer.go:319 | Where no key occurs, the replacer changes nothing |
| Values.SortByKeyLength | normalizer.go:311-313 | The keys are ordered by decreasing byte length, and the result is a permutation of the pairs |
| Values.InsertByKeyLength | normalizer.go:311-313 | Inserting keeps the order and adds exactly the inserted pair |
| Values.NoEmptyKeysSorted | normalizer.go:149-153 | Sorting keeps the replacements free of empty keys |
| Values.LongestKeyFirst | normalizer.go:304-319 | After the sort, the key replaced at a position is the longest key that occurs there |
| Values.TransformedTrimmed | normalizer.go:322 | With replacements, the transformed value is trimmed |
| Values.FuzzyIgnoresCase | normalizer.go:295-301 | A fuzzy transform gives the same result for values equal up to case |
| Values.SortFourteenFour | normalizer.go:304-313 | `{four, fourteen}` sorts to `fourteen` before `four` |
| Values.ReplaceFourteenFour | normalizer.go:314-319 | Replacing with `fourteen` first turns `fourteen,four` into `14,4` |
| Values.FourteenBeforeFour | normalizer.go:304-305 | The transform turns `fourteen,four` into `14,4`, not `14teen,4` |
| Values.SplitValue | normalizer.go:345 | The empty value splits into no element, and every element is trimmed |
| Values.PiecesSingle | normalizer.go:345 | With one separator the untrimmed pieces are those of `strings.Split` |
| Values.PiecesJoin | normalizer.go:345 | With one separator, joining the untrimmed pieces gives the value back |
| Values.Merged | normalizer.go:353-369 | Merging keeps the rule's type |
| Rules.DropEmptyKeys | normalizer.go:149-153 | Exactly the pairs with a non-empty key are kept |
| Rules.Prepare | normalizer.go:146-163 | A prepared rule has a separator and no empty replacement key |
| Rules.PrepareAllPrepared | normalizer.go:144-163 | Every installed rule is prepared |
| Rules.DefaultsKeys | normalizer.go:143-185 | The map `SetPatterns` builds has exactly the rules' keys |
| Rules.DefaultsAt | normalizer.go:183 | With distinct keys, each rule's key holds that rule's coerced default |
| Engine.DefaultsKinded | normalizer.go:164-183 | With distinct keys, every default held for a rule has that rule's type |
| Rules.SharedKeywordSpec | normalizer.go:403-408 | The search returns a keyword of the first list that folds equal to one of the second, and none exactly when no pair folds equal |
| Rules.PairViolationNoneIff | normalizer.go:398-410 | The pair loop finds nothing exactly when rule `i` has a key and keywords disjoint from every later rule |
| Rules.ViolationFromNoneIff | normalizer.go:387-411 | The rule loop finds nothing exactly when every rule passes its own checks and every pair is disjoint |
| Rules.ViolationNoneIff | normalizer.go:376-415 | `Validate` accepts exactly the well-formed rule lists: non-blank key, known type, some label, pairwise distinct keys and keywords up to case |
| Rules.MixedCaseType | normalizer.go:392 | The type check ignores case, but the casts compare exactly: `Int` passes and `5` is kept as the string `5` |
| Rules.ViolationSound | normalizer.go:380-410 | Each reported failure names rules (1-based in the message) for which that failure really holds |
| Rules.WellFormedDistinctKeys | normalizer.go:398-402 | Accepted rules have pairwise different keys |
| Engine.FirstMatch | normalizer.go:247-281 | A found rule is unused |
| Engine.FirstMatchIsMatch | normalizer.go:247-281 | The record found is the match of the rule found |
| Engine.FirstMatchIsFirst | normalizer.go:247-281 | Every earlier rule is used or does not match |
| Engine.FirstMatchNone | normalizer.go:247-281 | No record is found exactly when every rule is used or does not match |
| Engine.FirstMatchFromRule | normalizer.go:264-275 | A match carries its rule's key, type and transform and is not a continuation |
| Engine.StepBlank | normalizer.go:218-221 | A blank line changes nothing |
| Engine.StepLeadingPureText | normalizer.go:231-235 | Pure text before any record is skipped |
| Engine.StepContinues | normalizer.go:231-244 | Pure text after a record, while appending, adds a continuation with the last record's key and type; the line is still matched against the rules |
| Engine.StepUnmatchedLabel | normalizer.go:285-288 | A line with a known label that no rule takes stops the appending and changes nothing else |
| Engine.StepMatched | normalizer.go:277-284 | A match marks its rule used, re-enables appending and appends its record |
| Engine.ScanAllKeepsInv | normalizer.go:217-290 | The scan keeps the invariant: records come from rules, each rule matched once if used and never otherwise, continuations follow their rule |
| Engine.Scan | normalizer.go:202-290 | The scan's result has one flag per rule and satisfies the scan invariant |
| Engine.ScanProperties | normalizer.go:202-281 | Each rule produces at most one matched record, and exactly one when its flag is set |
| Engine.MatchCountPositive | normalizer.go:264-275 | A rule has matched a line exactly when a non-continuation record of it is present |
| Engine.RecordHasMatch | normalizer.go:231-244 | Every record, continuations included, goes back to a matched line of its rule |
| Engine.ScanKeys | normalizer.go:202-290 | The scan's records carry exactly the keys of the rules whose flag it set |
| Engine.CastRecord | normalizer.go:294-349 | The transformed and cast value has the record's type |
| Engine.ApplyRecordKinded | normalizer.go:353-369 | One merge keeps every held value of its rule's type |
| Engine.ApplyAll | normalizer.go:292-370 | The record loop keeps every held value of its rule's type |
| Engine.ApplyAllKeys | normalizer.go:353-369 | The keys after the loop are the keys before it plus the records' keys |
| Engine.ApplyAllAt | normalizer.go:353-369 | A rule's key ends up holding its records' values folded, in order, into what it held; other rules' records leave it alone |
| Engine.RuleValuesKinded | normalizer.go:324-349 | Every value a rule's records produce has the rule's type |
| Engine.ApplyRecordAt | normalizer.go:353-369 | One merge touches only the key of the record's rule |
| Engine.FoldMergeCons | normalizer.go:353-369 | Folding a first value merges it, then folds the rest |
| Engine.StringMerge | normalizer.go:355-361 | Strings are joined by newlines, skipping a leading run of empty strings |
| Engine.ArrayMerge | normalizer.go:362-363 | Arrays are concatenated in order, duplicates kept |
| Engine.ScalarMerge | normalizer.go:364-368 | For other types the last value wins |
| Engine.FirstValueSets | normalizer.go:367-368 | A key not yet held takes the first value as it is |
| Engine.StaleErrorRepeats | normalizer.go:324-352 | `err` is not reset per record, so after a failed cast any record whose cast leaves `err` alone reports the old error again |
| Engine.AssignedErrorReported | normalizer.go:337-352 | A cast that assigns `err` reports exactly that cast's error, if it has one |
| Engine.ApplyAllErrorsGrow | normalizer.go:350-352 | The loop only appends to the error list |
| Engine.ApplyAllNoErrorsIff | normalizer.go:350-352 | From `err` unset, the loop reports no error exactly when no record's cast fails |
| Engine.FirstRecordErrors | normalizer.go:350-352 | From `err` unset, a record adds one error if its cast fails and none otherwise |
| Engine.ParseKeys | normalizer.go:353-369 | The parse keeps the map's keys and adds only rule keys; a map with exactly the rule keys keeps exactly them |
| Normalizer.InstalledConsistent | normalizer.go:140-188 | The rules `SetPatterns` installs, with cleared flags and their defaults, satisfy the object invariant |
| Normalizer.ParseOutcomeOk | normalizer.go:192-352 | After a parse `Ok` holds exactly when there were no rules or no text, or the rules are valid and no cast failed |
| Normalizer.ParseOutcomeKeys | normalizer.go:191-373 | A parse keeps the map's keys and adds only rule keys; with valid rules and some text the new keys are exactly those of the rules that matched a line |
| Normalizer.Normalizer.constructor | normalizer.go:78-84 | `NewNormalizer`: separator `\n`, empty errors and map, no rules, no labels map, loose mode |
| Normalizer.Normalizer.SetSeparator | normalizer.go:87-93 | The empty separator becomes `\n`; any other is kept |
| Normalizer.Normalizer.SetStrictMode | normalizer.go:103-106 | Sets the mode and nothing else |
| Normalizer.Normalizer.SetOriginalText | normalizer.go:109-114 | Stores the trimmed text and empties the map and the errors |
| Normalizer.Normalizer.SetLabels | normalizer.go:127-137 | Replaces the known labels by the cleaned non-empty labels given, all of them clean |
| Normalizer.Normalizer.CleanLabels | normalizer.go:128-134 | The loop builds the cleaned label set |
| Normalizer.Normalizer.SetPatterns | normalizer.go:140-188 | Installs the prepared rules, clears flags, verdict and errors, adds their labels to the known ones and seeds the map with exactly the rule keys and their defaults |
| Normalizer.Normalizer.PreparePatterns | normalizer.go:144-184 | The loop prepares every rule, builds the defaults and collects the labels |
| Normalizer.Normalizer.DropEmpty | normalizer.go:149-153 | The loop drops the empty replacement keys |
| Normalizer.Normalizer.CleanRuleLabels | normalizer.go:154-163 | The loop cleans a rule's labels and collects the non-empty ones |
| Normalizer.Normalizer.Validate | normalizer.go:376-415 | Returns the first failure's message or none, caches acceptance, and returns none at once when acceptance is cached |
| Normalizer.Normalizer.FirstViolation | normalizer.go:380-411 | The nested loops find the first failure in the order of the source |
| Normalizer.Normalizer.PairCheck | normalizer.go:398-410 | The inner loop finds rule `i`'s first clash with a later rule |
| Normalizer.Normalizer.SharedLabel | normalizer.go:403-408 | The keyword loops find the first keyword shared up to case |
| Normalizer.Normalizer.TypeIn | normalizer.go:392 | The loop of `inx.StringIn` finds an element equal to the type up to case exactly when there is one |
| Normalizer.Normalizer.PureText | normalizer.go:223-230 | A line is pure text exactly when its cleaned form starts with no known label |
| Normalizer.Normalizer.MatchKeywords | normalizer.go:256-263 | Some keyword matches, exactly or as a whole word |
| Normalizer.Normalizer.MatchRule | normalizer.go:251-276 | One rule against one line: the match and record of `Engine.RuleMatch` |
| Normalizer.Normalizer.MatchLine | normalizer.go:247-281 | The rule loop returns the first unused matching rule and its record |
| Normalizer.Normalizer.TransformValue | normalizer.go:294-323 | Computes the specified transform, lowering the keys in a loop |
| Normalizer.Normalizer.Parse | normalizer.go:191-373 | With no rules or no text only the errors are cleared; invalid rules leave their message as the only error and the map untouched; otherwise the verdict is cached, the flags are the scan's and the map and errors are those of merging the scanned records into the old map |
| Normalizer.Normalizer.CheckAndExtract | normalizer.go:196-370 | The validation gate, then the two loops |
| Normalizer.Normalizer.Extract | normalizer.go:202-370 | The flag reset, the line loop and the record loop give the scan's flags and the merged map and errors |
| Normalizer.Normalizer.ClearFlags | normalizer.go:202-205 | Every flag is cleared |
| Normalizer.Normalizer.ScanLines | normalizer.go:215-290 | The line loop computes `Engine.Scan` |
| Normalizer.Normalizer.ScanLine | normalizer.go:217-290 | One pass of the line loop computes one scan step |
| Normalizer.Normalizer.MatchInto | normalizer.go:245-289 | The matching half of a pass |
| Normalizer.Normalizer.ApplyRecords | normalizer.go:292-370 | The record loop computes `Engine.Apply` |
| Normalizer.Normalizer.Ok | normalizer.go:418-420 | True exactly when the error list is empty |

## Left out

- Values.Coerce: one `Int` value stands for two Go dynamic types. A default coerced by `cast.ToInt` is a Go `int`, while a value parsed by `strconv.ParseInt` is an `int64`, so an int rule that matched no line holds an `int` and one that matched holds an `int64`; the model does not tell them apart.
- Rules.OwnViolation: `inx.StringIn` is not part of this model's sources. It is taken as membership up to ASCII case; a version that compared exactly would reject a rule typed `Int` that this model accepts.
- `ToJson` and `ToJsonRawMessage` (normalizer.go:422-430): serialisation through the `jsonx` library.
- config.go: a data holder with no logic. The test harness reads files from disk.
- Float parsing and the `spf13/cast` coercions are parameters of the model (`Values.Library`), not definitions.
- Fuzzy keywords are matched literally, as whole words with `\s` runs or the ends around them. In the source the keyword is pasted unescaped into a regular expression, so a keyword with metacharacters matches differently or panics.
- Case folding and lower-casing cover ASCII letters only. Go's Unicode case tables are not modelled.
- Labels.Clean: the regular-expression engine is not modelled; the collapse of `\s{2,}` is written out directly.
- Strings.Quote: does not escape control and non-printable characters as `strconv.Quote` does.
- Values.SortByKeyLength: `sort.Slice` is not stable. The model fixes one of its possible orders, keeping equal-length keys in their original order.
- Values.ValueTransform: the replacement map is a sequence of pairs in one iteration order. The fuzzy transform lowers the keys into a map, where two keys that are equal after lowering collapse into one; the pair list keeps both, and the first to occur wins at a position.
- Normalizer.Normalizer.SetPatterns: the source shares the caller's slice and rewrites its separators and labels in place. The model stores a prepared copy, so aliasing of the caller's slice is not modelled.
- Normalizer.Normalizer.SetPatterns: requires the labels map to exist (`SetLabels` called first) unless no rule has a non-empty label. The source writes into a nil map otherwise, which panics.
- Indices are character positions, not bytes. The value starts one character after the separator's position, which matches the source's byte slice for ASCII separators only. For a multi-character separator the value keeps its rest, as in the source.
- Values.SplitValue: `stringx.Split` is not part of this model's sources and follows its documented behaviour.
- Concurrency: the engine is single-threaded.
