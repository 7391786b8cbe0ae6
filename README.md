# str-fancy in Dafny

A model of the string helpers of str-fancy, a JavaScript library of string utilities in the style of
Laravel's `Str`. It covers two parts of the library:

- `strings.js`: free functions that cut, search, pad, case-convert and replace inside strings;
- `src/StrFancy.js`: a fluent wrapper whose methods each build a new `StrFancy` around the result of
  the matching function.

The model has three modules:

- `JsString` (`js_string.dfy`): the ECMAScript string behaviour the library leans on.
  - Strings are sequences of UTF-16 code units (`CodeUnit`, `Text`).
  - It covers `indexOf`, `lastIndexOf`, `includes`, `endsWith`, `split`, `join`, `padStart`,
    `padEnd`, `trimEnd` and ASCII `toLowerCase`.
  - For `replace` and `replaceAll` with a string pattern it models the `$$`, `$&`, `` $` `` and `$'`
    substitution patterns. A string pattern has no capture groups, so `$1` or `$<name>` stays in the
    result as written, and so does any other `$`.
  - It gives the whitespace class of `\s` and the conditions under which a `RegExp` built from an
    argument matches that argument literally.
- `Strings` (`strings.dfy`): one function per function of `strings.js`. The four functions that scan
  with a loop (`contains`, `containsAll`, `endsWith`, `is`) are methods with loop invariants, each
  proved equal to a specification predicate.
- `Fancy` (`str_fancy.dfy`): the `StrFancy` class.
  - An instance is never changed after construction, so it is a datatype `Instance(value, length)`
    with the invariant `length == |value|`.
  - Each method returns a new instance around `Strings`' result.
  - Predicate methods return an instance around `"true"` or `"false"`, which is what
    `new StrFancy(boolean)` stores.

## Model

| member | source | states |
|---|---|---|
| JsString.IndexOf | strings.js:13-19 | `indexOf`: -1 exactly when the search does not occur; otherwise the first position where it occurs |
| JsString.LastIndexOf | strings.js:86-92 | `lastIndexOf`: -1 exactly when the search does not occur; otherwise the last position where it occurs |
| JsString.FirstAtIsIndexOf | strings.js:392-394 | the first occurrence is unique: any position that holds an occurrence with none before it is the one `indexOf` returns |
| JsString.LastAtIsLastIndexOf | strings.js:404-406 | the last occurrence is unique: any position that holds an occurrence with none after it is the one `lastIndexOf` returns |
| JsString.Includes | strings.js:125-130 | `includes` holds exactly when the needle occurs somewhere in the string |
| JsString.EndsWithBefore | strings.js:167-172 | `endsWith(t, end)` holds exactly when `t` is a suffix of the string cut at `min(end, length)` |
| JsString.Split | strings.js:28-30 | `split` gives at least one piece unless both operands are empty; an empty separator gives one piece per code unit, piece i holding unit i |
| JsString.SplitFirst | strings.js:71-77 | the first piece of a split is a prefix that ends right at the first occurrence of the separator, and is the whole string when the separator does not occur |
| JsString.SplitPiecesFree | strings.js:153-157 | no piece of a split on a non-empty separator contains the separator |
| JsString.SplitJoinUnit | strings.js:153-157 | pieces without a one-unit separator, joined with it and split on it again, come back unchanged |
| JsString.JoinSplit | strings.js:153-157 | joining the pieces of `split(sep)` with `sep` gives back the original string, for every separator |
| JsString.JoinAt | strings.js:153-157 | joining a list equals joining a prefix, the separator, and joining the rest |
| JsString.SplitLastSuffix | strings.js:28-30 | the last piece of a split is a suffix of the string |
| JsString.SplitLastFree | strings.js:28-30 | the last piece of a split does not contain the separator |
| JsString.SplitLastPreceded | strings.js:28-30 | when the separator occurs, the last piece directly follows an occurrence of it |
| JsString.Substitute | strings.js:368-370 | a replacement without `$` is copied as it stands |
| JsString.SubstituteLiteralPrefix | strings.js:368-370 | text without `$` at the front of a replacement is copied, and the rest is expanded after it |
| JsString.SubstitutePatterns | strings.js:392-394 | `$$` gives one `$`, `$&` the match, `` $` `` the text before the match and `$'` the text after it, each followed by the expansion of the rest |
| JsString.SubstituteLoneDollar | strings.js:392-394 | a `$` not followed by `$`, `&`, `` ` `` or `'` (so `$1` and `$<name>` too) is copied and the rest is expanded after it |
| JsString.ReplaceOnce | strings.js:392-394 | `replace` with a string pattern: unchanged when the search is absent; otherwise the first occurrence is swapped for the expanded replacement |
| JsString.ReplaceAllIsSplitJoin | strings.js:368-370 | `replaceAll` with a non-empty search and a `$`-free replacement equals splitting on the search and joining with the replacement |
| JsString.ReplaceAllInIsSplitJoin | strings.js:368-370 | the same equality for the scan of any rest of the string, whenever every match is replaced by the same text |
| JsString.ReplaceAllInEmpty | strings.js:368-370 | with an empty search replaced by nothing at every position, the scan gives back the rest of the string |
| JsString.ReplaceAllInEmptySearch | strings.js:368-370 | with an empty search and the same text put at every match, that text goes in before every unit and once at the end |
| JsString.Filler | strings.js:310-336 | the pad text repeated and cut to exactly the requested length |
| JsString.TrimEnd | strings.js:246-250 | `trimEnd` removes exactly the trailing run of whitespace: the result is a prefix that does not end in whitespace and everything removed is whitespace |
| JsString.RemoveWhiteSpace | strings.js:424-426 | `replace(/\s/g, "")` keeps only non-whitespace units of the input and leaves a string without whitespace unchanged |
| JsString.RemoveWhiteSpaceConcat | strings.js:424-426 | deleting whitespace from a concatenation deletes it from each part: the result is the two results concatenated |
| JsString.RemoveWhiteSpaceUnit | strings.js:424-426 | a single unit is deleted exactly when it is whitespace |
| JsString.RemoveWhiteSpaceAt | strings.js:424-426 | a non-whitespace unit at position i is kept, right after what is kept of the units before it |
| JsString.RemoveWhiteSpaceBlank | strings.js:424-426 | a string of whitespace only is deleted entirely |
| JsString.ToLowerCase | strings.js:258-260 | `toLowerCase` maps every unit through the lower-case mapping and keeps the length |
| JsString.ToLowerUnit | strings.js:258-260 | the lower-case mapping adds 0x20 to an ASCII upper-case letter and fixes every other unit; the result is never upper case and letters and whitespace keep their class |
| JsString.ToUpperUnit | strings.js:444-446 | the upper-case mapping subtracts 0x20 from an ASCII lower-case letter and fixes every other unit; the result is never lower case, letters and whitespace keep their class, and it agrees with the original after lower-casing |
| Strings.After | strings.js:13-19 | result is a suffix of the subject; the subject itself when the subject is empty or the search is absent; otherwise it starts right after the first occurrence |
| Strings.AfterEmptySearch | strings.js:13-19 | an empty search gives back the whole subject |
| Strings.AfterLast | strings.js:28-30 | result is a suffix; empty for an empty subject; the last unit for an empty search; otherwise it contains no occurrence, equals the subject when the search is absent, and directly follows an occurrence |
| Strings.AfterLastNonOverlapping | strings.js:28-30 | `afterLast("aaa", "aa")` is `"a"`: occurrences are counted left to right without overlap |
| Strings.AfterLastAfter | strings.js:28-30 | for a non-empty search that occurs, `afterLast` of the subject equals `afterLast` of what follows the first occurrence (`after`) |
| Strings.Before | strings.js:71-77 | result is a prefix; the subject itself for an empty or absent search; otherwise it ends right at the first occurrence |
| Strings.BeforeLast | strings.js:86-92 | result is a prefix; the subject itself for an empty or absent search; otherwise it ends right at the last occurrence |
| Strings.Between | strings.js:102-106 | the subject itself when either marker is empty; otherwise `beforeLast(after(subject, from), to)`; the result always occurs inside the subject |
| Strings.ArrayWrap | strings.js:448-452 | an array is kept; an empty string gives `[]`; any other value gives the one-element list of that value |
| Strings.AnyFound | strings.js:125-130 | holds exactly when some needle is non-empty and occurs in the haystack |
| Strings.Contains | strings.js:125-130 | the scan returns exactly `AnyFound` of the wrapped needles |
| Strings.ContainsOne | strings.js:125-130 | a single needle is found exactly when it is non-empty and occurs |
| Strings.AllFound | strings.js:139-144 | holds exactly when every needle is non-empty and occurs, so an empty list gives true |
| Strings.ContainsAll | strings.js:139-144 | the scan returns exactly `AllFound` of the needles |
| Strings.EndPosition | strings.js:167-172 | the cut position never exceeds the haystack and is its full length when no length is given |
| Strings.EndsWithAny | strings.js:167-172 | holds exactly when some needle is a suffix of the haystack cut at the given length |
| Strings.EndsWith | strings.js:167-172 | the scan returns exactly `EndsWithAny` of the wrapped needles |
| Strings.EndsWithEmptyNeedle | strings.js:167-172 | a lone empty needle is wrapped away and never matches, while `[""]` always matches |
| Strings.RepetitionStep | strings.js:181-185 | of two repetitions of the cap, one a shorter suffix of the other, the longer one carries a full cap just before the shorter |
| Strings.StripTrailing | strings.js:181-185 | `replace(/(?:cap)+$/u, "")` removes exactly the longest trailing run of caps: the rest is a prefix, what was removed is a repetition, and no earlier start begins a repetition |
| Strings.LeftmostRun | strings.js:181-185 | a cut whose rest is a repetition and which itself does not end in the cap is the leftmost one |
| Strings.RepetitionExtend | strings.js:181-185 | a run of caps followed by one more cap is still a run of caps |
| Strings.StripStep | strings.js:181-185 | stripping the trailing run of a text that ends in a cap leaves what stripping the text without that cap leaves |
| Strings.DoubleCap | strings.js:181-185 | a text that ends in two caps once one cap is appended already ended in a cap, so `finish` never leaves two |
| Strings.Finish | strings.js:181-185 | unchanged for an empty cap; otherwise the value with its longest trailing run of caps removed, followed by one cap, so it ends in exactly one copy of the cap, not two |
| Strings.FinishIdempotent | strings.js:181-185 | finishing twice with the same cap equals finishing once |
| Strings.DropLeading | strings.js:269-272 | removes exactly the leading run of one unit: a suffix, not starting with that unit, everything removed equal to it |
| Strings.Ltrim | strings.js:269-272 | `^chars+` removes the leading text of `chars` with its last unit repeated one or more times, and nothing when that is not how the value starts |
| Strings.LtrimExample | strings.js:269-272 | `ltrim("//a", "/")` is `"a"` |
| Strings.JoinPrefixOfSplit | strings.js:153-157 | joining the first k pieces gives a prefix of the path, followed by the separator when pieces remain |
| Strings.Dirname | strings.js:153-157 | result is a prefix of the path; level 0 gives the path; it ends at a separator, is empty or is the path; a positive level makes a non-empty path shorter |
| Strings.DirnameParent | strings.js:153-157 | one level up is the path before its last separator, and empty when there is no separator |
| Strings.DirnameStep | strings.js:153-157 | for k below the number of pieces, going up k + 1 levels is going up k levels and then one more |
| Strings.CompilePattern | strings.js:194-210 | a pattern without `*` is a literal prefix test; otherwise it splits at the first `*` into a head and a tail |
| Strings.Is | strings.js:194-210 | the loop over the pattern list returns exactly whether the compiled pattern matches |
| Strings.IsWithoutStar | strings.js:194-210 | a pattern without `*` matches exactly the values it is a prefix of (the expression is anchored only at the start) |
| Strings.IsWithStar | strings.js:194-210 | on a value without line terminators, `head*tail` matches exactly when the value equals the pattern, or starts with head and has tail somewhere after it |
| Strings.CompileStar | strings.js:194-210 | in `head*tail` with no `*` in head, the `*` turned into `.*` is the one right after head |
| Strings.TestWildcardFree | strings.js:194-210 | on a value without line terminators, `^head.*tail` matches exactly when the value starts with head and holds tail at or after the end of head |
| Strings.IsExampleStar | strings.js:194-210 | `"*a"` matches `"ba"`: the `*` becomes `.*` and spans the `b` |
| Strings.IsExampleAnchored | strings.js:194-210 | `"a"` does not match `"ba"`: the expression is anchored at the start |
| Strings.IsAscii | strings.js:218-220 | holds exactly when every unit is in the class the expression admits |
| Strings.UcwordsAfter | strings.js:444-446 | keeps the length and upper-cases exactly the letters that begin a word |
| Strings.Ucwords | strings.js:444-446 | unit by unit: a letter at a word boundary is upper-cased, every other unit is kept |
| Strings.Lcfirst | strings.js:434-436 | keeps the length and all units after the first; the first unit is lower-cased |
| Strings.DashesToSpaces | strings.js:424-426 | every `-` and `_` becomes a space, all else kept |
| Strings.Studly | strings.js:424-426 | the result contains no space, `-` or `_` |
| Strings.WordsAt | strings.js:424-426 | after dashes and underscores become spaces and words are capitalised, a unit is whitespace exactly where the value has a separator, and elsewhere is the value's unit, upper-cased where it begins a word |
| Strings.SeparatorCount | strings.js:424-426 | where whitespace in one string lines up with separators in another, deleting each keeps as many units |
| Strings.StudlyUnits | strings.js:424-426 | `studly` keeps every unit that is not a space, `-` or `_`, in order and nothing else; a letter that begins a word (at the start, or after a unit outside `[A-Za-z0-9]`, or after `_`) is upper-cased and every other kept unit is unchanged |
| Strings.StudlyExample | strings.js:424-426 | `studly(" foo_bar- baz  Vvs")` is `"FooBarBazVvs"` |
| Strings.Camel | strings.js:114-116 | the result contains no separator and does not start with an upper-case letter |
| Strings.CamelUnits | strings.js:114-116 | `camel` keeps the same units in the same order as `studly`; the first kept unit is lower-cased and the others are as in `studly` |
| Strings.CamelExample | strings.js:114-116 | `camel("foo_bar_baz")` is `"fooBarBaz"` |
| Strings.FirstUpperFrom | strings.js:229-236 | the first upper-case position from k on, or the end when there is none |
| Strings.Kebab | strings.js:229-236 | the result has no upper-case letter |
| Strings.KebabAtBoundary | strings.js:229-236 | with whitespace removed, the delimiter goes in before the first upper-case letter after position 0, and then everything is lower-cased |
| Strings.KebabNoBoundary | strings.js:229-236 | without such a letter the result is the lower-cased text with whitespace removed |
| Strings.KebabFirstBoundaryOnly | strings.js:229-236 | `kebab("aBC")` is `"a_bc"`: only the first boundary gets a delimiter |
| Strings.Lower | strings.js:258-260 | keeps the length and lower-cases every unit: each unit goes through the lower-case mapping, so no upper-case letter is left and only upper-case letters change |
| Strings.PadLeft | strings.js:322-324 | unchanged when long enough or the pad is empty; otherwise exactly the target length, the value at the end, the repeated pad in front |
| Strings.PadRight | strings.js:334-336 | unchanged when long enough or the pad is empty; otherwise exactly the target length, the value at the start, the repeated pad after it |
| Strings.PadBoth | strings.js:310-312 | unchanged when long enough or the pad is empty; otherwise exactly the target length, with half the padding (rounded down) on the left and the rest on the right |
| Strings.Limit | strings.js:246-250 | unchanged when within the limit; otherwise a prefix of at most `limit` units with trailing whitespace dropped, followed by the end marker |
| Strings.Append | strings.js:39-41 | the value is a prefix of the result; no extra values give the value itself, one extra value is simply concatenated |
| Strings.AppendTwice | strings.js:39-41 | appending two lists in turn equals appending their concatenation |
| Strings.Prepend | strings.js:357-359 | the value is a suffix of the result; no extra values give the value itself, one extra value is simply put in front |
| Strings.PrependTwice | strings.js:357-359 | prepending two lists in turn equals prepending their concatenation |
| Strings.Replace | strings.js:368-370 | for a non-empty search and a `$`-free replacement: every occurrence is replaced, i.e. split on the search joined with the replacement |
| Strings.ReplaceEmptyByEmpty | strings.js:368-370 | replacing `""` by `""` changes nothing |
| Strings.ReplaceEmptySearch | strings.js:368-370 | an empty search with a `$`-free replacement puts the replacement before every unit and at the end; on an empty value the result is the replacement |
| Strings.ReplaceIdentity | strings.js:368-370 | replacing a `$`-free search by itself changes nothing |
| Strings.ReplaceAbsent | strings.js:368-370 | replacing a non-empty search that does not occur changes nothing |
| Strings.ReplaceFirst | strings.js:392-394 | unchanged when the search is absent; otherwise only the first occurrence is swapped for the expanded replacement |
| Strings.ReplaceFirstDollarMatch | strings.js:392-394 | `$&` in the replacement inserts the matched text: `replaceFirst("ba", "a", "[$&]")` is `"b[a]"` |
| Strings.ReplaceLast | strings.js:404-406 | as written: the same as replaceFirst, the FIRST occurrence is replaced |
| Strings.ReplaceLastReplacesFirst | strings.js:404-406 | on `"a-a"` with `"a"` → `"b"`, the code as written gives `"b-a"` where the documented behaviour gives `"a-b"` |
| Strings.ReplaceLastOccurrence | strings.js:404-406 | corrected: unchanged when the search is absent; otherwise only the last occurrence is swapped |
| Strings.Reduce | strings.js:380-382 | `reduce` with an initial value: an empty list gives the initial value, a one-element list one application of the callback |
| Strings.ReduceConcat | strings.js:380-382 | reducing over one list and then over another equals reducing over their concatenation |
| Strings.ReduceFixed | strings.js:380-382 | an accumulator that every step leaves unchanged is the result |
| Strings.ReplaceArray | strings.js:380-382 | an empty list of replacements leaves the value unchanged |
| Strings.ReplaceArrayStep | strings.js:380-382 | the reduction applies `replace` with the first replacement, then the rest; one replacement is exactly replaceFirst |
| Strings.ReplaceArrayConcat | strings.js:380-382 | replacing with one list and then another equals replacing with their concatenation |
| Strings.ReplaceArrayAbsent | strings.js:380-382 | when the search does not occur, no replacement changes the value |
| Fancy.StrFancy.New | src/StrFancy.js:10-13 | the constructor stores the argument coerced to a string and its length; booleans become `"true"` or `"false"` |
| Fancy.StrFancy.Of | src/StrFancy.js:21-23 | `of` wraps the given text, with `length` equal to its number of code units |
| Fancy.StrFancy.After | src/StrFancy.js:31-33 | a valid instance around `after` of the value |
| Fancy.StrFancy.AfterLast | src/StrFancy.js:41-43 | a valid instance around `afterLast` of the value |
| Fancy.StrFancy.Append | src/StrFancy.js:51-53 | a valid instance around `append` of the value |
| Fancy.StrFancy.Before | src/StrFancy.js:80-82 | a valid instance around `before` of the value |
| Fancy.StrFancy.BeforeLast | src/StrFancy.js:90-92 | a valid instance around `beforeLast` of the value |
| Fancy.StrFancy.Between | src/StrFancy.js:101-103 | a valid instance around `between` of the value |
| Fancy.StrFancy.Camel | src/StrFancy.js:110-112 | a valid instance around `camel` of the value |
| Fancy.StrFancy.Contains | src/StrFancy.js:120-122 | `"true"` exactly when some non-empty needle occurs, `"false"` otherwise |
| Fancy.StrFancy.ContainsAll | src/StrFancy.js:130-132 | `"true"` exactly when every needle is non-empty and occurs, `"false"` otherwise |
| Fancy.StrFancy.Dirname | src/StrFancy.js:140-142 | a valid instance around `dirname` of the value, level 1 by default |
| Fancy.StrFancy.EndsWith | src/StrFancy.js:151-153 | `"true"` exactly when some needle ends the cut value, `"false"` otherwise |
| Fancy.StrFancy.Exactly | src/StrFancy.js:161-163 | `"true"` exactly when the value equals the argument, `"false"` otherwise |
| Fancy.StrFancy.Finish | src/StrFancy.js:182-184 | a valid instance around `finish` of the value |
| Fancy.StrFancy.Is | src/StrFancy.js:192-194 | `"true"` exactly when the pattern matches the value, `"false"` otherwise |
| Fancy.StrFancy.IsAscii | src/StrFancy.js:202-204 | `"true"` exactly when every unit is in the class the expression admits, `"false"` otherwise |
| Fancy.StrFancy.IsEmpty | src/StrFancy.js:211-213 | `"true"` exactly when the value is empty, `"false"` otherwise |
| Fancy.StrFancy.IsNotEmpty | src/StrFancy.js:220-222 | as written: always `"false"`, because the negated operand is an object |
| Fancy.StrFancy.IsNotEmptyIntended | src/StrFancy.js:215-222 | corrected: `"true"` exactly when the value is not empty, i.e. exactly when `isEmpty` gives `"false"` |
| Fancy.IsNotEmptyIgnoresValue | src/StrFancy.js:220-222 | on the non-empty value `"a"`, the code as written gives `"false"` where the intended method gives `"true"` |
| Fancy.StrFancy.Kebab | src/StrFancy.js:230-232 | a valid instance around `kebab` of the value, delimiter `_` by default |
| Fancy.StrFancy.Limit | src/StrFancy.js:251-253 | a valid instance around `limit` of the value, 100 and `...` by default |
| Fancy.StrFancy.Lower | src/StrFancy.js:260-262 | a valid instance around `lower` of the value |
| Fancy.StrFancy.Ltrim | src/StrFancy.js:271-273 | a valid instance around `ltrim` of the value, a space by default |
| Fancy.StrFancy.PadBoth | src/StrFancy.js:302-304 | a valid instance around `padBoth` of the value |
| Fancy.StrFancy.PadLeft | src/StrFancy.js:313-315 | a valid instance around `padLeft` of the value |
| Fancy.StrFancy.PadRight | src/StrFancy.js:324-326 | a valid instance around `padRight` of the value |
| Fancy.StrFancy.Prepend | src/StrFancy.js:345-347 | a valid instance around `prepend` of the value |
| Fancy.StrFancy.Studly | src/StrFancy.js:363-365 | a valid instance around `studly` of the value |
| Fancy.ChainIsBetween | examples.js:26 | `of(s).after(a).beforeLast(b)` is `beforeLast(after(s, a), b)`, and for non-empty markers it is `between(s, a, b)` |

## Left out

- Case mapping covers ASCII letters only: the model leaves every other unit unchanged. JavaScript's `toLowerCase` and `toUpperCase` also map letters of other scripts (Latin-1, Greek, and so on), and for some, such as U+0130, the mapping changes the length.
- Strings.Before, Strings.Ltrim, Strings.Finish and Strings.Is build a `RegExp` from an argument. They are modelled only for arguments that the expression matches literally:
  - the argument contains no pattern metacharacter;
  - for the `u`-flag expressions, it also contains no surrogate.
  A general regular-expression engine is not part of this model.
- Strings.Before: requires a search without metacharacters. The occurrence test `subject.search(search)` compiles the search into a `RegExp`, which finds the first literal occurrence only for such a search. The `split` that follows takes the string literally.
- Strings.Ltrim: requires non-empty characters without metacharacters. An empty argument gives `^+`, which throws a `SyntaxError`.
- Strings.Finish: requires a cap without metacharacters or surrogates.
- Strings.Is: requires a single pattern string with at most one `*` and no other metacharacter or surrogate. A pattern list and patterns with several `*` are not modelled.
- Numeric arguments (`level`, `length`, `limit`) are natural numbers. Negative, fractional, `NaN` and infinite values are not modelled.
- The constructor coerces only strings and booleans with `String(...)`. Numbers, arrays and objects are not modelled.
- `path.sep` is fixed to `/`, the POSIX separator.
- `replace` uses the host's native `replaceAll`. The fallback in src/polyfill.js is not part of this model.
- `ascii`, `basename`, `plural` and `singular` call foreign libraries (`any-ascii`, `path`, `pluralize`), and `StrFancy` methods of the same names forward to them. They are left out.
- `match`, `matchAll` and `StrFancy.explode` need a general regular-expression engine or return arrays of match objects. They are left out.
- `StrFancy.length()` is shadowed by the `length` field that the constructor sets, so it is unreachable on an instance. It is left out; the field is modelled.
- Thrown `TypeError`s are not modelled. They arise, for example, when a string method is called on a non-string.

## Findings

| source | as written | input that shows it | evidently intended | confidence | as-written member | corrected member |
|---|---|---|---|---|---|---|
| strings.js:404-406 | `replaceLast` calls `replace` with a string pattern, which replaces the first occurrence | `replaceLast("a-a", "a", "b")` gives `"b-a"` | replace the last occurrence, giving `"a-b"` | not executed | Strings.ReplaceLastReplacesFirst | Strings.ReplaceLastOccurrence |
| src/StrFancy.js:220-222 | `isNotEmpty` negates the `StrFancy` object that `isEmpty` returns, and every object is truthy | `StrFancy.of("a").isNotEmpty()` holds `"false"` | `"true"` exactly when the value is not empty | not executed | Fancy.IsNotEmptyIgnoresValue | Fancy.StrFancy.IsNotEmptyIntended |
