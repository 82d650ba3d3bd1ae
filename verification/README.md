# yii2-helpers in Dafny

A model of the deterministic helper classes of the `pozitronik/yii2-helpers`
PHP library, with the properties their documentation, examples and unit tests
promise proved about the model. Each PHP helper class is one Dafny module.

- `ArrayHelper`: array algorithms over ordered PHP arrays. These are the
  symmetric key difference `diff_keys`, the recursive merges `merge_recursive`
  and `mergeImplode`, the depth-first search `array_find_deep`, `setLast`,
  `renameKeysByMap`, `filterValues`, `isEqual`, `key`, `keymap`, `mapEx` and
  `initValue`. The older copy of the class at the repository root shares
  these algorithms. Its differences are that `filterValues` is always loose,
  `mapEx` has no `valueCode` (`None`), and it has no `isEqual`.
- `ControllerHelper`: turning controller and action names into ids and back.
- `Utils`: Russian plural forms, `DecToPos`, `setAbsoluteUrl`, `MaskString`,
  `ShortifyString`, the `rgb()` contrast colour, the `gen_uuid` layout
  (section 4.4 of RFC 4122) and `SplitString`.
- `DateHelper`: `zeroAddMoth`, `monthPlus`/`monthMinus`, `isBetweenDate`,
  `getWeekEnd`, the unit selection of `seconds2times`, and `interval2seconds`.
- `BuildAppHelper`: `VersionInfo` on a raw version string.
- `PathHelper`: `ChangeFileExtension`, `ChangeFileName` and `ExtractFileName`,
  over a model of `pathinfo`/`basename` with `/` as the separator.
- `BootstrapHelper`: the memoised Bootstrap major-version detection.
- `ReflectionHelper`: the namespace-line scan, `GetClassNameFromFile` and the
  parent-class filter `IsInSubclassOf`.

Three modules are shared by the others:

- `PhpArrays`: a PHP array, as a sequence of key/value entries. Keys are
  `IntKey | StrKey` and values are `Null | Bool | Int | Str | Arr`. Its
  operations are `Get`, `Set` (replace in place or append) and `Unset`.
- `Text`: PHP's `trim`, `substr`, `explode`, `implode` and decimal strings.
  It also holds the regex conventions used below: `.` matches any character
  but a line feed, and `$` also matches before one final line feed.
- `Wrappers`: `Option`.

By-reference parameters become returned values. Static state becomes an
explicit `State` value. The clock, random draws, the file system and the class
hierarchy become parameters.

## Model

| member | source | states |
|---|---|---|
| ArrayHelper.DiffKeysIsMissing | src/ArrayHelper.php:122-131 | `diff_keys(a, b)` is the entries of `a` whose key `b` lacks, in `a`'s order, followed by the entries of `b` whose key `a` lacks |
| ArrayHelper.DiffKeysSpec | src/ArrayHelper.php:122-131 | the result has unique keys and holds exactly the keys present in one argument but not the other, each with the value from the argument that holds it |
| ArrayHelper.DiffKeysSelf | src/ArrayHelper.php:122-131 | an array differs from itself in nothing: `diff_keys(a, a)` is empty |
| ArrayHelper.DiffKeysSymmetricKeys | ArrayHelper.php:110-119 | swapping the arguments keeps the key set and size of the difference; only the order changes |
| ArrayHelper.MissingHasKey | src/ArrayHelper.php:124-129 | a key survives one filtering loop iff the first array has it and the other lacks it |
| ArrayHelper.MergeIntoKeys | src/ArrayHelper.php:153-158 | merging one array into the accumulator gives exactly the union of their keys |
| ArrayHelper.MergeIntoUnique | src/ArrayHelper.php:153-158 | merging keeps keys unique: a colliding key is overwritten in place, never duplicated |
| ArrayHelper.MergeIntoGet | src/ArrayHelper.php:153-158 | after merging, a key of the merged array holds the combination of the old and new value; every other key is unchanged |
| ArrayHelper.MergeIntoFresh | src/ArrayHelper.php:153-158 | merging an array with no key in common appends its entries in order |
| ArrayHelper.MergeAllKeys | src/ArrayHelper.php:148-158 | the keys of a merge of any number of arrays are the union of their keys |
| ArrayHelper.MergeRecursiveKeys | src/ArrayHelper.php:145-160 | `merge_recursive` has a key iff one of its arguments has it |
| ArrayHelper.MergeRecursivePair | src/ArrayHelper.php:148-152 | empty arguments are skipped: `merge_recursive(a, [])` and `merge_recursive([], a)` are `a` |
| ArrayHelper.MergeRecursiveValue | src/ArrayHelper.php:153-157 | at a key both hold as arrays the values are merged recursively; otherwise the later value overwrites (integer keys are not renumbered); keys only in the first keep their value |
| ArrayHelper.MergeRecursiveIdempotent | src/ArrayHelper.php:145-160 | `merge_recursive(a, a) == a` |
| ArrayHelper.MergeRecursiveExample | src/ArrayHelper.php:136-140 | `[10 => [5 => [3, 2]]]` merged with `[10 => [6 => [4, 7]]]` gives `[10 => [5 => [3, 2], 6 => [4, 7]]]` |
| ArrayHelper.MergeImplodePair | src/ArrayHelper.php:316-322 | two-argument `mergeImplode` merges the second array into the first in glue mode |
| ArrayHelper.MergeImplodeValue | src/ArrayHelper.php:324-330 | nested arrays are combined recursively; a missing or null old value (looked up by plain key) is replaced; otherwise the result is the old value, the glue and the new value |
| ArrayHelper.MergeImplodeExample | src/ArrayHelper.php:329 | gluing does not de-duplicate: `'x'` and `'x'` give `'x,x'` |
| ArrayHelper.ValueIn | src/ArrayHelper.php:415 | strict `in_array` holds iff some value of the array is identical |
| ArrayHelper.IsEqual | src/ArrayHelper.php:410 | equal arrays have the same size under every flag |
| ArrayHelper.EntriesEqualAll | src/ArrayHelper.php:411-426 | the loop succeeds iff every entry of the first array passes the per-entry test |
| ArrayHelper.IsEqualKeys | src/ArrayHelper.php:410-414 | with `FLAG_COMPARE_KEYS` alone, flat arrays are equal iff their key sets are equal |
| ArrayHelper.IsEqualValues | src/ArrayHelper.php:410-417 | with `FLAG_COMPARE_VALUES` alone, the sizes agree and each value of the first occurs strictly in the second; this is a one-directional test |
| ArrayHelper.IsEqualPairs | src/ArrayHelper.php:410-422 | with `FLAG_COMPARE_KEY_VALUES_PAIRS` alone, flat arrays are equal iff they map every key to the same value |
| ArrayHelper.PairsSameGet | src/ArrayHelper.php:418-422 | passing the pairs test implies that every key maps to the same value in both arrays |
| ArrayHelper.SameGetPairs | src/ArrayHelper.php:418-422 | flat arrays that map every key alike pass the pairs test |
| ArrayHelper.IsEqualReflexive | src/ArrayHelper.php:409-429 | every array equals itself under any flags, nested arrays included |
| ArrayHelper.IsEqualOneTwo | tests/unit/ArrayHelperTest.php:78-81 | the test's arrays one and two: same keys; values and pairs differ |
| ArrayHelper.IsEqualOneThree | tests/unit/ArrayHelperTest.php:83-86 | arrays one and three: same keys and values, different pairs |
| ArrayHelper.IsEqualFourFive | tests/unit/ArrayHelperTest.php:88-90 | arrays four and five: different keys, same values |
| ArrayHelper.IsEqualSame | tests/unit/ArrayHelperTest.php:92-103 | an array compared with itself is equal under each flag |
| ArrayHelper.IsEqualOneSeven | tests/unit/ArrayHelperTest.php:97-99 | a null value breaks value and pair equality but not key equality |
| ArrayHelper.IsEqualSevenEight | tests/unit/ArrayHelperTest.php:105-107 | the same values under other keys are value-equal only |
| ArrayHelper.Leaves | src/ArrayHelper.php:83-96 | the reference leaf list: every leaf has a non-empty key path and a non-array value |
| ArrayHelper.FirstMatch | src/ArrayHelper.php:90-91 | the first leaf identical to the search value; none iff no leaf is identical |
| ArrayHelper.FindDeepLeaves | src/ArrayHelper.php:83-96 | `array_find_deep` returns the path of the first identical leaf in depth-first key order, or `[]` |
| ArrayHelper.FindDeepNotFound | ArrayHelper.php:71-84 | the result is `[]` exactly when no non-array leaf is `===` the search value |
| ArrayHelper.FindDeepFound | src/ArrayHelper.php:83-96 | a non-empty result is a key path that leads, through arrays, to a non-array value identical to the search value |
| ArrayHelper.LeavesReach | src/ArrayHelper.php:84-86 | every leaf path, followed from the root, reaches that leaf's value |
| ArrayHelper.SetLastSpec | src/ArrayHelper.php:273-281 | an empty array is unchanged; a null value removes only the last entry; any other value replaces only the last entry's value |
| ArrayHelper.RenameSelfDeletes | src/ArrayHelper.php:379-387 | as written, renaming a key with a non-null value to itself deletes it |
| ArrayHelper.RenameStepSpec | src/ArrayHelper.php:380-385 | one corrected map entry `from => to`, with `from != to` and a non-null value at `from`, moves the value to `to`, removes `from` and leaves every other key alone; otherwise nothing changes |
| ArrayHelper.RenameKeysByMapUnique | src/ArrayHelper.php:379-387 | renaming by a whole map keeps the keys unique |
| ArrayHelper.RenameSelfKeeps | src/ArrayHelper.php:379-387 | with the correction, `['a' => 1]` renamed by `['a' => 'a']` stays `['a' => 1]` |
| ArrayHelper.FilterValues | src/ArrayHelper.php:343-347 | no kept value is in the filter list, and nothing is added |
| ArrayHelper.FilterValuesStrictOrLoose | src/ArrayHelper.php:343-347 | in strict mode no kept value is identical to a filter value |
| ArrayHelper.FilterConcat | ArrayHelper.php:285-289 | filtering distributes over concatenation, so the kept entries keep their keys and order |
| ArrayHelper.FilterGet | ArrayHelper.php:285-289 | the result is the sub-map of the input whose values are not in the filter list |
| ArrayHelper.FilterMissing | src/ArrayHelper.php:343-347 | filtering adds no key |
| ArrayHelper.FilterIdempotent | src/ArrayHelper.php:343-347 | filtering twice with the same list is filtering once |
| ArrayHelper.FirstKey | ArrayHelper.php:232-234 | `key` gives null for an empty array and otherwise the first key |
| ArrayHelper.GetValue | src/ArrayHelper.php:40-58 | for a plain key: the value under it, or null when the element is not an array or lacks the key |
| ArrayHelper.KeymapSpec | ArrayHelper.php:202-208 | `keymap` keeps the input's keys in order, each mapped to its element's attribute |
| ArrayHelper.RowSpec | src/ArrayHelper.php:174-185 | each row is keyed exactly by the labels, in order. A `keyIndexCode` attribute yields the element's key as a string, a `valueCode` attribute the element itself, any other attribute the element's attribute |
| ArrayHelper.MapExSpec | ArrayHelper.php:158-170 | `mapEx` returns a list numbered from 0 with one row per input element, in input order |
| ArrayHelper.InitValue | src/ArrayHelper.php:68-74 | it initialises, and reports `true`, iff the current value is null and the new one is not. Initialising sets only that key; otherwise nothing changes |
| ArrayHelper.InitValueOnce | src/ArrayHelper.php:68-74 | a second initialisation of the same key reports `false` and changes nothing |
| ArrayHelper.InitValueExamples | tests/unit/ArrayHelperTest.php:27-32 | an existing key `a` is not overwritten; a new key `d` is appended |
| ControllerHelper.UpperPiecesSplit | src/ControllerHelper.php:131 | the split before each uppercase letter loses nothing (the pieces concatenate back) and each piece has uppercase only at its start |
| ControllerHelper.UpperPiecesOf | src/ControllerHelper.php:131 | splitting the concatenation of such pieces gives the pieces back |
| ControllerHelper.GetActionRequestName | src/ControllerHelper.php:129-134 | the request name contains no uppercase letter |
| ControllerHelper.GetActionRequestNameSpec | src/ControllerHelper.php:129-134 | the result is the lowercased input, without a leading `action` piece, with `-` before each interior uppercase letter |
| ControllerHelper.GetActionRequestNameExample1 | src/ControllerHelper.php:126 | `actionSomeActionName` gives `some-action-name` |
| ControllerHelper.GetActionRequestNameExample2 | src/ControllerHelper.php:127 | `OtherActionName` gives `other-action-name` |
| ControllerHelper.LastSplit | src/ControllerHelper.php:152 | the greedy `(^.+)` takes the last backslash that is followed by an uppercase letter and ends before `Controller` |
| ControllerHelper.ExtractControllerNameUnchanged | src/ControllerHelper.php:151-153 | a class name the pattern does not match is returned unchanged |
| ControllerHelper.ExtractControllerNameAt | src/ControllerHelper.php:151-153 | on a match, the result is the text between the last such backslash and the trailing `Controller` |
| ControllerHelper.ExtractControllerNameOf | src/ControllerHelper.php:151-153 | for a namespace, a backslash, a capitalised name and `Controller`, the result is the name |
| ControllerHelper.ExtractControllerNameExample | src/ControllerHelper.php:147 | `app\shit\BlaBlaBlaController` gives `BlaBlaBla` |
| ControllerHelper.ConvertControllerNameToId | src/ControllerHelper.php:160-170 | the id contains no uppercase letter |
| ControllerHelper.ConvertWords | src/ControllerHelper.php:160-170 | a name made of capitalised words becomes those words, lowercased and joined by `-` |
| ControllerHelper.ClassIdRoundTrip | src/ControllerHelper.php:80 | for names made of `[A-Z][a-z]+` words, the id->class transform restores the name from its id |
| ControllerHelper.IdClassRoundTrip | src/ControllerHelper.php:80 | for ids made of `[a-z]{2,}` words joined by `-`, converting the class name back gives the id (a one-letter word would merge with the next one) |
| ControllerHelper.ConvertControllerNameToIdExamples | src/ControllerHelper.php:156 | `BlaBlaBla` gives `bla-bla-bla`, `DefaultSupaPupa` gives `default-supa-pupa`, and `some-id` gives class `SomeId` |
| ControllerHelper.FolderPrefix | src/ControllerHelper.php:184 | the sub-folder prefix has `/` for every backslash and no uppercase letter |
| ControllerHelper.ExtractControllerIdWithSubFolders | src/ControllerHelper.php:178-192 | null exactly when the name does not end in an alphanumeric character followed by `Controller` |
| ControllerHelper.SubFoldersNone | src/ControllerHelper.php:179-189 | with no `controllers\<folders>\<name>` match, the result is just the controller id |
| ControllerHelper.SubFoldersFound | src/ControllerHelper.php:183-187 | with a match, the result is the lowercased folders with `/` separators, a `/`, then the controller id |
| ControllerHelper.SubFoldersFlatOf | src/ControllerHelper.php:178-192 | `<ns>controllers\<Name>Controller` gives the id of `Name` |
| ControllerHelper.SubFoldersOf | src/ControllerHelper.php:178-192 | `<ns>controllers\<folders>\<Name>Controller` gives `folders/` plus the id of `Name` |
| ControllerHelper.SubFoldersNull | tests/unit/ControllerHelperTest.php:54-55 | `app\controllers\ajax\Controller` and `app\controllers\ajax\SomeControllerClass` give null |
| ControllerHelper.SubFoldersExampleApp | tests/unit/ControllerHelperTest.php:21-24 | `app\controllers\DefaultController` gives `default` |
| ControllerHelper.SubFoldersExampleAppAjax | tests/unit/ControllerHelperTest.php:25-28 | one sub-folder gives `ajax/default` |
| ControllerHelper.SubFoldersExampleAppAjaxLong | tests/unit/ControllerHelperTest.php:29-32 | `ajax/default-supa-pupa` |
| ControllerHelper.SubFoldersExampleAppNested | tests/unit/ControllerHelperTest.php:33-36 | two sub-folders give `ajax/anotherfolder/default-supa-pupa` |
| ControllerHelper.SubFoldersExampleModule | tests/unit/ControllerHelperTest.php:38-41 | inside a module namespace, `default` |
| ControllerHelper.SubFoldersExampleModuleAjax | tests/unit/ControllerHelperTest.php:42-45 | inside a module, `ajax/default` |
| ControllerHelper.SubFoldersExampleModuleAjaxLong | tests/unit/ControllerHelperTest.php:46-49 | inside a module, `ajax/default-supa-pupa` |
| ControllerHelper.SubFoldersExampleModuleNested | tests/unit/ControllerHelperTest.php:50-53 | inside a module, `ajax/anotherfolder/default-supa-pupa` |
| ControllerHelper.ActionMethodName | src/ControllerHelper.php:240 | the method looked up always starts with `action` |
| ControllerHelper.IsControllerHasActionMethod | src/ControllerHelper.php:238-247 | true exactly for a kebab-case name whose `action` method is public and not disabled |
| ControllerHelper.GateRejectsUpper | src/ControllerHelper.php:239 | any name with an uppercase letter fails the gate, whatever methods the controller has |
| ControllerHelper.ActionNameRoundTrip | src/ControllerHelper.php:129-134 | for an action method built from capitalised words, the request name passes the gate and maps back to the same method |
| ControllerHelper.ActionMethodExampleError | tests/unit/ControllerHelperTest.php:67 | `error` is found iff `actionError` is public and not disabled |
| ControllerHelper.ActionMethodRejectsDefinedError | tests/unit/ControllerHelperTest.php:68 | `definedError` is rejected |
| ControllerHelper.ActionMethodRejectsCamelCase | tests/unit/ControllerHelperTest.php:69 | `camelCase` is rejected |
| ControllerHelper.ActionMethodRejectsActionDuplicate | tests/unit/ControllerHelperTest.php:70 | `actionDuplicate` is rejected |
| ControllerHelper.ActionMethodRejectsActionIndex | tests/unit/ControllerHelperTest.php:71 | `actionIndex` is rejected |
| ControllerHelper.ActionMethodRejectsNotAction | tests/unit/ControllerHelperTest.php:72 | `notAction` is rejected |
| ControllerHelper.ActionMethodNameExample | src/ControllerHelper.php:240 | `camel-case` maps to `actionCamelCase` |
| Utils.PluralIndex | src/Utils.php:219 | the title index is at most 2; it is missing exactly for negative numbers not divisible by 10, where PHP's truncated `%` gives a negative key |
| Utils.PluralForm | src/Utils.php:218-220 | for `n >= 0` the output is the decimal `n`, a space and the selected title, or nothing after the space when the list has no title at that index; a negative `n` gets the third title only when divisible by ten |
| Utils.PluralRussianRule | src/Utils.php:219 | index 0 for last digit 1 (not 11), 1 for last digits 2-4 (not 12-14), 2 otherwise |
| Utils.PluralFormExamples | src/Utils.php:218-220 | 1 день, 3 дня, 11 дней, 21 день |
| Utils.PluralFormShortTitles | src/Utils.php:218-220 | a title missing from a short list reads as `''`: `5` with two titles gives `5 `, `1` with one title gives `1 день` |
| Utils.DigitsRoundTrip | src/Utils.php:165-175 | the base-`q` digits evaluate back to the number |
| Utils.DecToPos | src/Utils.php:165-175 | a non-negative number is spelled with its base-`q` digits, most significant first; a negative one gives one character `alphabet[n mod q]` |
| Utils.DecToPosSpec | src/Utils.php:165-175 | with at least two distinct characters, the result is non-empty, uses only the alphabet, decodes back to `n`, and starts with `alphabet[0]` iff `n = 0` |
| Utils.DecToPosExample | src/Utils.php:165-175 | 2 over `ab` gives `ba` |
| Utils.SetAbsoluteUrl | src/Utils.php:241-243 | `''` stays `''`; every other result starts with `/` and ends with the input; an input starting with `/` is unchanged |
| Utils.SetAbsoluteUrlIdempotent | src/Utils.php:241-243 | applying it twice is applying it once |
| Utils.SplitMaskJoin | src/Utils.php:327 | the pieces rejoined with spaces are the input with each delimiter turned into a space |
| Utils.MaskWord | src/Utils.php:328-332 | a short piece is unchanged. A longer one keeps its first and last `unmasked` characters. From `2*unmasked` up it keeps its length and stars the middle, and every character is a star or comes from the piece |
| Utils.MaskStringWords | src/Utils.php:326-334 | the output's space-separated pieces are the input's pieces, each masked |
| Utils.MaskStringShortWords | src/Utils.php:326-334 | when no piece is longer than `unmasked`, only the delimiters change |
| Utils.MaskWordExact | src/Utils.php:328-332 | a piece of exactly `2*unmasked` characters is left unmasked |
| Utils.MaskStringExample | src/Utils.php:326-334 | `secret` with 2 gives `se**et` |
| Utils.ShortifyString | src/Utils.php:304-318 | at most two characters. Without a space it is the first character with case unchanged (empty stays empty); with a space no lowercase letter remains |
| Utils.ShortifyInitials | src/Utils.php:313-315 | with a space, the result is the uppercased initials of the first two pieces |
| Utils.RgbToArray | src/Utils.php:263-269 | empty when the colour does not parse; otherwise three channels of 0-255 (plus alpha on request) |
| Utils.ContrastChannel | src/Utils.php:252-254 | a channel becomes 255 iff it is below 128, else 0 |
| Utils.RgbColorContrast | src/Utils.php:276-281 | always `rgb(x,y,z)` with each of 0 or 255; empty or unparseable input gives white |
| Utils.RgbParseOfString | src/Utils.php:264-265 | `rgb(r,g,b)` with channels 0-255 parses back to those channels |
| Utils.RgbColorContrastOfString | src/Utils.php:276-281 | the contrast of `rgb(r,g,b)` is the per-channel contrast |
| Utils.ValidChannelIff | src/Utils.php:264 | a decimal channel is accepted iff it is at most 255 |
| Utils.RgbRejectsLargeRed | src/Utils.php:264-266 | a red channel above 255 makes the colour unparseable, giving white |
| Utils.RgbaExample | src/Utils.php:264-265 | `rgba(1,2,3,0.5)` parses with alpha `0.5` |
| Utils.Hex4RoundTrip | src/Utils.php:104 | a four-digit `%04x` group reads back as its value |
| Utils.UuidString | src/Utils.php:104-120 | the UUID is 36 characters long |
| Utils.UuidLayout | src/Utils.php:104-120 | lowercase hex in 8-4-4-4-12 layout; index 14 is `4` and index 19 is one of `89ab` (section 4.4 of RFC 4122) |
| Utils.UuidFields | src/Utils.php:104-120 | each group reads back as its random draw, with the version and variant bits set |
| Utils.GenUuid | src/Utils.php:103-122 | the result is a prefix of the UUID: all of it for a false length, `min(length, 36)` characters for a positive one |
| Utils.GroupsFlatten | src/Utils.php:345-357 | the reference grouping of the words loses and reorders nothing |
| Utils.GroupsGreedy | src/Utils.php:349-354 | every line but the last reaches `minlength`, and no shorter prefix of a line does |
| Utils.SplitStringGroups | src/Utils.php:345-357 | `SplitString` joins the greedy groups, words by the delimiter and lines by the splitter |
| Utils.SplitStringEachWord | src/Utils.php:345-357 | with `minlength <= 1` every word is its own line |
| Utils.SplitStringKeepsWords | src/Utils.php:345-357 | joining the lines by the delimiter gives back the input |
| DateHelper.ZeroAddMonth | src/DateHelper.php:78-80 | `0`..`9` get a leading `0`; every other number is its decimal string |
| DateHelper.ZeroAddMonthRoundTrip | src/DateHelper.php:78-80 | for a non-negative month the result has at least two digits and reads back as the month |
| DateHelper.ZeroAddMonthExamples | src/DateHelper.php:78-80 | 0 gives `00`, 7 gives `07`, 12 gives `12`, -3 gives `-3` |
| DateHelper.MonthPlus | src/DateHelper.php:41-53 | with no offset, the current month; with an offset and a month, the padded sum; with an offset only, the current month plus the offset |
| DateHelper.MonthMinusIsPlus | src/DateHelper.php:61-71 | `monthMinus(k, m)` is `monthPlus(-k, m)` |
| DateHelper.MonthPlusExamples | src/DateHelper.php:41-53 | there is no wrap into the next year: 12 + 1 gives `13`; 3 + 2 gives `05`; 10 - 1 gives `09` |
| DateHelper.IsBetweenDate | src/DateHelper.php:89-94 | true iff the date lies in the closed interval between the two ends, whichever is larger |
| DateHelper.IsBetweenDateSpec | src/DateHelper.php:89-94 | the order of the two ends does not matter |
| DateHelper.GetWeekEnd | src/DateHelper.php:102-107 | the week end is 1 to 7 days later at the same time of day |
| DateHelper.GetWeekEndSpec | src/DateHelper.php:102-107 | the result is the Sunday of the next week, and a Sunday moves a full week |
| DateHelper.FirstLevel | src/DateHelper.php:179-189 | the units whose period exceeds the delay form a prefix of the unit list |
| DateHelper.FormatFromSuffix | src/DateHelper.php:186-189 | the format is the suffix of the unit formats from the first unit not longer than the delay |
| DateHelper.Seconds2Times | src/DateHelper.php:165-191 | null and false give false, true gives `Отключено`, 0 gives `0 сек.` |
| DateHelper.Seconds2TimesUnits | src/DateHelper.php:170-191 | a non-zero delay renders exactly the units not longer than its magnitude, in order; a negative delay only adds a leading `-` |
| DateHelper.Seconds2TimesExample | src/DateHelper.php:186-191 | 90 s uses minutes and seconds; -5 s in short form is `-` and seconds |
| DateHelper.Interval2SecondsSum | src/DateHelper.php:220-240 | the total is `86400*d + 3600*h + 60*i + s` over the keys present; other keys are ignored; a unit value that is not an integer, null, a boolean or an integer numeric string is an error |
| DateHelper.IntegerStringOf | src/DateHelper.php:226-235 | PHP 8's integer numeric strings: whitespace, an optional `+` or `-`, digits and whitespace read as the signed integer |
| DateHelper.IntegerStringParts | src/DateHelper.php:226-235 | conversely, a string read as an integer is whitespace, a signed run of digits and whitespace, and the value is that of the digits |
| DateHelper.Interval2SecondsStringsExample | src/DateHelper.php:220-240 | `d='-1'` gives -86400, `s=' 5'` and `s='5 '` give 5, `i='+2'` gives 120, and `s='- 5'` is an error |
| DateHelper.Interval2SecondsExample | src/DateHelper.php:220-240 | `h=1, x='?', s=5` gives 3605 |
| BuildAppHelper.ShaFrom | src/BuildAppHelper.php:37 | the greedy `(.+)` before `.sha-` takes the last possible position |
| BuildAppHelper.DateFrom | src/BuildAppHelper.php:37 | the date cut is the lexicographically last that still lets the rest match |
| BuildAppHelper.BranchFrom | src/BuildAppHelper.php:37 | the branch cut is the lexicographically last that still lets the rest match |
| BuildAppHelper.Match | src/BuildAppHelper.php:37 | the match is a valid cut, no valid cut comes after it, and there is none iff no cut is valid |
| BuildAppHelper.PartsOfCut | src/BuildAppHelper.php:37 | the groups of a valid cut are well formed and spell the subject again |
| BuildAppHelper.CutOfParts | src/BuildAppHelper.php:37 | well-formed groups written out give a valid cut whose groups are the originals |
| BuildAppHelper.VersionInfo | src/BuildAppHelper.php:32-50 | a part constant other than the six defined ones gives null, and any result needs a match |
| BuildAppHelper.VersionMatchRoundTrip | src/BuildAppHelper.php:37-42 | on a match, version `+build-` build `.branch-` branch `.date-` date `.sha-` sha is the subject; the build is a non-empty digit run; `P_ALL` returns the subject |
| BuildAppHelper.VersionMatchGreedy | src/BuildAppHelper.php:37 | among all decompositions the match has the longest version, then build, then branch, then date |
| BuildAppHelper.VersionMatchNone | src/BuildAppHelper.php:37-40 | there is no match iff no well-formed decomposition spells the subject |
| BuildAppHelper.UniqueCut | src/BuildAppHelper.php:37 | a valid cut with no `+` after its `+build-` and no `.` after its `.date-` other than the one of `.sha-` equals every valid cut at or after it |
| BuildAppHelper.VersionMatchUnique | src/BuildAppHelper.php:37 | when the later groups hold no `+` and date and sha hold no `.`, the cut is the one the parts were written with |
| BuildAppHelper.VersionMatchUniqueParts | src/BuildAppHelper.php:37-47 | under the same conditions, parsing gives the written parts back |
| BuildAppHelper.VersionInfoExample | tests/unit/BuildAppHelperTest.php:24-29 | `dev+build-62843.branch-dev.date-2022-04-20.sha-166fb656` gives `dev`, `62843`, `dev`, `2022-04-20`, `166fb656` and itself |
| BuildAppHelper.VersionInfoNeedsPlus | src/BuildAppHelper.php:37-40 | a subject without `+` gives null for every part |
| BuildAppHelper.VersionInfoMissingFile | tests/unit/BuildAppHelperTest.php:31 | `this-file-not-exists` gives null |
| BuildAppHelper.VersionInfoWrongString | tests/unit/BuildAppHelperTest.php:32 | `this.version+info-string.is-wrong` gives null |
| PathHelper.BaseName | src/PathHelper.php:53-55 | the basename has no `/` and is the last component after dropping trailing slashes |
| PathHelper.StemSuffix | src/PathHelper.php:36 | a basename with a dot is its stem, a dot and its suffix; without a dot it is its own stem and has an empty suffix |
| PathHelper.BaseNameParts | src/PathHelper.php:37 | the basename is the file name, a dot and the extension, or just the file name when it has no dot |
| PathHelper.ChangeFileExtension | src/PathHelper.php:36-38 | an empty extension gives the file name (the stem); a non-empty one gives the stem, a dot and the extension; no directory remains |
| PathHelper.ChangeFileExtensionParts | src/PathHelper.php:37 | after setting an extension the file keeps its name and has the new extension |
| PathHelper.ChangeFileExtensionIdempotent | src/PathHelper.php:37 | setting a non-empty extension without `.` or `/` twice is setting it once |
| PathHelper.ChangeFileExtensionRestores | src/PathHelper.php:37 | setting the extension the file already has gives its basename |
| PathHelper.ChangeFileExtensionNotIdempotent | src/PathHelper.php:37 | removing the extension is not idempotent: `a.tar.gz` gives `a.tar`, which gives `a` |
| PathHelper.WithExtension | src/PathHelper.php:36 | an empty extension leaves the name alone; a non-empty one ends the result after a dot, adding no `/` |
| PathHelper.ChangeFileName | src/PathHelper.php:45-47 | an empty name gives exactly the extension; otherwise the name, a dot and the extension |
| PathHelper.ChangeFileNameParts | src/PathHelper.php:46 | after renaming, the file has the new name and keeps its extension |
| PathHelper.ChangeFileNameRestores | src/PathHelper.php:46 | renaming a file with a dot to its own name gives its basename |
| PathHelper.ExtractFileName | src/PathHelper.php:53-55 | the basename, which contains no `/` |
| PathHelper.ExtractFileNameExamples | src/PathHelper.php:53-55 | `/var/www/index.php` gives `index.php`; `a/b/` gives `b` |
| PathHelper.ChangeFileExtensionExamples | src/PathHelper.php:36-47 | removing the extension of `/var/www/index.php` gives `index`; renaming it to `main` gives `main.php` |
| BootstrapHelper.ParseVer | src/BootstrapHelper.php:67-69 | empty iff the string is blank; otherwise its first non-blank character |
| BootstrapHelper.ConfiguredVersion | src/BootstrapHelper.php:56 | the static override wins, then the application parameter, then `3` |
| BootstrapHelper.ConfigureBsVersion | src/BootstrapHelper.php:55-60 | it caches whether the parsed major version is `4` and returns that version |
| BootstrapHelper.IsBs4 | src/BootstrapHelper.php:43-48 | the answer is cached, and a cached answer is returned without re-reading anything |
| BootstrapHelper.MajorFourParse | src/BootstrapHelper.php:67-69 | the parsed major is `4` iff the first non-blank character is `4` |
| BootstrapHelper.IsBs4Major | src/BootstrapHelper.php:43-60 | with no cached answer, `isBs4` holds iff the configured version starts with `4` |
| BootstrapHelper.IsBs4Memoised | src/BootstrapHelper.php:43-48 | once answered, changing the override or the parameter does not change the answer |
| BootstrapHelper.OverrideWins | src/BootstrapHelper.php:56 | a set override decides the answer whatever the parameter says |
| BootstrapHelper.DefaultIsThree | src/BootstrapHelper.php:56 | with neither set, the version is `3` and `isBs4` is false |
| BootstrapHelper.MajorFourExamples | src/BootstrapHelper.php:19-20 | `4`, `4.x`, `4.1.1` and ` 4` count as 4; `3`, `3.3.7` and `5` do not |
| BootstrapHelper.IsBs4Examples | src/BootstrapHelper.php:43-60 | the override `4.x` gives true over the parameter `3`; the parameter `3.3.7` gives false |
| ReflectionHelper.NamespaceOf | src/ReflectionHelper.php:32 | the namespace line is `namespace`, one non-word character, the namespace and `;` |
| ReflectionHelper.FirstDeclaration | src/ReflectionHelper.php:29-35 | the first line that declares a namespace, and no earlier one |
| ReflectionHelper.ExtractNamespace | src/ReflectionHelper.php:27-36 | false (none) iff no trimmed line has the form `namespace<non-word>…;` |
| ReflectionHelper.ExtractNamespaceDeclared | src/ReflectionHelper.php:27-36 | a `namespace ns;` line after lines that declare nothing yields `ns` |
| ReflectionHelper.ExtractNamespaceExample | src/ReflectionHelper.php:27-36 | the first of two declarations wins |
| ReflectionHelper.GetClassNameFromFile | src/ReflectionHelper.php:92-94 | exactly the namespace, a backslash and the file stem; with no namespace, `\` and the stem |
| ReflectionHelper.Qualified | src/ReflectionHelper.php:93 | the result starts with the namespace and a backslash, ends with a backslash and the name, and holds nothing else; an empty namespace leaves a leading backslash |
| ReflectionHelper.IsInSubclassOf | src/ReflectionHelper.php:102-108 | no filter admits every class; a list admits a class iff the class-table key of some listed name is a strict ancestor |
| ReflectionHelper.ClassKey | src/ReflectionHelper.php:105 | the name `isSubclassOf` looks up has no uppercase ASCII letter and at most the leading backslash removed |
| ReflectionHelper.ClassKeyLeadingSlash | src/ReflectionHelper.php:105 | a leading backslash does not change the class a name finds |
| ReflectionHelper.ClassKeyIgnoresCase | src/ReflectionHelper.php:105 | names that differ only in ASCII letter case find the same class |
| ReflectionHelper.IsInSubclassOfExample | src/ReflectionHelper.php:102-108 | a `yii\base\Model` subclass passes `yii\base\Model` and `\yii\base\model`, and fails `yii\base\Component` |
| ReflectionHelper.IsInSubclassOfMonotone | src/ReflectionHelper.php:104-107 | an empty list admits nothing; a list admits a class iff one of its parts does |

## Left out

- The file system, the clock and randomness:
  - `Utils` `fileLog`, `log`, `LastCommit` and `CypherFileName`.
  - `BuildAppHelper::LastCommit` and the file-reading branch of `VersionInfo`. The model always parses the argument as the version string.
  - `PathHelper::CreateDirIfNotExisted`.
  - The `DateHelper` functions built on `date()`, `DateTime` or `mktime`: `lcDate`, `diff`, `fullDays`, `getDayEnd`, `isValidDate`, `unix_timestamp` and `from_unix_timestamp`.
  - `random_str`, `getRandItem` and `generateLogin`. The eight `random_int` draws of `gen_uuid` are parameters.
- DateHelper.MonthPlus: the current month read from the clock is the parameter `clockMonth`.
- DateHelper.MonthPlus, DateHelper.Interval2SecondsSum: integers are unbounded. PHP's 64-bit overflow to float is not modelled, and neither is the `TypeError` that follows under strict types. That overflow happens in `$month += $int` before `zeroAddMoth(int)`, and in `$value * 24 * 60 * 60` before the `:int` return of `interval2seconds`. For example, `monthPlus(1, PHP_INT_MAX)` and `interval2seconds(['d' => PHP_INT_MAX])` throw in PHP, but the model returns the exact sum and product. The same holds for `monthMinus`.
- DateHelper.Seconds2Times: the final `DateInterval::format` of the interval is the parameter `render`, which receives the magnitude of the delay in seconds and the chosen format string; what it prints for each unit is not modelled. String delays and numeric strings are not modelled; the delay is null, a boolean or an integer.
- DateHelper.GetWeekEnd: a `DateTime` is a day number and a second of the day, with no time zones or daylight-saving shifts.
- DateHelper.IsBetweenDate: the dates are compared as already-parsed timestamps; `strtotime` parsing is left out.
- DateHelper.Interval2SecondsSum: strings are read as PHP 8 integer numeric strings: whitespace, an optional sign, digits, whitespace. Float strings such as `"1.5"` or `"1e3"` are left out with the other floats. Leading-numeric strings such as `"5 apples"` are errors in the model, whereas PHP 8 uses their leading number with an `E_WARNING`. Wholly non-numeric strings are errors in both, since PHP 8 throws a `TypeError`. Integer keys never match the `switch` under PHP 8 comparison.
- Utils.DecToPos: requires an alphabet of at least two characters. With a one-character alphabet the source loops forever for n >= 1 but returns `alphabet[0]` after one step for n <= 0; that case is not modelled, and an empty alphabet throws. The alphabet is a sequence of characters, whereas `strlen` and `$alphabet[$i]` count bytes, so a multibyte alphabet (such as Cyrillic letters in UTF-8) is modelled as if each character were one byte. The float arithmetic of `floor` is modelled as exact integer division.
- Utils.GenUuid: a `true` length (which `substr` treats as 1) is not modelled; the length is an integer with 0 meaning false.
- Utils.SplitString: only one-character delimiters are modelled.
- Utils.ShortifyString, ControllerHelper.GetActionRequestName, ControllerHelper.ConvertControllerNameToId: `mb_strtolower`/`mb_strtoupper` and the POSIX classes are modelled on ASCII letters only.
- The other `Utils` members (`process_path`, `is_json`, `ceiling`, `MakeLike`, `pageTotal`, `isSameUrlPath`), `IconsHelper`, and the cache, CSV, zip, module and data-provider helpers are outside the modelled core.
- ArrayHelper.GetValue: only the plain-key case of Yii's `getValue` is modelled. Dotted paths, object properties, closures and a `Throwable` default are left out. ArrayHelper.InitValue is therefore modelled on plain keys only.
- ArrayHelper.MergeImplodeValue: the current value is looked up by plain key. `getValue` would follow a dotted key such as `'a.b'` into nested arrays when no plain key `'a.b'` exists, so `mergeImplode(',', ['a'=>['b'=>'x']], ['a.b'=>'y'])` gives `'a.b'=>'x,y'` in PHP and `'y'` in the model.
- PHP's normalisation of numeric-string keys (`'10'` to `10`) is left out; keys in the model are already normalised.
- Floats are left out. This covers `isInWithFloatDelta`, `isFloatEquals` and the float branch of `isEquals`. ArrayHelper.IsEqual compares scalars with `===` and counts nested arrays.
- ArrayHelper.FilterValues: the loose `==` is a parameter of the model, not PHP's comparison table.
- `array_unique`, `loopArrayMerge`, `cmap`, `cmapEx`, `countValue`, `replaceStrInKeys` and `map` of `ArrayHelper` are outside the modelled core.
- ControllerHelper: loading classes and modules through Yii (`LoadControllerClassFromFile`, `GetControllersList`, `GetControllerActions`, `IsAjaxValidationRequest` and the rest) is left out. For `IsControllerHasActionMethod`, the controller's public methods and disabled actions are parameters. The controller name interpolated into the sub-folder regex is matched literally; names with regex metacharacters are not modelled.
- ReflectionHelper: `New`, `LoadClassByName`, `LoadClassFromFile`, `GetClassShortName`, `GetMethods`, `is_closure`, `setAccessible` and `getPropertyType` need PHP reflection. A class is the set of the class-table keys of its strict ancestors. `isSubclassOf` throwing for an unknown class is not modelled.
- PathHelper: `/` is the only directory separator, and a `pathinfo` path with no basename is not special-cased.
- BootstrapHelper: a `params['bsVersion']` explicitly set to null is treated as missing.

## Findings

| source | as written | input that shows it | evidently intended | confidence | as-written member | corrected member |
|---|---|---|---|---|---|---|
| src/ArrayHelper.php:379-387 | `renameKeysByMap` copies `$array[$search]` to `$array[$replace]`, then unsets `$array[$search]`. When the two keys are the same, this deletes the entry | `renameKeysByMap(['a' => 1], ['a' => 'a'])` returns `[]` | renaming a key to itself leaves the array unchanged: `['a' => 1]` | high, not executed | ArrayHelper.RenameSelfDeletes | ArrayHelper.RenameSelfKeeps |
