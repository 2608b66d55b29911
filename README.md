# JTSv2 shell front end in Dafny

JTSv2 is a shell whose input language is Python with two additions:
- command calls `name(...)`, which are resolved through a registry of command modules;
- environment variables `$name`.

This project models the text front end that rewrites one line of input into Python, and the small containers around it. It covers:

- **StringUtil**, from `lib/stringutil.py`: the string helpers. These are
  - `cut`, `divide_by_custom`, `get_substring_before`, `get_substring_between`,
  - `get_sublist_between`, `get_indendation`, `remove_indendation`,
  - `latex_compatible` and `count_chars`.
- **StringStructures**: the quote-aware layer.
  - `split_string_structures` cuts a line into alternating free text and string literals. Its two regular expressions are written out as explicit leftmost matchers.
  - `replace_ignore_in_quotationmarks` and `count_ignore_in_quotationmarks` build on that split.
- **CommandFinder** and **NameFinder**, from `translate.py`: discovering calls, command names and variables in a line.
  - `_find_commands_without_string_parameters` is a character scanner with a bracket balance.
  - `_find_whole_commands` carries the count of open brackets across string literals.
  - Both then search the bodies of the calls they found again, by iterating over a list that grows while it is iterated.
  - Also here: `_find_command_names`, `_find_environmental_variables` and `_get_commandname`.
- **Translate**: the rewriting.
  - `_translate_environmental_variables` turns `$x` into `EnV['x']`.
  - `_translate_commands` adds import lines, and rewrites foreground, background (`!`) and help (`?`) calls.
  - `translate` applies both.
- **CommandRegistry**: `CommandReferenceDictionary`, a class over the command map. Its insertion order is kept as a sequence.
- **DataManage**, from `datamanage.py`:
  - `EnvironmentalVariableContainer`: an in-memory map plus one durable record per variable;
  - the `Message` family: colour resolution, prefixes, `get_string` and `get_kivy`.
- **Help**, from `commands/help.py`: extracting a command's description from its doc string, the sorted command list, and the listing and single help formats.
- **Processes**, from `process.py`: `ProcessList`'s naming of stored processes and its first-in first-out queue of start requests.

Python's own string operations are given Dafny definitions in **PyStrings**:
- `str.count` counts non-overlapping occurrences; `str.replace`, `str.find`, `str.split` and `''.join` are defined there too;
- string ordering and `list.sort` are defined as a strictly sorted sequence with the same elements.

**Results** holds the `Result`/`Option` types and the Python exceptions the core can raise: `IndexError`, `KeyError`, `ValueError`, `TypeError`.

Loops in the source are methods with loop invariants. Each is proved equal to a recursive specification function, and the properties are proved about those functions. Objects whose fields the source updates are classes.

Where the comments and examples in the source disagree with its code, the model follows the code:
- `_find_whole_commands` re-seeds the pending call with the text that closed the previous one (`translate.py:210`). So for `That('not()')` the reported calls are not the ones the docstring example lists.
- `_translate_environmental_variables` drops the `$` from the key (`translate.py:38`). The docstring example at `translate.py:28-29` keeps it.
- A background call imports the module under the command's name, not the module's (`translate.py:101`).
- `EnvironmentalVariableContainer.__setitem__` writes a durable record only when the key is new (`datamanage.py:54-58`). A later assignment changes only the map.
- `get_description_string` returns from inside its line loop (`commands/help.py:180`). So a doc string with no line that ends the description gives `None`: such a line is non-empty, does not start with a lower-case letter, and contains `:`.

## Model

| member | source | states |
|---|---|---|
| PyStrings.ContainsIffOccurs | translate.py:83 | `sub in s` holds exactly when `sub` occurs at some index of `s` |
| PyStrings.IndexFrom | lib/stringutil.py:108 | `str.find` from an index: the first occurrence at or after it, or -1 when there is none |
| PyStrings.FindPresent | lib/stringutil.py:107-108 | `find` returns -1 exactly when the substring is absent |
| PyStrings.CountOneChar | lib/stringutil.py:223-228 | `str.count` of one character is the number of its occurrences (the multiset count) |
| PyStrings.CountAbsent | lib/stringutil.py:307-308 | an absent substring is counted zero times |
| PyStrings.ReplaceAbsent | lib/stringutil.py:307-308 | replacing an absent substring leaves the string unchanged |
| PyStrings.ReplaceSelf | lib/stringutil.py:351 | replacing a substring by itself leaves the string unchanged |
| PyStrings.ReplaceCharByNothing | lib/stringutil.py:170 | deleting every copy of a character leaves all other characters, with their counts |
| PyStrings.ConcatAppend | lib/stringutil.py:355 | `''.join` of two lists appended is the join of the first followed by the join of the second |
| PyStrings.SplitOn | commands/help.py:145 | `str.split(c)` gives one more piece than there are `c`, and no piece contains `c` |
| PyStrings.JoinSplitOn | commands/help.py:145 | joining the pieces of `split(c)` with `c` gives the string back |
| PyStrings.IntToString | process.py:47 | `str(i)` of a natural number is a non-empty string of decimal digits |
| PyStrings.BelowTotal | commands/help.py:231 | string order is total: two different strings are ordered one way or the other |
| PyStrings.BelowTransitive | commands/help.py:231 | string order is transitive |
| PyStrings.BelowAsymmetric | commands/help.py:231 | string order is asymmetric |
| PyStrings.SortSet | commands/help.py:230-231 | sorting a set of strings gives a strictly ascending list with exactly those elements |
| PyStrings.SortedUnique | commands/help.py:231 | two strictly sorted lists with the same elements are equal, so the sorted list does not depend on the input order |
| StringUtil.Cut | lib/stringutil.py:14-27 | `cut(s, a, b)` is `s[a..b]` with both ends included; it is empty when `b < a` and never longer than `s` |
| StringUtil.Terminated | lib/stringutil.py:45-48 | the separator is appended only when the string does not already end with it; the result ends with the separator |
| StringUtil.SplitChars | lib/stringutil.py:52-61 | the character loop of `divide_by_custom` gives the pieces between separators |
| StringUtil.DivideByCustom | lib/stringutil.py:30-80 | the method computes the specification of `divide_by_custom`, `None` cases included |
| StringUtil.DivideOneChar | lib/stringutil.py:42-61 | for non-empty input and a one-character separator: the pieces contain no separator; there is one piece per separator once a trailing separator is ensured; joining them with the separator gives the terminated input back |
| StringUtil.DivideLongSeparator | lib/stringutil.py:63-80 | for a separator of another length: a list exactly when the separator occurs, and then the pieces joined with `°` equal `s.replace(custom, "°")` |
| StringUtil.GetSubstringBefore | lib/stringutil.py:96-110 | the prefix of `s` up to the first occurrence of `before`, or all of `s` when it does not occur |
| StringUtil.SubstringBetweenMarkers | lib/stringutil.py:134-145 | when the first start marker is followed by an end marker, the result is the text between them, and `s` splits around both markers |
| StringUtil.ListIndex | lib/stringutil.py:129-131 | `list.index(x, start)`: the first index at or after the normalised start holding `x`, or `ValueError` when there is none |
| StringUtil.GetSublistBetween | lib/stringutil.py:112-131 | the method computes the specification of `get_sublist_between`, including the whitespace-stripped keys |
| StringUtil.SublistBetweenMarkers | lib/stringutil.py:112-131 | with the first start item at `a` and the next end item at `b`, the result is the elements strictly between them |
| StringUtil.SublistBetweenMissingStart | lib/stringutil.py:129-131 | a missing start item raises `ValueError` |
| StringUtil.Indentation | lib/stringutil.py:173-190 | the indentation is a prefix of spaces, followed by the end of the string or a non-space |
| StringUtil.GetIndendation | lib/stringutil.py:183-190 | the loop computes exactly that indentation |
| StringUtil.IndentationUnique | lib/stringutil.py:183-190 | the maximal leading run of spaces is unique |
| StringUtil.RemoveIndendationEffect | lib/stringutil.py:161-170 | no indentation gives `s` unchanged; otherwise the leading indentation goes, and so does every later occurrence of that run of spaces |
| StringUtil.EscapeStep | lib/stringutil.py:204-208 | each `replace` of `latex_compatible` adds one more escaped character |
| StringUtil.LatexEscapes | lib/stringutil.py:193-210 | `latex_compatible` first turns every blank line `\n\n` into `\\` and a line break, then puts a backslash before every `_ % $ & #` and changes nothing else; without blank lines only the escaping happens |
| StringUtil.CountChars | lib/stringutil.py:213-228 | a single character is counted by its number of occurrences, equal to `str.count`; a longer or empty argument counts 0 |
| StringStructures.NextQuote | lib/stringutil.py:279 | the next quote character at or after an index, with none in between |
| StringStructures.SingleMatchAt | lib/stringutil.py:279 | a match of `'[^']*'\|"[^"]*"` at `p` is a quoted piece; there is none exactly when `s[p]` is no quote or has no later partner |
| StringStructures.TripleMatchAt | lib/stringutil.py:251 | a match of the triple-quote expression at `p` is a well-formed triple-quoted piece |
| StringStructures.FinditerSplit | lib/stringutil.py:279-285 | the `finditer` loop gives the specified alternation of free and matched pieces |
| StringStructures.ScanConcat | lib/stringutil.py:281-285 | the pieces of a scan concatenate back to the scanned text |
| StringStructures.ScanShape | lib/stringutil.py:281-285 | there is an odd number of pieces, and every piece at an odd position is a match |
| StringStructures.ScanFreeQuotes | lib/stringutil.py:279-285 | a quote with no later partner stays in free text, and no free piece starts a match |
| StringStructures.ScanNoQuotes | lib/stringutil.py:279-285 | text without quote characters is one free piece |
| StringStructures.SplitStringStructures | lib/stringutil.py:231-287 | the method computes `SplitStructures`; without two triple quotes of a kind, it is the single-quote pass alone |
| StringStructures.RefineFails | lib/stringutil.py:265-266 | the re-split of the triple-quote pass raises `IndexError` exactly when a piece is empty |
| StringStructures.RefineConcat | lib/stringutil.py:265-275 | the re-split keeps the concatenation |
| StringStructures.SplitConcat | lib/stringutil.py:249-287 | when the split succeeds, its pieces concatenate back to the input |
| StringStructures.TripleBranchFails | lib/stringutil.py:249-266 | in the triple-quote branch the split fails exactly when a first-pass piece is empty, for example when the input starts with a triple-quoted literal |
| StringStructures.SplitNoQuotes | lib/stringutil.py:278-285 | text without quote characters is split into itself |
| StringStructures.ReplaceIgnoreInQuotationmarks | lib/stringutil.py:290-355 | the method computes `ReplaceIgnore`: the input unchanged when the substring is absent; plain `str.replace` when there are fewer than two `'` and fewer than two `"` |
| StringStructures.GroupPieces | lib/stringutil.py:326-344 | the grouping loop gives the specified chunks |
| StringStructures.FinishChunks | lib/stringutil.py:346-353 | the final loop replaces in free chunks and keeps quoted ones |
| StringStructures.ReplaceIgnoreKeepsQuoted | lib/stringutil.py:329-353 | a quoted piece that contains the substring appears unchanged among the output chunks |
| StringStructures.GroupConcat | lib/stringutil.py:326-344 | grouping keeps the concatenation |
| StringStructures.ReplaceIgnoreIdentity | lib/stringutil.py:290-355 | replacing a substring by itself returns the input |
| StringStructures.ReplaceIgnoreBeforeLiteral | lib/stringutil.py:290-355 | for free text followed by one literal that also contains the substring, the free text is replaced and the literal kept |
| StringStructures.ReplaceIgnoreOneChunk | lib/stringutil.py:329-353 | when no quoted piece contains the substring, the whole line is one chunk: it is replaced throughout, inside literals too, unless it both starts and ends with a quote |
| StringStructures.CountIgnoreInQuotationmarks | lib/stringutil.py:358-368 | the method computes `CountIgnore`: occurrences summed over the non-empty pieces that are not literals |
| StringStructures.CountIgnoreAtMostCount | lib/stringutil.py:358-368 | for one character the quote-ignoring count never exceeds the plain count |
| StringStructures.CountIgnoreNoQuotes | lib/stringutil.py:358-368 | without quote characters it equals `str.count` |
| CommandFinder.IndexOfChar | translate.py:245 | `find("(")` on a string that contains `(`: the first index holding it |
| CommandFinder.RunInv | translate.py:276-302 | after any prefix of the input: the gathered characters are a suffix of it, either a possible name or a name with an open call whose unclosed brackets match the balance; and every reported call has the call shape and is a substring of it |
| CommandFinder.ScanCallsShape | translate.py:276-302 | each call the scan reports is a contiguous substring of the input: a name free of illegal characters and `)`, then `(`, a balanced body, and a final `)` |
| CommandFinder.ScanCallsIgnoreTail | translate.py:279-302 | text without `)` appended to the input adds no call, so a call left open at the end is not reported |
| CommandFinder.ScanForCalls | translate.py:276-302 | the character loop computes `ScanCalls` |
| CommandFinder.ExpandFixpoint | translate.py:307-310 | the list grown while it is iterated is its start followed by the calls nested in every element, its own appended ones included |
| CommandFinder.GrowingListComplete | translate.py:307-310 | a prefix of that list which already satisfies the same equation is the whole list, so the loop stops exactly there |
| CommandFinder.CallsWithoutStringsNesting | translate.py:250-312 | `_find_commands_without_string_parameters` is the scan's calls followed by the calls nested in its own result, in iteration order |
| CommandFinder.CallsShape | translate.py:250-312 | every call it returns, nested ones included, has the call shape and is a substring of the input |
| CommandFinder.FindCommandsWithoutStringParameters | translate.py:250-312 | the method computes `CallsWithoutStrings` |
| CommandFinder.ForwardClose | translate.py:195-208 | the forward scan closes the pending call at the first prefix that ends with `)` and brings the open brackets to zero |
| CommandFinder.BackwardStart | translate.py:212-233 | the backward scan starts at the first point from the right where the suffix holds exactly the open brackets |
| CommandFinder.ForwardBackwardDisjoint | translate.py:195-233 | the tail the backward scan keeps never starts before the prefix that closed the pending call |
| CommandFinder.ForwardScan | translate.py:195-210 | the loop finds `ForwardClose` and keeps the prefix, or the whole piece when none closes |
| CommandFinder.BackwardScan | translate.py:212-233 | the reverse loop keeps exactly `TailOf` |
| CommandFinder.ScanPiece | translate.py:190-237 | one iteration over a piece performs `PieceStep` |
| CommandFinder.ScanPieces | translate.py:188-237 | the loop over the pieces computes `FoldPieces` |
| CommandFinder.FoldPiecesEmptyPiece | translate.py:191 | an empty piece raises `IndexError` |
| CommandFinder.PieceCalls | translate.py:175-237 | the calls of the first phase are no longer than the input; its only error is `IndexError` |
| CommandFinder.FindPieceCalls | translate.py:175-237 | the method computes `PieceCalls` |
| CommandFinder.Recount | translate.py:244 | re-scanning is decided by the quote-ignoring count of `(`, and raises exactly when that split does |
| CommandFinder.NestedCallsOf | translate.py:244-245 | the recursive call on a command's body computes `NestedWholeOf` |
| CommandFinder.GatherAppend | translate.py:243-245 | the calls gathered from two lists appended are those of the first followed by those of the second; a failure in either fails the whole |
| CommandFinder.GrowComplete | translate.py:242-245 | a prefix of the growing list that satisfies its defining equation is the whole list |
| CommandFinder.ExpandWholeFixpoint | translate.py:242-245 | the grown list is the first-phase calls followed by those found in each of its elements, and the loop fails when one search fails |
| CommandFinder.ExpandCalls | translate.py:242-245 | the loop over the growing list computes `ExpandWhole` |
| CommandFinder.WholeCallsFixpoint | translate.py:160-247 | `_find_whole_commands` is the first-phase calls followed by the calls nested in its own result |
| CommandFinder.WholeCallsEmpty | translate.py:191 | the empty line raises `IndexError` |
| CommandFinder.WholeCallsEmptyPiece | translate.py:176-191 | a line whose split has an empty piece raises `IndexError` |
| CommandFinder.WholeCallsNoQuotes | translate.py:190-192 | for non-empty input without quotes, the first phase gives `_find_commands_without_string_parameters(input)`, and that list starts the result, which the expansion at lines 242-247 only appends to |
| CommandFinder.FindWholeCommands | translate.py:160-247 | the method computes `WholeCalls`, with `IndexError` when any piece or split fails |
| NameFinder.NameMatchAt | translate.py:139 | a match of `[^().,\-+"'#*'\s]*\(` at `p` ends after `p` |
| NameFinder.NameMatchOpening | translate.py:139 | each match ends in its only `(` |
| NameFinder.NamesFromCount | translate.py:139-142 | `re.findall` yields exactly one match per `(` of the text |
| NameFinder.StripMatch | translate.py:143 | removing spaces and `(` from a match drops its final `(` |
| NameFinder.NameMatchesCount | translate.py:140-142 | over the free pieces there is one match per free `(` |
| NameFinder.CommandNamesCount | translate.py:125-143 | `_find_command_names` gives as many names as `count_ignore_in_quotationmarks(s, "(")`, each made only of name characters |
| NameFinder.FindCommandNames | translate.py:125-143 | the method computes `CommandNames` |
| NameFinder.VarMatchAt | translate.py:324 | a match of `\$[^'".,()\-+\s=;:]+` at `p` has at least one character after the `$` |
| NameFinder.VarsFromShape | translate.py:324-327 | every match is a `$` followed by variable characters, and there are no more matches than `$`s |
| NameFinder.EnvVarsShape | translate.py:315-328 | `_find_environmental_variables` gives `$name` matches only, at most one per `$` of the line |
| NameFinder.FindEnvironmentalVariables | translate.py:315-328 | the method computes `EnvVars` |
| NameFinder.GetCommandname | translate.py:146-157 | the text before the first `(`; with no `(`, the string minus its last character |
| Translate.ReplaceIgnorePlain | lib/stringutil.py:312-314 | with fewer than two of each quote, the quote-ignoring replace is plain `str.replace` |
| Translate.EnvName | translate.py:38 | the key is the variable's name with every `$` removed |
| Translate.TranslateEnvNoDollar | translate.py:20-40 | a line without `$` is left unchanged |
| Translate.TranslateEnvOneVar | translate.py:34-40 | a quote-free line with one variable `$x` has each occurrence rewritten to `EnV['x']` |
| Translate.TranslateEnvDocLine | translate.py:27-40 | the docstring's line `$n = $m and '$n'`, for two names neither a prefix of the other, becomes `EnV['n'] = EnV['m'] and '$n'`: both variables are rewritten, the quoted one is kept, and the key has no `$` |
| Translate.TranslateEnvPrefixVariable | translate.py:36-39 | in `$a + $ab` the replacement of `$a` also rewrites the start of `$ab`, so the line becomes `EnV['a'] + EnV['a']b` |
| Translate.TranslateEnvQuotedEnds | translate.py:36-39 | in `'x' + $a + 'y'` the text between the two literals counts as quoted, so the line is returned unchanged |
| Translate.TranslateEnvironmentalVariables | translate.py:20-40 | the method computes `TranslateEnv` |
| Translate.CallName | translate.py:78 | the command key is the call's name with every `!` and `?` removed |
| Translate.Translated | translate.py:98-111 | errors are only `IndexError`, for an empty call; a quote-free `!` call becomes `background(shell, ('''` with the import line under the command's name, the call with `!name(` replaced by `module.main(bg_com,`, and `'''))`; a `?` call becomes exactly `help('''module''')`; a plain quote-free call has `name(` replaced by `module.main(fg_com,` |
| Translate.TranslateCall | translate.py:98-111 | the method computes `Translated` |
| Translate.RewriteImports | translate.py:77-92 | the gathered import lines are exactly those of the registered calls |
| Translate.RewriteUnregistered | translate.py:83-84 | calls whose key is not registered change nothing |
| Translate.TranslateCommandsImports | translate.py:115-120 | the output begins with the de-duplicated, sorted import lines of the registered calls |
| Translate.TranslateCommandsUnregistered | translate.py:43-122 | with no registered call the line is returned unchanged |
| Translate.TranslateCommandsOneCall | translate.py:72-122 | a quote-free line whose only call `c` is registered becomes that module's import line followed by the line with `c` replaced by its translation |
| Translate.TranslateCommandCalls | translate.py:43-122 | the method computes `TranslateCommands` |
| Translate.TranslateLineImports | translate.py:14-17 | a variable error is the line's error; a translated line starts with the sorted, de-duplicated import lines of the registered calls found after the variables were rewritten |
| Translate.TranslateLineNoVariables | translate.py:14-17 | a line without `$` that splits is translated by the command stage alone |
| Translate.TranslateLineOneCall | translate.py:14-17 | a line without quotes or `$` whose only call is registered becomes the import line followed by the line with the call translated |
| Translate.TranslateInput | translate.py:14-17 | the method computes `TranslateLine`: variables first, then commands |
| CommandRegistry.Without | translate.py:375 | deleting a key keeps the order of the others, and its result has one key fewer when the key was present |
| CommandRegistry.DistinctCard | translate.py:369 | a list of distinct keys is as long as its key set |
| CommandRegistry.CommandReferenceDictionary.constructor | translate.py:334-347 | the map and its order are those of the `[Commands]` section |
| CommandRegistry.CommandReferenceDictionary.Add | translate.py:351-354 | exactly one key is set and the others are unchanged; the saved file is the parser's section, which `add` never changes |
| CommandRegistry.CommandReferenceDictionary.GetModulename | translate.py:356-357 | the module of a registered command, or `KeyError` |
| CommandRegistry.CommandReferenceDictionary.IsCommand | translate.py:359-360 | true exactly when the key is registered |
| CommandRegistry.CommandReferenceDictionary.Save | translate.py:362-363 | the file holds the parser's section |
| CommandRegistry.CommandReferenceDictionary.Clear | translate.py:365-366 | the map is emptied |
| CommandRegistry.CommandReferenceDictionary.Len | translate.py:368-369 | the number of registered commands |
| CommandRegistry.CommandReferenceDictionary.GetItem | translate.py:371-372 | the stored module, or `KeyError` for a missing key |
| CommandRegistry.CommandReferenceDictionary.DelItem | translate.py:374-375 | the key is removed and nothing else changes, or `KeyError` with no change |
| CommandRegistry.CommandReferenceDictionary.SetItem | translate.py:377-378 | the key is set and a new key goes last in the order |
| CommandRegistry.CommandReferenceDictionary.Iter | translate.py:380-381 | the module names, in the order their commands were added |
| DataManage.EnvironmentalVariableContainer.constructor | datamanage.py:28-37 | the map starts as exactly the stored records |
| DataManage.EnvironmentalVariableContainer.Load | datamanage.py:39-51 | every record becomes a map entry under its name, overriding the previous value |
| DataManage.EnvironmentalVariableContainer.SetItem | datamanage.py:53-59 | the map is updated; a record with the value is created only for a new key; every variable keeps its record |
| DataManage.EnvironmentalVariableContainer.GetItem | datamanage.py:61-62 | the stored value, or `KeyError` |
| DataManage.ResolveColour | datamanage.py:265-277 | a known name gives its table code; a 7-character `#` code is kept with an empty name; any other non-empty string gives white; an empty string raises `IndexError` |
| DataManage.AddPrefixBrackets | datamanage.py:290-298 | the prefix is wrapped in `[` and `]` |
| DataManage.NewMessage | datamanage.py:239-277 | content, both bracketed prefixes and the resolved colour; fails only for an empty colour |
| DataManage.Info | datamanage.py:322-323 | prefixes `[INFO]` and `[*]`, white |
| DataManage.Error | datamanage.py:383-389 | prefixes `[ERROR]` and `[!]`, red, with the exception's type name kept |
| DataManage.ResultOf | datamanage.py:450-451 | prefixes `[RESULT]` and `[+]`, green |
| DataManage.InputPrompt | datamanage.py:493-494 | prefixes `[INPUT]` and `[IN]`, blue |
| DataManage.GetString | datamanage.py:325-338 | for each of the four message classes (also lines 391-410, 453-469 and 496-512): the chosen prefix and a space, then the content at the end. An error has its type name and a line break in between. A result or prompt has a line break only when `newline` is set. The exact length is stated for the kinds other than errors |
| DataManage.Str | datamanage.py:287-288 | the plain rendering with the long prefix |
| DataManage.GetKivy | datamanage.py:340-357 | for each of the four message classes (also lines 412-427, 471-488 and 514-530): starts with `[color=` code `][b]` prefix `[/b]` and ends with `[/color]` |
| DataManage.KivyMarksUpString | datamanage.py:340-357 | for each of the four message classes (also lines 412-427, 471-488 and 514-530): the kivy rendering is the plain one with the prefix made bold and the whole wrapped in the colour |
| Help.Described | commands/help.py:148-180 | a description exists exactly when some line is a stop line: non-empty, not starting with a lower-case letter, and containing `:`. Whether it starts with a keyword makes no difference, because both returns give the same text. The description has no line break when the lines have none |
| Help.DescribedIsJoinBeforeStop | commands/help.py:148-176 | the description is the join, with no separator, of the lines before the first stop line; empty lines add nothing |
| Help.DescriptionOf | commands/help.py:145-180 | the description of a doc string never contains a line break, and is `None` exactly when no stop line exists |
| Help.GetDescriptionString | commands/help.py:127-180 | the loops compute `DescriptionOf`, returning inside the line loop |
| Help.GetDescriptionStringList | commands/help.py:203-211 | same length and order; a missing doc string gives `"None"`, any other its description |
| Help.GetCommandList | commands/help.py:214-232 | the registry's keys, strictly ascending, each once |
| Help.CommandListOrderFree | commands/help.py:230-231 | the list does not depend on the registry's key order |
| Help.JoinStrings | commands/help.py:292 | `''.join` raises `TypeError` exactly when some element is `None` |
| Help.JoinStringsAppend | commands/help.py:292 | joining two lists appended fails when either fails, and is otherwise the two joins concatenated |
| Help.Label | commands/help.py:276-279 | the name, colour-wrapped unless plain; an unknown colour raises `KeyError` when not plain; the label contains the name |
| Help.Breaks | commands/help.py:288-289 | `range(0, spacing)` line breaks: none for a non-positive spacing |
| Help.BlockJoin | commands/help.py:275-289 | one command's block joins to its entry and the spacing, or `TypeError` when its description is `None` |
| Help.BlocksJoin | commands/help.py:271-289 | the blocks join exactly when no description is `None`, and then give the listing text |
| Help.ListingTextPrefix | commands/help.py:271-289 | each entry follows the entries before it, in list order |
| Help.ListingErrors | commands/help.py:261-293 | `IndexError` exactly for lists of different lengths; `KeyError` exactly for an unknown colour when not plain and the list is non-empty; `TypeError` exactly for a `None` description otherwise |
| Help.ListingHasEveryEntry | commands/help.py:268-293 | a successful listing contains every command's label, a line break, its description and a line break |
| Help.GetHelpStringListingFormat | commands/help.py:235-293 | the method computes `ListingFormat` |
| Help.SingleFormat | commands/help.py:297-333 | the label, a line break, the doc string and a line break; `KeyError` for an unknown colour when not plain, `TypeError` for a `None` doc string |
| Help.ListingOfOne | commands/help.py:235-333 | a listing of one command with no spacing is the header followed by the single format, with the same errors |
| Processes.Candidate | process.py:47 | the candidate name starts with the given name and is longer |
| Processes.FirstFree | process.py:46-48 | the first index below 100 whose name is not among the stored values, after all taken ones |
| Processes.Appended | process.py:45-50 | the value is stored under the first free candidate and nothing else changes; nothing changes when all hundred are taken |
| Processes.AppendOverwrites | process.py:48 | with only processes stored, the name with `0` is always used, so a repeated name overwrites the earlier entry |
| Processes.ProcessList.constructor | process.py:39-43 | no processes and no requests |
| Processes.ProcessList.Append | process.py:45-50 | the loop stores exactly as `Appended` says |
| Processes.ProcessList.StartProcess | process.py:59-60 | the request `["Process", statement, nexus]` goes at the end of the queue |
| Processes.ProcessList.RunStep | process.py:55-57 | an empty queue changes nothing; otherwise the oldest request is removed and its process appended under the request's name |

## Left out

- Threads and timing: `ProcessList.run`'s endless loop and sleep, `DataNexus`, `Shell` and the server. `RunStep` models one pass of `run`'s loop body.
- Starting operating system processes: `Process` is the type parameter `P`, and `RunStep` is given the function that creates one.
- Running the translated code: `execute.py`, `compile`/`exec`, and `_execute_background`.
- File, configuration and pickle I/O:
  - The variable directory is the abstract `records` map, and `os.walk`'s subdirectories are not distinguished.
  - `CommandReferenceDictionary` takes the `[Commands]` section as parameters, and its saved file is the field `file`.
- `help.main`, `get_doc_string` and `get_doc_string_list`: they import modules and read their doc strings. The doc strings are given as parameters.
- `get_command_list` and `CommandListOrderFree` take the registry's key order as a list of distinct keys, because a Python dictionary's iteration order is that insertion order.
- `round_down` and `divide_by_whitespace`: `round_down` works on floats. `divide_by_whitespace` is `divide_by_custom` with `" "`, which is modelled.
- `Message.get_string` of the base class returns `None`, and no base-class message is ever built, so `Message` is modelled only through its four subclasses.
- `ShellCom` and its subclasses: they forward messages across processes.
- Console, kivy and UI glue.
- Regular expressions in general: only the five patterns the core uses are modelled, each as an explicit leftmost matcher.
- Python strings are sequences of `char`.
  - `str.islower` of a line's first character is modelled for the characters up to U+00FF. Lower-case letters beyond that count as not lower-case.
  - `\s` is Python's set of whitespace characters, written out.
- Translate.TranslateEnvOneVar: the exact rewrite is stated for quote-free lines with one variable, and for the three shapes of `TranslateEnvDocLine`, `TranslateEnvPrefixVariable` and `TranslateEnvQuotedEnds`. Other lines with several variables or with quotes are covered only by the specification function `TranslateEnv`, which folds the quote-ignoring replace over the variables found, and by the method proved equal to it.
- Translate.Translated: the exact text of a `!` or plain call that contains quotes is not stated. It is the quote-ignoring replace of the call, as the function's body defines.
- Translate.TranslateCommandsOneCall: lines with several calls, or with quotes, are described only by `TranslateCommandsImports`, `TranslateCommandsUnregistered` and the specification function `TranslateCommands`.
