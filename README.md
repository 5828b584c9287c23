# RaDev.ElviraFramework helpers: a Dafny model

This project models the three parts of RaDev.ElviraFramework that contain their own logic, and proves properties of each.

- **String helpers** (`Extensions/StringExtensions.cs`).
  - `CaseFormat` splits a phrase on `' '`, `'-'` and `'.'` and rebuilds it in PascalCase or lowerCamelCase.
  - `ReplaceNotLetterOrDigit` replaces every character that is not a letter or digit.
- **HTML text helpers** (`Extensions/HtmlExtensions.cs`).
  - `ForLength` truncates a string, in both its `string` and `HtmlString` overloads.
  - `NoTags` deletes `<[^>]*>`.
  - `NoScript` deletes `<script\b[^>]*>(.*?)</script>`.
- **The logging front end** (`Log/Logger.cs`).
  - The minimum-priority filter.
  - The default priority for exceptions and for other objects.
  - The log-name computation.
  - The name-to-logger registry `Tbl`, which gets or adds a logger.

Modules:

- `Wrappers`: `Option` and `Result`.
- `Chars`: ASCII character classes and case maps.
- `Enums`: `StringCase` and `LogWritePriority`, the latter with the enumeration's integer values.
- `StringExtensions` and `HtmlExtensions`: one module per source file.
- `Log`: one module for `Log/Logger.cs` and `Log/FileLogger.cs`, with `FileLogger` as a class inside it.

How each part is modelled:

- **`CaseFormat`** is a method with the source's loop. The segment's character array whose first element is overwritten becomes a Dafny `array`.
  - The method is proved against `Formatted`, the split-and-rebuild specification.
  - It is also proved against `Scan`, an independent one-pass description. That description drops separators and changes the case of the character that opens each word.
- **`Regex.Replace`** becomes `RemoveMatches`, a left-to-right scanner. At each position it deletes the match anchored there, if one exists, and keeps the character otherwise. `MatchAt` gives the length of the match that .NET's backtracking engine finds for each pattern:
  - `[^>]*>` always ends at the first `'>'`.
  - `\b` after `<script` requires a non-word character.
  - The lazy body `(.*?)` takes the shortest run without a newline that is followed by `</script>`.
  - Matching is case-sensitive.
- **The logger's static fields** become the fields of one `Logger` object.
  - Settings are plain fields that callers assign.
  - `Tbl` is a `map<string, FileLogger>`.
  - Each `FileLogger` records the lines appended to it, which stands for the file write.
  - The caller's type name from the stack trace and the date from the clock are parameters.

Points where the model follows the code rather than the documentation or intent:

- The documentation comments in `Enums/StringCase.cs:8-14` describe the two styles the other way round. The model follows `CaseFormat`: `CamelCase` yields lowerCamelCase, and `PascalCase` capitalises every word.
- In `GetLogger`, `name ?? type + "_" + date` groups as `name ?? (type + "_" + date)`. An explicit name therefore gets no date suffix.
- `Write(object)` calls `Write(object, priority)`. The stack frame `GetLogger` inspects, `GetFrame(2)`, is then `Write(object)` itself, so the log chosen through the one-argument overload is named after `Logger`, not after the caller. `Logger.WriteObject` passes `LoggerTypeName` for this reason.
- `null.ToString()` throws only when the priority lets the record through. `Write` reports that case as `NullReference`.
- Called from code the compiler moves into a nested type, `GetFrame(2)` yields a compiler-made type such as `<>c`, `<>c__DisplayClass1_0` or `<Run>d__3`. Such code is a lambda that captures local variables, a non-capturing lambda under C# 6 or later, an iterator or an async method. A lambda that captures only `this` runs as a method of the enclosing class, so its log name is accepted. For a compiler-made type, `Path.Combine` refuses the resulting log name, so `Write` throws `ArgumentException` and registers nothing. `Write` reports that case as `InvalidPath` (`CompilerGeneratedCallerScenario`).
- A negative length makes `Substring` throw. `ForLength` returns `Failure(ArgumentOutOfRange)` exactly when the length is negative.
- One pass of `NoScript` can leave a complete script element behind (`NoScriptCanLeaveScript`), so `NoScript` is not idempotent. `NoTags` is idempotent (`NoTagsIdempotent`).

## Model

| member | source | states |
|---|---|---|
| `StringExtensions.Split` | RaDev.ElviraFramework/Extensions/StringExtensions.cs:23 | `Split(' ', '-', '.')` yields one more segment than there are separators |
| `StringExtensions.SplitSegments` | RaDev.ElviraFramework/Extensions/StringExtensions.cs:23 | no segment contains a separator, and the segments concatenated are the phrase with its separators deleted |
| `StringExtensions.SplitRoundTrip` | RaDev.ElviraFramework/Extensions/StringExtensions.cs:23 | interleaving the segments with the phrase's separators, in order, rebuilds the phrase |
| `StringExtensions.SplitOfInterleave` | RaDev.ElviraFramework/Extensions/StringExtensions.cs:23 | splitting separator-free segments joined by separators returns exactly those segments, so split is inverse to interleaving |
| `StringExtensions.CaseFormat` | RaDev.ElviraFramework/Extensions/StringExtensions.cs:21-46 | the method's result is the split-and-rebuild specification `Formatted`, and equals the one-pass scan from the style's start state |
| `StringExtensions.AppendCapitalized` | RaDev.ElviraFramework/Extensions/StringExtensions.cs:37-44 | the `foreach` loop appends every segment, capitalised, in order, after what the builder already holds |
| `StringExtensions.CapitalizeChars` | RaDev.ElviraFramework/Extensions/StringExtensions.cs:39-43 | overwriting element 0 of the segment's character array with its upper case gives the segment with only its first character upper-cased; an empty segment stays empty |
| `StringExtensions.CapitalizeAllBlankedFirst` | RaDev.ElviraFramework/Extensions/StringExtensions.cs:29-30 | after camel case blanks `splittedPhrase[0]`, the loop emits only the later segments, so the first segment appears once, lower-cased, at the front |
| `StringExtensions.FormattedIsScan` | RaDev.ElviraFramework/Extensions/StringExtensions.cs:23-45 | split-and-rebuild equals the one-pass scan: separators dropped, camel case lowers the first word, and every later word start is upper-cased |
| `StringExtensions.ScanShape` | RaDev.ElviraFramework/Extensions/StringExtensions.cs:23-45 | the scan's output is the input's length less its separators, has no separator, and matches the separator-free input up to letter case |
| `StringExtensions.FormattedShape` | RaDev.ElviraFramework/Extensions/StringExtensions.cs:23-45 | `CaseFormat`'s output has no separator, is `|phrase|` minus the number of separators long, and is the phrase without separators up to case |
| `StringExtensions.CamelIsPascalWithFirstSegmentLowered` | RaDev.ElviraFramework/Extensions/StringExtensions.cs:28-44 | camel-case output is the lower-cased first segment followed by the Pascal-case output after that segment |
| `StringExtensions.LeadingSeparator` | RaDev.ElviraFramework/Extensions/StringExtensions.cs:23-44 | a leading separator leaves an empty first segment, so either style then gives the Pascal-case output of the rest, which is empty or starts with a character its upper case leaves unchanged |
| `StringExtensions.RepeatedSeparator` | RaDev.ElviraFramework/Extensions/StringExtensions.cs:39-43 | the empty segment between two consecutive separators contributes nothing |
| `StringExtensions.TrailingSeparator` | RaDev.ElviraFramework/Extensions/StringExtensions.cs:39-43 | the empty segment after a trailing separator contributes nothing |
| `StringExtensions.PascalIdempotent` | RaDev.ElviraFramework/Extensions/StringExtensions.cs:32-44 | formatting a Pascal-case output in Pascal case again changes nothing |
| `StringExtensions.AggregateReplace` | RaDev.ElviraFramework/Extensions/StringExtensions.cs:56-57 | the `Aggregate` fold keeps the accumulated text as a prefix and appends one mapped character per visited character |
| `StringExtensions.ReplaceNotLetterOrDigit` | RaDev.ElviraFramework/Extensions/StringExtensions.cs:54-58 | same length as the input; letters and digits are kept in place, and every other position holds the replacement symbol |
| `StringExtensions.ReplaceIdempotent` | RaDev.ElviraFramework/Extensions/StringExtensions.cs:56-57 | replacing twice with the same symbol equals replacing once |
| `StringExtensions.ReplaceUnchangedIff` | RaDev.ElviraFramework/Extensions/StringExtensions.cs:56-57 | a phrase is returned unchanged if and only if each character is a letter, a digit or the symbol |
| `HtmlExtensions.ForLength` | RaDev.ElviraFramework/Extensions/HtmlExtensions.cs:46-50 | fails (Substring throws) exactly when the length is negative; otherwise returns the prefix of length min(\|str\|, length) |
| `HtmlExtensions.ForLengthHtml` | RaDev.ElviraFramework/Extensions/HtmlExtensions.cs:58-63 | the `HtmlString` overload fails exactly when the string overload fails on `str.ToString()`, and otherwise wraps the same text |
| `HtmlExtensions.ForLengthIdentity` | RaDev.ElviraFramework/Extensions/HtmlExtensions.cs:48-49 | a length at least the string's returns the whole string |
| `HtmlExtensions.ForLengthIdempotent` | RaDev.ElviraFramework/Extensions/HtmlExtensions.cs:48-49 | truncating a truncated string to the same length changes nothing |
| `HtmlExtensions.CloseFromFound` | RaDev.ElviraFramework/Extensions/HtmlExtensions.cs:96 | a position the lazy `(.*?)</script>` search returns ends a `</script>`, no earlier `</script>` starts after the search start, and no newline comes before it |
| `HtmlExtensions.CloseFromIff` | RaDev.ElviraFramework/Extensions/HtmlExtensions.cs:96 | the lazy search from `k` stops after the `</script>` at `e` if and only if that is the first `</script>` from `k` and no newline comes before it |
| `HtmlExtensions.MatchAt` | RaDev.ElviraFramework/Extensions/HtmlExtensions.cs:76-96 | a match of either pattern is non-empty, fits in the text and starts with `'<'` |
| `HtmlExtensions.RemoveMatches` | RaDev.ElviraFramework/Extensions/HtmlExtensions.cs:76-96 | `Regex.Replace(_, p, "")` never lengthens its input |
| `HtmlExtensions.RemoveMatchesSubsequence` | RaDev.ElviraFramework/Extensions/HtmlExtensions.cs:76-96 | `Regex.Replace(_, p, "")` only deletes: its output is a subsequence of the input and never longer |
| `HtmlExtensions.RemoveMatchesPlainPrefix` | RaDev.ElviraFramework/Extensions/HtmlExtensions.cs:76-96 | text without `'<'` in front of the rest passes through unchanged |
| `HtmlExtensions.RemoveMatchesPlain` | RaDev.ElviraFramework/Extensions/HtmlExtensions.cs:76-96 | a string with no `'<'` is unchanged by either remover |
| `HtmlExtensions.RemoveMatchesNoMatch` | RaDev.ElviraFramework/Extensions/HtmlExtensions.cs:76-96 | if the pattern matches at no position, the string is unchanged |
| `HtmlExtensions.NoTags` | RaDev.ElviraFramework/Extensions/HtmlExtensions.cs:74-77 | the output keeps no `'<'` that a later `'>'` closes, and is never longer than the input |
| `HtmlExtensions.NoTagsHtml` | RaDev.ElviraFramework/Extensions/HtmlExtensions.cs:84-87 | the `HtmlString` overload's text keeps no closable tag and is a subsequence of the input's text |
| `HtmlExtensions.NoTagsWithoutClose` | RaDev.ElviraFramework/Extensions/HtmlExtensions.cs:76 | without any `'>'`, `NoTags` changes nothing |
| `HtmlExtensions.NoTagsLeavesNoTag` | RaDev.ElviraFramework/Extensions/HtmlExtensions.cs:76 | `NoTags`'s output has no `'<'` followed anywhere later by `'>'` |
| `HtmlExtensions.NoTagsKeepsTagFree` | RaDev.ElviraFramework/Extensions/HtmlExtensions.cs:76 | a string with no `'<'` followed later by `'>'` is returned unchanged |
| `HtmlExtensions.NoTagsFixedIff` | RaDev.ElviraFramework/Extensions/HtmlExtensions.cs:76 | `NoTags(s) == s` if and only if `s` is tag-free |
| `HtmlExtensions.NoTagsIdempotent` | RaDev.ElviraFramework/Extensions/HtmlExtensions.cs:74-77 | applying `NoTags` twice equals applying it once |
| `HtmlExtensions.NoTagsLeftmostSpan` | RaDev.ElviraFramework/Extensions/HtmlExtensions.cs:76 | the leftmost tag is deleted from its `'<'` through the first `'>'` after it, even when the span holds further `'<'` |
| `HtmlExtensions.NoTagsUnclosedSuffix` | RaDev.ElviraFramework/Extensions/HtmlExtensions.cs:76 | a tail without `'>'` is kept whole, including any `'<'` in it |
| `HtmlExtensions.NoTagsParagraph` | RaDev.ElviraTests/AllTest.cs:49 | `NoTags("<p>" + t + "</p>") == t` for every `t` without `'<'` |
| `HtmlExtensions.NoScript` | RaDev.ElviraFramework/Extensions/HtmlExtensions.cs:94-97 | the output is never longer than the input |
| `HtmlExtensions.NoScriptHtml` | RaDev.ElviraFramework/Extensions/HtmlExtensions.cs:104-107 | the `HtmlString` overload's result is a subsequence of the input's text |
| `HtmlExtensions.NoScriptWithoutOpen` | RaDev.ElviraFramework/Extensions/HtmlExtensions.cs:96 | a string with no occurrence of `<script` is unchanged |
| `HtmlExtensions.ScriptMatchOfElement` | RaDev.ElviraFramework/Extensions/HtmlExtensions.cs:96 | at a script element the match covers exactly: `<script`, attributes that open with a non-word character and hold no `'>'`, `'>'`, a newline-free body holding no `</script>`, and `</script>` |
| `HtmlExtensions.ScriptMatchIsElement` | RaDev.ElviraFramework/Extensions/HtmlExtensions.cs:96 | conversely, every match of the script pattern is `<script`, attributes that open with a non-word character and hold no `'>'`, `'>'`, a newline-free body holding no `</script>`, and `</script>`: nothing else is deleted |
| `HtmlExtensions.NoScriptElement` | RaDev.ElviraFramework/Extensions/HtmlExtensions.cs:96 | such a script element, after text without `'<'`, is removed whole and the scan continues after it |
| `HtmlExtensions.NoScriptCaseSensitive` | RaDev.ElviraFramework/Extensions/HtmlExtensions.cs:96 | an upper-case `<SCRIPT>` element around any text without `'<'` is not removed |
| `HtmlExtensions.NoScriptCanLeaveScript` | RaDev.ElviraFramework/Extensions/HtmlExtensions.cs:96 | removing an inner element can splice a new script element together, which a second pass removes: `NoScript` is not idempotent |
| `HtmlExtensions.NoScriptOfInjected` | RaDev.ElviraTests/AllTest.cs:43-47 | joining `'<'`-free words with the injected script and removing scripts gives the words joined by single spaces |
| `HtmlExtensions.HtmlExtensionTest` | RaDev.ElviraTests/AllTest.cs:43-49 | the test's word list is `Split` of its sentence, and its three assertions hold: `NoScript` restores the sentence, `ForLength(9)` has length 9, and `NoTags` strips the paragraph |
| `Log.FileLogger.constructor` | RaDev.ElviraFramework/Log/FileLogger.cs:30-33 | a new logger has the given path and nothing written |
| `Log.FileLogger.Write` | RaDev.ElviraFramework/Log/FileLogger.cs:41-50 | appending adds exactly one line at the end |
| `Log.CombinePath` | RaDev.ElviraFramework/Log/Logger.cs:64 | the combined path starts with the directory and ends with the file name |
| `Log.PathTextConcat` | RaDev.ElviraFramework/Log/Logger.cs:64 | a concatenation passes the path check exactly when both parts do |
| `Log.DatedNameAccepted` | RaDev.ElviraFramework/Log/Logger.cs:57-64 | `Path.Combine` accepts a dated log name exactly when the directory, the caller's type name and the date hold none of `"`, `<`, `>`, a vertical bar or a control character |
| `Log.CompilerGeneratedCallerRefused` | RaDev.ElviraFramework/Log/Logger.cs:56-64 | a compiler-made caller type such as `<>c` gives a dated log name that `Path.Combine` refuses |
| `Log.LogName` | RaDev.ElviraFramework/Log/Logger.cs:57-59 | `""` in one-file mode; otherwise the explicit name as given; otherwise caller type, `"_"` and the date |
| `Log.Admits` | RaDev.ElviraFramework/Log/Logger.cs:81 | `High` passes every minimum, every priority passes `Insignificant`, a priority passes its own level, and only `High` passes a minimum of `High` |
| `Log.AdmitsLowerMinimum` | RaDev.ElviraFramework/Log/Logger.cs:81 | lowering the minimum never drops a record a higher minimum kept |
| `Log.ChosenPriority` | RaDev.ElviraFramework/Log/Logger.cs:93 | exceptions get `PriorityForExceptions`; every other object, null included, gets `DefaultPriority` |
| `Log.Logger.constructor` | RaDev.ElviraFramework/Log/Logger.cs:19-44 | the registry starts empty, with minimum `Medium`, separate files, `High` for exceptions and `Insignificant` by default |
| `Log.Logger.GetLogger` | RaDev.ElviraFramework/Log/Logger.cs:54-68 | for a registered name, returns the stored logger and leaves the table unchanged; otherwise, if `Path.Combine` accepts `FileDir` and `name + ".log"`, adds a fresh, empty logger at the combined path and returns it, and if not, throws and leaves the table unchanged |
| `Log.Logger.Write` | RaDev.ElviraFramework/Log/Logger.cs:79-85 | below the minimum priority nothing changes; a null object throws; a log name `Path.Combine` refuses throws, with nothing registered or written; otherwise exactly one line, the object's text, is appended to the caller's log, and every other log is untouched |
| `Log.Logger.WriteObject` | RaDev.ElviraFramework/Log/Logger.cs:91-94 | `Write(object)` filters at `PriorityForExceptions` for exceptions and at `DefaultPriority` otherwise, and writes to the log named after `Logger`, with the same exceptions as `Write` |
| `Log.DefaultSettingsFilter` | RaDev.ElviraFramework/Log/Logger.cs:29-44 | under the initial settings, `Write(object)` logs an object if and only if it is an exception |
| `Log.ExplicitNameIgnoresCallerAndDate` | RaDev.ElviraFramework/Log/Logger.cs:57-59 | an explicit name selects the same log whatever the caller and the date; in one-file mode every call selects the same log |
| `Log.DatedNamesDistinct` | RaDev.ElviraFramework/Log/Logger.cs:57-59 | without an explicit name, different dates select different logs for the same caller type |
| `Log.DefaultSettingsScenario` | RaDev.ElviraFramework/Log/Logger.cs:79-94 | on a fresh registry, in a directory and on a date the path check accepts, an ordinary object is dropped and an exception becomes the single line of the `Logger` log |
| `Log.CompilerGeneratedCallerScenario` | RaDev.ElviraFramework/Log/Logger.cs:56-84 | a `High` record written from a non-capturing lambda, caller type `<>c`, passes the filter, but `Path.Combine` throws and no logger is registered |
| `Log.SameNameSameLogger` | RaDev.ElviraFramework/Log/Logger.cs:61-67 | two lookups with the same name return the same result, and the registry holds one entry if `Path.Combine` accepts the name and none otherwise |

## Left out

- `RazorTemplater.cs`: parsing, code generation, compilation and instantiation are done by System.Web.Razor, CodeDom and reflection, none of which is part of this repository.
- `Compress` and `Decompress`: their behaviour is that of the GZip and Base64 library calls.
- `SecureString` and `NoSecure`: each wraps a string in an MVC type and has no logic of its own.
- `Network.cs`, `Algo.cs` (MD5), `SafetyExecuter.cs` and `ObjectAndTypeExtensions.cs`: these are OS calls, a cryptographic library call, exception swallowing around arbitrary delegates, and reflection over the runtime type system.
- `FileLogger`: the file I/O under its lock, and the timestamp and invoker prefixes it adds to each line. The model keeps only the line that `Logger` hands over.
- Concurrency: the static dictionary `Tbl` is not synchronised in the source. The model is single-threaded.
- The stack trace and the clock: the caller's type name and the formatted date are parameters. JIT inlining, which could change the inspected frame, is not modelled.
- `Chars`: culture-dependent `ToUpper`/`ToLower` and Unicode `Char.IsLetterOrDigit` are replaced by their ASCII subsets. Non-ASCII letters are neither case-mapped nor counted as letters.
- `MatchAt`: the regular-expression word class `\w` is taken as ASCII letters, digits and `'_'`. In .NET a non-ASCII word character after `<script` would block the match, but in this model it does not. Such characters include non-ASCII letters, Unicode decimal digits, marks and connector punctuation, and, for `\b` only, U+200C and U+200D.
- `CombinePath`: `Path.Combine` is modelled for relative file names only. A name that is itself a rooted path is not modelled. Its refusal of `"`, `<`, `>`, `|` and control characters, the .NET Framework check, is modelled separately by `CombineAccepts`. Other path failures, such as an over-long path or a `:` in the file name, are not modelled.
- `LogWritePriority`: only the four named values are modelled. A C# enum variable can hold any integer.
- `StringCase`: only the two named values are modelled. Any other value skips both `switch` cases (`StringExtensions.cs:26-35`) and so behaves as `PascalCase`.
- Null strings: every helper throws on a null string, and these failures are not modelled. `CaseFormat` and the `string` overload of `ForLength` throw `NullReferenceException` (`StringExtensions.cs:23`, `HtmlExtensions.cs:48`). `ReplaceNotLetterOrDigit` and the `string` overloads of `NoTags` and `NoScript` throw `ArgumentNullException` from `Aggregate` and `Regex.Replace` (`StringExtensions.cs:56`, `HtmlExtensions.cs:76`, `HtmlExtensions.cs:96`). A null `HtmlString` makes the three `HtmlString` overloads throw `NullReferenceException` at `str.ToString()` (`HtmlExtensions.cs:60`, `HtmlExtensions.cs:86`, `HtmlExtensions.cs:106`). The model's strings are never null. Only `Logger.Write` models a null object, because there it is reachable.
- `ForLength`: lengths and positions count Unicode scalar values, not the UTF-16 code units of a .NET string. On text outside the Basic Multilingual Plane, truncating can split a surrogate pair in .NET but never in the model.
- `ForLengthHtml`: counts Unicode scalar values, not UTF-16 code units, as `ForLength` does, so results differ on text outside the Basic Multilingual Plane.
- `AggregateReplace`: the fold visits Unicode scalar values, where .NET's `Aggregate` visits UTF-16 code units. A character outside the Basic Multilingual Plane is one step here and two surrogate steps in .NET.
- `ReplaceNotLetterOrDigit`: the length and the per-position results are in Unicode scalar values, not UTF-16 code units. .NET replaces each surrogate half with the symbol, so a character outside the Basic Multilingual Plane becomes two symbols there and one here.
- `Log.Logger.Write`: `ToString` of an arbitrary object is given as the object's text. Exceptions thrown by a user's `ToString`, other than the null case, are not modelled.
