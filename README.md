# jastExtensions helpers, modelled in Dafny

This project models the self-contained helpers of the jastExtensions libraries
and proves what they promise. The libraries are C# extension methods on
`string`, `IEnumerable<T>`/`IDictionary<K, V>` and `DateTime`.

- **String helpers** (`StringExtensions.dfy`). `StripHtml`,
  `NullIfNullOrWhiteSpace`, `Truncate`, `BreakLines` (the greedy word-wrap
  loop), `ReplaceUmlauts` (with the `UmlautMapping` table),
  `AppendQueryParameter` (both overloads), `SplitCamelCase` and
  `ToCamelCase` (its word-appending loop).
- **Encryption envelope** (`StringEncryption.dfy`). The parts of `Encrypt`
  and `Decrypt` that the library writes itself:
  - the argument guards, with the key checked first;
  - the AES key, which is the first 24 bytes of the SHA-512 digest of the key;
  - the `IV ++ ciphertext` envelope, built and split with block copies
    between byte arrays.

  UTF-8, SHA-512, AES and base64 (section 4 of RFC 4648) are opaque
  functions. They are the fields of a `CryptoLibrary` value. The round trip
  is proved under the inverse laws those calls promise each other.
- **LINQ helpers** (`LinqExtensions.dfy`). Both `ForEach` overloads are loops
  over the source that call a callback object. The callback records every
  invocation, so its trace can be compared with the input. `NotNull` works
  on `seq<Option<T>>`; `ValueNotNull` on `map<K, Option<V>>`.
- **Date helpers** (`DateTimeExtensions.dfy`). `GetIso8601WeekOfYear` (the
  Monday-to-Wednesday shift), `GetIso8601Year`, `GetWeekWithYear`,
  `GetFirstDayOfWeek` (the stepping-back loop) and `FirstDayOfMonth`.
  - `Calendar.dfy` models `DateTime` as a valid proleptic Gregorian date
    plus a time of day. It gives the day number and day of week, and
    `AddDays` with its range exception.
  - `IsoWeekDate.dfy` defines the ISO 8601:2004 week date of section 4.1.4:
    weeks start on Monday, and each week belongs to the year of its Thursday.
    The helpers are proved against this definition.
  - The culture's `Calendar.GetWeekOfYear` and first day of the week are
    parameters.
- Shared pieces. `Wrappers.dfy` holds `Option` (a C# null) and
  `Result`/`Exception` (a thrown exception). `Text.dfy` holds the .NET
  string operations the helpers call on ASCII: trimming, case mapping,
  `LastIndexOf`, `Replace` and integer formatting.

## Model

| member | source | states |
|---|---|---|
| `StringExtensions.StripTags` | src/jastBytes.Extensions.String/StringExtensions.cs:85 | deleting each `<` through the next `>` leaves a subsequence of the input. No `>` follows a `<` in it, and an input without `<` is unchanged |
| `StringExtensions.StripHtml` | src/jastBytes.Extensions.String/StringExtensions.cs:83-86 | null or empty input gives `""`. Otherwise the result is a tag-free subsequence of the input, and input without `<` is returned as is |
| `StringExtensions.StripTagsNoTag` | src/jastBytes.Extensions.String/StringExtensions.cs:85 | a text in which no `>` follows a `<` is left unchanged |
| `StringExtensions.StripTagsKeepsText` | src/jastBytes.Extensions.String/StringExtensions.cs:85 | text before the first `<` is kept as it is, in front of whatever the rest gives |
| `StringExtensions.StripTagsDropsTag` | src/jastBytes.Extensions.String/StringExtensions.cs:85 | a `<`, the characters up to the first `>`, and that `>` are deleted, and the rest is stripped in turn |
| `StringExtensions.StripHtmlIdempotent` | src/jastBytes.Extensions.String/StringExtensions.cs:83-86 | stripping twice equals stripping once |
| `StringExtensions.NullIfNullOrWhiteSpace` | src/jastBytes.Extensions.String/StringExtensions.cs:93-97 | null exactly for null or all-white-space input. Otherwise the non-empty trimmed form of the input |
| `StringExtensions.TrimIsTrimOf` | src/jastBytes.Extensions.String/StringExtensions.cs:95 | `Trim` returns a contiguous part of the text that neither starts nor ends with white space, with only white space around it |
| `StringExtensions.TrimOfUnique` | src/jastBytes.Extensions.String/StringExtensions.cs:95 | a text has only one such trimmed form |
| `Text.TrimFacts` | src/jastBytes.Extensions.String/StringExtensions.cs:95 | where the trimmed text sits in the input, and that it is empty exactly when the input is all white space |
| `Text.Trim` | src/jastBytes.Extensions.String/StringExtensions.cs:95 | the trimmed text neither starts nor ends with white space, and it is empty exactly when the input is all white space |
| `StringExtensions.Trimmed` | src/jastBytes.Extensions.String/StringExtensions.cs:95 | `?.Trim()` is null exactly for null. Otherwise it is the part of the text after the leading white space that neither starts nor ends with white space, with only white space after it |
| `Text.TrimEnd` | src/jastBytes.Extensions.String/StringExtensions.cs:121 | the result is a prefix of the input, only white space is cut, and the result does not end in white space |
| `StringExtensions.Truncate` | src/jastBytes.Extensions.String/StringExtensions.cs:106-124 | the text is unchanged when `maxLength <= 0`, when the suffix length is at least `maxLength`, or when it is null or fits. Otherwise the result is the first `maxLength` minus the suffix length characters with trailing white space removed, then the suffix. It ends with the suffix and is at most `maxLength` long |
| `StringExtensions.BreakLines` | src/jastBytes.Extensions.String/StringExtensions.cs:133-160 | returns the trimmed text when the width (`maxLength` minus the new-line symbol length) is not positive, when the text is null or fits, or when the wrap gives up. Otherwise returns the greedy wrap joined by the new-line symbol |
| `StringExtensions.WrapLines` | src/jastBytes.Extensions.String/StringExtensions.cs:144-159 | the loop returns the greedy wrap, or gives up. `currentIndex` strictly increases, and the exit after the loop is unreachable |
| `StringExtensions.WrapFromWraps` | src/jastBytes.Extensions.String/StringExtensions.cs:146-157 | a successful wrap's lines joined by single spaces are the text. Every non-final line is shorter than the width, and the last is at most the width |
| `StringExtensions.WrapFromGivesUp` | src/jastBytes.Extensions.String/StringExtensions.cs:152-154 | the wrap gives up only at a full window that holds no space |
| `StringExtensions.WrapFromGivesUpAt` | src/jastBytes.Extensions.String/StringExtensions.cs:152-156 | a full window without a space at or after the start always makes the wrap give up |
| `StringExtensions.JoinedWrapOutcome` | src/jastBytes.Extensions.String/StringExtensions.cs:144-157 | the wrap gives up if and only if some full window has no space. Otherwise it is a wrapping of the text joined by the new-line symbol |
| `StringExtensions.JoinedWrapAdvance` | src/jastBytes.Extensions.String/StringExtensions.cs:155-156 | a loop turn that cuts a line keeps the final result unchanged |
| `Text.LastIndexOfIsLast` | src/jastBytes.Extensions.String/StringExtensions.cs:152 | `LastIndexOf` finds the character, and no later position holds it |
| `StringExtensions.Replacement` | src/jastBytes.Extensions.String/StringExtensions.cs:37-46 | a mapped character becomes two characters, anything else stays as it is, and nothing produced is mapped again |
| `StringExtensions.ReplaceUmlauts` | src/jastBytes.Extensions.String/StringExtensions.cs:379-382 | the `StringBuilder` fold computes the character-by-character transliteration |
| `StringExtensions.TransliterateLength` | src/jastBytes.Extensions.String/StringExtensions.cs:381 | the output length is the input length plus the number of mapped characters |
| `StringExtensions.TransliterateUnmappedIdentity` | src/jastBytes.Extensions.String/StringExtensions.cs:381 | text without mapped characters is copied unchanged |
| `StringExtensions.TransliterateIdempotent` | src/jastBytes.Extensions.String/StringExtensions.cs:379-382 | replacing twice equals replacing once |
| `StringExtensions.TransliterateAppend` | src/jastBytes.Extensions.String/StringExtensions.cs:381 | the replacement distributes over concatenation, so characters are handled one by one and in order |
| `StringExtensions.AppendQueryParameter` | src/jastBytes.Extensions.String/StringExtensions.cs:403-410 | the result is the input, then `&` if the input has a `?` and `?` otherwise, then the value. It always contains `?` |
| `StringExtensions.AppendQueryParameterPair` | src/jastBytes.Extensions.String/StringExtensions.cs:391-395 | the result is the input, the separator, then `key=value`, where a null key or value shows as nothing |
| `StringExtensions.SecondAppendUsesAmpersand` | src/jastBytes.Extensions.String/StringExtensions.cs:403-410 | every append after the first uses `&` |
| `StringExtensions.SplitCamelCase` | src/jastBytes.Extensions.String/StringExtensions.cs:418-421 | null or empty input is unchanged. Otherwise the result does not start with the delimiter. For a delimiter other than `$` it equals the input once delimiters are ignored, and for a delimiter that is not a capital every non-leading capital has the delimiter just before it. With `$` no capital is left |
| `StringExtensions.InsertBeforeCapitalsKeepsText` | src/jastBytes.Extensions.String/StringExtensions.cs:420 | for every delimiter but `$`, inserting the delimiter before capitals changes nothing but delimiters |
| `StringExtensions.CapitalReplacement` | src/jastBytes.Extensions.String/StringExtensions.cs:420 | the replacement `delimiter + "$1"` of one capital is the delimiter and the capital, except that with `$` it is the literal `$1` |
| `StringExtensions.InsertBeforeCapitalsAppend` | src/jastBytes.Extensions.String/StringExtensions.cs:420 | the regex replacement distributes over concatenation, so it works character by character |
| `StringExtensions.InsertBeforeCapitalsCounts` | src/jastBytes.Extensions.String/StringExtensions.cs:420 | each capital adds exactly one character and one delimiter, and nothing else is added |
| `StringExtensions.InsertDollarDropsCapitals` | src/jastBytes.Extensions.String/StringExtensions.cs:420 | with the delimiter `$` no capital is left after the replacement |
| `StringExtensions.InsertBeforeCapitalsMarks` | src/jastBytes.Extensions.String/StringExtensions.cs:420 | after the insertion, every capital has the delimiter just before it |
| `StringExtensions.TrimStartChar` | src/jastBytes.Extensions.String/StringExtensions.cs:420 | `TrimStart(c)` drops exactly the leading run of `c` |
| `StringExtensions.SplitCamelCaseCounts` | src/jastBytes.Extensions.String/StringExtensions.cs:418-421 | for input not starting with the delimiter, one delimiter is added per capital, except for a leading capital |
| `StringExtensions.SplitCamelCaseEventName` | src/jastBytes.Extensions.String/StringExtensions.cs:413-421 | `"EventName"` becomes `"Event.Name"` |
| `StringExtensions.SplitCamelCaseDollar` | src/jastBytes.Extensions.String/StringExtensions.cs:418-421 | with the delimiter `$`, `"EventName"` becomes `"1vent$1ame"` |
| `StringExtensions.Words` | src/jastBytes.Extensions.String/StringExtensions.cs:435-437 | the split gives non-empty words without separators |
| `StringExtensions.WordsCoverInput` | src/jastBytes.Extensions.String/StringExtensions.cs:435-437 | the words concatenated are the input without separators. There are none exactly when the input is all separators |
| `StringExtensions.WordsOfJoin` | src/jastBytes.Extensions.String/StringExtensions.cs:435-437 | splitting words joined by one separator gives the words back |
| `StringExtensions.ToCamelCase` | src/jastBytes.Extensions.String/StringExtensions.cs:428-449 | the loop computes the first word lowercased followed by every later word capitalised. Null or short input is returned as is, and all-separator input faults |
| `StringExtensions.CamelCaseFault` | src/jastBytes.Extensions.String/StringExtensions.cs:431-440 | an input of length at least 2 faults at `words[0]` if and only if it is made only of separators |
| `StringExtensions.CamelCaseResult` | src/jastBytes.Extensions.String/StringExtensions.cs:435-446 | a result holds no `' '`, `'-'` or `'_'` and, up to case, is the input without separators |
| `StringExtensions.CamelJoinOfWords` | src/jastBytes.Extensions.String/StringExtensions.cs:440-446 | joining separator-free words in camel case leaves no separator and keeps the letters up to case |
| `StringExtensions.CamelCaseOfJoin` | src/jastBytes.Extensions.String/StringExtensions.cs:428-449 | words joined by one separator come out as their camel-case join |
| `StringExtensions.CamelCaseHelloWorld` | src/jastBytes.Extensions.Tests/StringExtensionsShould.cs:21-29 | `"hello world"` becomes `"helloWorld"` |
| `StringExtensions.CamelCaseSecretString` | src/jastBytes.Extensions.Tests/StringExtensionsShould.cs:21-29 | `"secret-string-to-camel"` becomes `"secretStringToCamel"` |
| `StringEncryption.DeriveKey` | src/jastBytes.Extensions.String/StringExtensions.cs:464-467 | the key array holds the first 24 bytes of the SHA-512 digest of the key's UTF-8 bytes |
| `StringEncryption.CopyBytes` | src/jastBytes.Extensions.String/StringExtensions.cs:486-488 | a block copy overwrites exactly the target range with the source range |
| `StringEncryption.Encrypt` | src/jastBytes.Extensions.String/StringExtensions.cs:457-493 | checks the key, then the text, and returns the base64 of `IV ++ AES(key, IV, UTF-8(text))` |
| `StringEncryption.Decrypt` | src/jastBytes.Extensions.String/StringExtensions.cs:501-541 | checks the key, then the text. Then it decodes base64, splits the first 16 bytes off as the IV, decrypts the rest and decodes it as UTF-8, reporting each failure |
| `StringEncryption.SplitEnvelopeOfEnvelope` | src/jastBytes.Extensions.String/StringExtensions.cs:521-525 | splitting an envelope gives back the IV and the ciphertext |
| `StringEncryption.EnvelopeOfSplitEnvelope` | src/jastBytes.Extensions.String/StringExtensions.cs:521-525 | an envelope that splits is the concatenation of its two parts |
| `StringEncryption.ShortEnvelopeFaults` | src/jastBytes.Extensions.String/StringExtensions.cs:522 | the split faults, with an overflow, exactly for fewer than 16 bytes |
| `StringEncryption.KeyCheckedFirst` | src/jastBytes.Extensions.String/StringExtensions.cs:459-462 | a missing key is reported before a missing text, by both methods |
| `StringEncryption.TextCheckedSecond` | src/jastBytes.Extensions.String/StringExtensions.cs:503-506 | with a key given, a missing text is the only argument fault |
| `StringEncryption.DecryptShortEnvelope` | src/jastBytes.Extensions.String/StringExtensions.cs:508-522 | valid base64 decoding to fewer than 16 bytes makes `Decrypt` throw |
| `StringEncryption.DecryptOfEncrypt` | src/jastBytes.Extensions.String/StringExtensions.cs:457-541 | `Decrypt(Encrypt(text, key), key)` returns the text for any IV, given the inverse laws of the library calls |
| `StringEncryption.HelloWorldRoundTrip` | src/jastBytes.Extensions.Tests/StringExtensionsShould.cs:8-19 | `"Hello World!"` under `"secret-string-to-encrypt"` comes back unchanged |
| `LinqExtensions.Selector.Invoke` | src/jastBytes.Extensions.Linq/LinqExtensions.cs:42 | an invocation returns the function's value and records its argument |
| `LinqExtensions.Action.Invoke` | src/jastBytes.Extensions.Linq/LinqExtensions.cs:61 | an invocation records its argument |
| `LinqExtensions.ForEachSelect` | src/jastBytes.Extensions.Linq/LinqExtensions.cs:35-44 | a null source is reported before a null selector. Otherwise the selector is invoked once per element in order, and the results are dropped |
| `LinqExtensions.ForEach` | src/jastBytes.Extensions.Linq/LinqExtensions.cs:53-65 | a null source is reported before a null action. Otherwise the action sees every element once, in order. The elements are returned in the same order, and an array source is returned as the same array |
| `LinqExtensions.ForEachSkipTake` | src/jastBytes.Extensions.Tests/LinqExtensionsShould.cs:10-23 | the action runs twice, and the returned elements equal those it saw |
| `LinqExtensions.NotNull` | src/jastBytes.Extensions.Linq/LinqExtensions.cs:73-76 | every kept value comes from a non-null element, and every non-null element is kept |
| `LinqExtensions.NotNullAppend` | src/jastBytes.Extensions.Linq/LinqExtensions.cs:75 | the filter distributes over concatenation, so relative order is preserved |
| `LinqExtensions.NotNullOne` | src/jastBytes.Extensions.Linq/LinqExtensions.cs:75 | a single element is kept exactly when it is not null |
| `LinqExtensions.NotNullOfValues` | src/jastBytes.Extensions.Linq/LinqExtensions.cs:75 | a sequence without nulls comes back unchanged |
| `LinqExtensions.ValueNotNull` | src/jastBytes.Extensions.Linq/LinqExtensions.cs:85-88 | the keys are exactly the input keys with a non-null value, each mapped to its original value |
| `LinqExtensions.ValueNotNullOfNullable` | src/jastBytes.Extensions.Linq/LinqExtensions.cs:87 | a dictionary without nulls comes back unchanged |
| `LinqExtensions.NullableOfValueNotNull` | src/jastBytes.Extensions.Linq/LinqExtensions.cs:87 | filtering and widening back gives the input exactly when it had no null value |
| `Calendar.Date` | src/jastBytes.Extensions.DateTime/DateTimeExtensions.cs:95 | `.Date` keeps the day and sets the time to midnight |
| `Calendar.DayOfWeek` | src/jastBytes.Extensions.DateTime/DateTimeExtensions.cs:55 | the day of the week is 0 (Sunday) to 6 (Saturday) |
| `Calendar.NextDayOfWeek` | src/jastBytes.Extensions.DateTime/DateTimeExtensions.cs:55 | the day of the week moves on by one each day, wrapping from Saturday to Sunday |
| `Calendar.NewYearDayOfWeek` | src/jastBytes.Extensions.DateTime/DateTimeExtensions.cs:55 | the weekday of 1 January follows from the closed form of the days before the year |
| `Calendar.NewYear2018IsMonday` | src/jastBytes.Extensions.DateTime/DateTimeExtensions.cs:55 | 1 January 2018 is a Monday |
| `Calendar.AddDays` | src/jastBytes.Extensions.DateTime/DateTimeExtensions.cs:58 | `AddDays` throws only `ArgumentOutOfRangeException` |
| `Calendar.AddDaysDayNumber` | src/jastBytes.Extensions.DateTime/DateTimeExtensions.cs:97 | `AddDays(n)` succeeds exactly when the target day is in range, and then moves the day number by `n` and keeps the time |
| `Calendar.AddDaysAdd` | src/jastBytes.Extensions.DateTime/DateTimeExtensions.cs:97 | adding `a` and then `b` days equals adding `a + b` days |
| `IsoWeekDate.ThursdayOfLaterDay` | src/jastBytes.Extensions.DateTime/DateTimeExtensions.cs:52-59 | Monday to Wednesday have the same ISO week and week-year as the day three days later |
| `IsoWeekDate.WeekBounds` | src/jastBytes.Extensions.DateTime/DateTimeExtensions.cs:62 | ISO week numbers run from 1 to 53 |
| `IsoWeekDate.ThursdayNearby` | src/jastBytes.Extensions.DateTime/DateTimeExtensions.cs:74-84 | a day's ISO week-year differs from its year only in early January (one year back) or late December (one year on) |
| `DateTimeExtensions.GetIso8601WeekOfYear` | src/jastBytes.Extensions.DateTime/DateTimeExtensions.cs:50-63 | the only possible fault is the range exception of the three-day shift |
| `DateTimeExtensions.WeekOfYearLooksUpLateDay` | src/jastBytes.Extensions.DateTime/DateTimeExtensions.cs:52-62 | the week is always looked up on a Thursday-to-Sunday day of the same ISO week |
| `DateTimeExtensions.WeekOfYearIsIsoWeek` | src/jastBytes.Extensions.DateTime/DateTimeExtensions.cs:50-63 | when the week function is right from Thursday on, the result is the ISO 8601 week number of every day |
| `DateTimeExtensions.WeekOfYearThrows` | src/jastBytes.Extensions.DateTime/DateTimeExtensions.cs:56-58 | the shift throws exactly on 9999-12-29 |
| `DateTimeExtensions.GetIso8601Year` | src/jastBytes.Extensions.DateTime/DateTimeExtensions.cs:70-85 | succeeds exactly when the week lookup does, and the result is within one of the date's year |
| `DateTimeExtensions.Iso8601YearIsWeekYear` | src/jastBytes.Extensions.DateTime/DateTimeExtensions.cs:70-85 | when the week function is right from Thursday on, the result is the ISO 8601 week-numbering year |
| `DateTimeExtensions.GetWeekWithYear` | src/jastBytes.Extensions.DateTime/DateTimeExtensions.cs:40-43 | succeeds exactly when the week lookup does. The result is the format with each `yyyy` replaced by the ISO year and each `cc` by the two-digit week, in one scan from the left |
| `DateTimeExtensions.ReplaceTwiceIsWeekFormat` | src/jastBytes.Extensions.DateTime/DateTimeExtensions.cs:42 | replacing `yyyy` and then `cc` equals the one-scan fill-in whenever the year text is not empty and has no `c` |
| `DateTimeExtensions.NoWeekPatternInYear` | src/jastBytes.Extensions.DateTime/DateTimeExtensions.cs:42 | a year printed by `ToString()` is not empty and contains no `c` |
| `DateTimeExtensions.WeekOfYearBounds` | src/jastBytes.Extensions.DateTime/DateTimeExtensions.cs:62 | if the week function gives 1 to 53, so does the helper |
| `DateTimeExtensions.WeekWithYearLeavesNoWeekPattern` | src/jastBytes.Extensions.DateTime/DateTimeExtensions.cs:42 | no `cc` is left in the result |
| `DateTimeExtensions.WeekWithYearWithoutPatterns` | src/jastBytes.Extensions.DateTime/DateTimeExtensions.cs:42 | a format without `yyyy` or `cc` comes back unchanged |
| `DateTimeExtensions.WeekWithYearIsoFormat` | src/jastBytes.Extensions.DateTime/DateTimeExtensions.cs:40-43 | `"yyyy-Wcc"` gives the ISO year, `-W`, and the two-digit week |
| `Text.ReplaceRemovesDoubled` | src/jastBytes.Extensions.DateTime/DateTimeExtensions.cs:42 | replacing `cc` by text without `c` leaves no `cc` |
| `Text.IntToString00` | src/jastBytes.Extensions.DateTime/DateTimeExtensions.cs:42 | `ToString("00")` gives at least two digits that read back as the number. It has exactly two for 0 to 99, with 0 to 9 zero-padded, and no padding from 10 on. A negative number gets a minus sign before the formatted absolute value |
| `Text.IntToString` | src/jastBytes.Extensions.DateTime/DateTimeExtensions.cs:42 | `ToString()` is the decimal digits, with a minus sign for negative numbers |
| `Text.Replace` | src/jastBytes.Extensions.DateTime/DateTimeExtensions.cs:42 | a text in which the old value does not occur is returned unchanged |
| `Text.ParseNatToString` | src/jastBytes.Extensions.DateTime/DateTimeExtensions.cs:42 | the decimal digits of a number read back as that number |
| `DateTimeExtensions.GetFirstDayOfWeek` | src/jastBytes.Extensions.DateTime/DateTimeExtensions.cs:91-99 | the result is a midnight on the given weekday, not after the input's day and at most 6 days earlier. It throws only when that day would fall before 0001-01-01 |
| `DateTimeExtensions.DaysBackReached` | src/jastBytes.Extensions.DateTime/DateTimeExtensions.cs:96-97 | stepping back, the first weekday is met exactly after `DaysBack` (at most 6) steps |
| `DateTimeExtensions.FirstDayOfMonth` | src/jastBytes.Extensions.DateTime/DateTimeExtensions.cs:106-109 | the same year and month, day 1, midnight |
| `DateTimeExtensions.FirstDayOfMonthIsEarliest` | src/jastBytes.Extensions.DateTime/DateTimeExtensions.cs:106-109 | the first of the month lies `day - 1` days before the date, no later than any day of that month, and is shared by all of them |

## Left out

- The regex validators `IsValidUrl`, `IsMatch`, `IsPhoneNumber` and `IsEmail`
  are not modelled. Their meaning is that of the .NET regular-expression
  engine.
- The parsers and wrappers `ToDouble`, `ToInt`, `ToNullableInt`, `ToBool`,
  `ToNullableBool`, the `IsParsable*` family, `ToEnum`, `AsEnum` and `Format`
  are not modelled. They are culture-dependent library parsers, floating
  point, or reflection over enums.
- `LastDayOfMonth` is not modelled. It reads the wall clock (`DateTime.Now`)
  and ignores its argument.
- The directory helpers (`CleanFiles`, `Clean`, `Copy`, `MoveFiles`) are
  filesystem I/O and are not part of this model. The same holds for the
  error-capturing wrappers in `ErrorHandling.cs`, which only catch exceptions
  around arbitrary and async delegates.
- The cryptography is left out: UTF-8 coding, SHA-512, AES-CBC with PKCS#7
  padding, the random IV of `Aes.Create()` and base64. They are opaque
  functions or parameters. Their inverse laws are a hypothesis
  (`InverseLaws`), not a proof. So a wrong key failing to decrypt, and two
  encryptions differing, are not stated.
- `StringEncryption.Encrypt`: the `aes == null` branch of both methods is
  not modelled. Whether `Aes.Create()` returns an instance is up to the
  library.
- `StringExtensions.ToCamelCase`: `ToLower()` and `ToUpper()` use the
  current culture. The model maps only the ASCII letters, where all cultures
  agree except Turkish and Azeri (`i` becomes `İ` there). A run under those
  cultures is not modelled.
- `StringExtensions.Truncate`: lengths count Unicode scalar values, but C#
  counts UTF-16 code units. For text with characters outside the Basic
  Multilingual Plane, such as emoji, the cut position differs, and C# may cut
  a surrogate pair in half.
- `StringExtensions.BreakLines`: lengths and positions count Unicode scalar
  values, not UTF-16 code units, so the same difference applies to text with
  surrogate pairs.
- `StringExtensions.SplitCamelCase`: with `'$'` as the delimiter the
  replacement pattern is `"$$1"`, whose `$$` is a literal dollar sign, so
  every capital is replaced by the two characters `$1` and is lost. For that
  delimiter the contract does not promise that the text is kept apart from
  delimiters. It states instead that no capital is left, and
  `SplitCamelCaseDollar` gives an example.
- Text is handled on ASCII only. `Trim`, `TrimEnd`, `IsNullOrWhiteSpace`,
  `ToLower` and `ToUpper` give the ASCII white space and letters their .NET
  meaning. Every other character counts as a letter without case and is not
  white space.
- Null where the source dereferences without a test is not modelled. This
  covers `suffix`, `newLineSymbol`, the input of `ReplaceUmlauts` and
  `AppendQueryParameter`, and the format of `GetWeekWithYear`: they are plain
  strings, and the `NullReferenceException` or `ArgumentNullException` is not
  modelled.
- `DateTimeExtensions.GetIso8601WeekOfYear`: `Calendar.GetWeekOfYear` and
  the culture's first day of the week are parameters. The match with ISO
  8601 is proved only for a week function that is right on Thursday to
  Sunday, which is what the source's own comment assumes.
- `LinqExtensions.ForEach`: the callbacks only record their argument. A
  callback that throws, or that changes the source array while it runs, is
  not modelled. The lazy `IEnumerable` that `NotNull` returns is modelled as
  the sequence it yields.
- `LinqExtensions.ValueNotNull`: the input is a value, so "the input
  dictionary is not modified" holds by construction and is not stated. A
  null key is not modelled, because `ToDictionary` would throw for it.
