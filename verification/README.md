# litevnaserver in Dafny

litevnaserver is a small C++ server. It drives a LiteVNA vector network
analyser over a serial port and answers HTTP requests of the form
`GET /litevna?start=…&step=…&points=…` with the sweep as JSON. This project
is a Dafny model of the server's core, together with proofs about that model:

- `lite_vna.dfy` (module `LiteVna`): the device protocol.
  - The command bytes and the packed 32-byte FIFO frame.
  - The rolling 8-bit frame checksum.
  - The `scan` command sequence, with index-addressed placement of frames and its short-circuit errors.
  - The `initialize` handshake.
  - The serial port is an oracle. Write results and read chunks come in as a script, and the bytes written go out as a log.
- `socket_tcp.dfy` (module `SocketTcp`): the reactor's connection table and write queues, as a state machine.
  - The operations are `write`, the EPOLLOUT drain with scripted send results, `close`, read-ready with an available-byte count, and `terminate`.
  - A log records every callback the reactor fires.
- `http_server.dfy` (module `HttpServer`): request routing in `onRead`, and `execute`.
  - `execute` validates the parameters in order and builds the JSON body. `scan` is an oracle here.
- `string_utils.dfy`, `string_escape.dfy`, `base64url.dfy`, `string_shadow.dfy`: the string library. It covers:
  - `atou`, `utoa`, `toHex`, `format`, `trim`, `split`, `replaceAll`, `startsWith`, `endsWith` and `isIdentifier`;
  - `escape` and `escapeJSON`;
  - base64url (section 5 of RFC 4648);
  - the `StringShadow` view.
- `date_time.dfy` (module `DateTimes`): the calendar.
  - `isValid`, `daysFromCivil`/`civilFromDays`, timestamps, `set`, the `add*` family, `parse` and `toString`.
- `config.dfy` (module `Config`): the command-line parser `parseArgs`.
- `logger.dfy` (module `Logger`): the category bitmask, the descriptions, and the queue discipline of `_print`/`flush`.
- `file_utils.dfy` (module `FileUtils`): `getFileName` and `normalize` (the Linux branch).
- `results.dfy` (module `Results`): the `Result` error type.
- `ints.dfy` (module `Ints`): fixed-width integer helpers used throughout.

Modelling conventions:

- A C++ `char` is a Dafny `char`, and the text the model is about is made of chars below 256.
  - `trim`, `escape` and `escapeJSON` read a char's byte as its value modulo 256 (`Ints.Code`).
  - `trim` reads that byte as a signed `char`.
  - Every other test compares the char itself: digits, alphanumerics, white space, and the delimiters of `split` and `parse`.
- Bytes on the wire are `bv8`.
- Unsigned wrap-around is written out as `% 2^k`.
- A `Result` is an error exactly when its code is non-empty, as `operator bool` says.

## Model

| member | source | states |
|---|---|---|
| `Results.Ok` | src/lib/Result.h:13-14 | `ok()` has an empty code and the description "ok", and so is not an error |
| `Results.Error` | src/lib/Result.h:18-22 | the error constructor keeps the code and formats the description with the arguments; a non-empty code is an error (line 32-34) |
| `Results.ErrorPlain` | src/lib/Result.h:18-22 | a description with no `{}` hole is stored verbatim whatever the arguments |
| `Results.ErrorWithOne` | src/lib/Result.h:18-22 | a description with one hole gets the argument spliced in at the hole |
| `Results.ToLog` | src/lib/Result.h:24-26 | `toLog` shows the code in back-quotes, then ", description: " and the description |
| `Results.ToMessage` | src/lib/Result.h:28-30 | `toMessage` is `toLog` with a newline before "description" |
| `Ints.LeRoundTrip` | src/LiteVNA.h:351-369 | the little-endian bytes a value is stored as read back to the value modulo 256^count |
| `StringUtils.AtouFrom` | src/lib/StringUtils.h:48-56 | the digit loop fails exactly on a non-digit and otherwise yields the decimal value modulo the type's range |
| `StringUtils.Atou` | src/lib/StringUtils.h:38-61 | `atou` reports an error exactly for size 0, size over 20 or a non-digit (value 0); otherwise the value is the decimal value modulo 2^width |
| `StringUtils.AtouDec` | src/lib/StringUtils.h:38-61 | reading back the decimal text of any n below 2^64 gives n with no error |
| `StringUtils.NumDigitsBounds` | src/lib/StringUtils.h:213-234 | the digit count `utoa` computes is minimal: n < b^k and, for k > 1, b^(k-1) <= n |
| `StringUtils.LowDigitsValue` | src/lib/StringUtils.h:213-234 | k digits written from the back spell n modulo b^k, each digit from the first b of the digit table |
| `StringUtils.UtoaValue` | src/lib/StringUtils.h:616-644 | with size 0 `utoa` writes exactly the digits of the magnitude with no leading zero; with a size, that many low-order digits; base is clamped to 16 |
| `StringUtils.Dec` | src/lib/StringUtils.h:161-175 | an unsigned value inserted by `format` is written with exactly as many decimal digits as it needs, none of them a sign or a blank (its value is `AtouDec`) |
| `StringUtils.ToHex` | src/lib/StringUtils.h:646-654 | `toHex` answers "*ERROR* size to large" above size 50; otherwise upper-case hex digits of the requested width, or the exact value for size 0 |
| `StringUtils.FormatHole` | src/lib/StringUtils.h:161-175 | the first `{}` of a template is replaced by the first argument and the rest is formatted with the remaining arguments, the inserted text not rescanned |
| `StringUtils.FormatNoHole` | src/lib/StringUtils.h:127-129 | a template without `{}` is returned unchanged whatever arguments remain, so surplus arguments are dropped |
| `StringUtils.Trim` | src/lib/StringUtils.h:583-614 | `trim` returns a contiguous piece of the input that neither starts nor ends with a blank, with only blanks around it; it is empty exactly for all-blank input |
| `StringUtils.TrimKeeps` | src/lib/StringUtils.h:583-614 | text that starts and ends with a non-blank is returned unchanged |
| `StringUtils.TrimIdempotent` | src/lib/StringUtils.h:583-614 | trimming twice is trimming once |
| `StringUtils.PiecesSplit` | src/lib/StringUtils.h:384-400 | the raw pieces contain no delimiter, join back to the input, and number one more than the delimiters |
| `StringUtils.SplitsAtUnique` | src/lib/StringUtils.h:384-400 | any delimiter-free pieces that join back to the input are exactly the raw pieces |
| `StringUtils.Split` | src/lib/StringUtils.h:384-400 | `split` without trim gives the pieces that join back to the input; with trim, empty input gives no pieces and otherwise each raw piece trimmed |
| `StringUtils.SplitLoop` | src/lib/StringUtils.h:384-400 | the find-and-cut loop of `split` computes `Split` |
| `StringUtils.StartsWith` | src/lib/StringUtils.h:409-414 | `startsWith` holds exactly when the text is the prefix followed by something |
| `StringUtils.EndsWith` | src/lib/StringUtils.h:120-125 | `endsWith` holds exactly when the text is something followed by the ending |
| `StringUtils.ReplaceChar` | src/lib/StringUtils.h:327-339 | replacing one character by one character keeps the length and maps each position independently |
| `StringUtils.MatchParts` | src/lib/StringUtils.h:327-339 | every text splits into parts at the leftmost non-overlapping occurrences of a non-empty pattern, with no occurrence starting inside a part, before the occurrence that ends it |
| `StringUtils.ReplaceBySplit` | src/lib/StringUtils.h:327-339 | replacing all occurrences is joining those parts with the replacement |
| `StringUtils.ReplaceAllJoins` | src/lib/StringUtils.h:327-339 | `replaceAll` equals the split-and-join for a non-empty pattern and returns the text for an empty one |
| `StringUtils.ReplaceAbsent` | src/lib/StringUtils.h:327-339 | text with no occurrence of the pattern is unchanged |
| `StringUtils.ReplaceSame` | src/lib/StringUtils.h:327-339 | replacing a pattern by itself changes nothing |
| `StringUtils.ReplaceCanJoinOccurrence` | src/lib/StringUtils.h:327-339 | a replacement can create a new occurrence: "aabb" with "ab" removed is "ab" |
| `StringUtils.IdentifierFrom` | src/lib/StringUtils.h:144-155 | the scan loop accepts exactly when every remaining character is alphanumeric, `.`, `_` or `-` |
| `StringUtils.IsIdentifier` | src/lib/StringUtils.h:144-159 | `isIdentifier` holds exactly when every character is alphanumeric, `.`, `_` or `-` |
| `StringEscape.Hex2` | src/lib/StringUtils.h:246-248 | a byte is written as two upper-case hex digits whose value is the byte |
| `StringEscape.EscapeJsonChar` | src/lib/StringUtils.h:262-272 | a special byte becomes `\u00` and its two hex digits, any other byte is copied, and the output is printable and free of specials |
| `StringEscape.EscapeJson` | src/lib/StringUtils.h:258-275 | `escapeJSON` output is printable ASCII without quotes, braces or brackets, five characters longer per special byte |
| `StringEscape.EscapeJsonAppend` | src/lib/StringUtils.h:258-275 | escaping distributes over concatenation |
| `StringEscape.EscapeJsonRoundTrip` | src/lib/StringUtils.h:258-275 | for byte text without a backslash, reading the `\u00XX` escapes back restores the input |
| `StringEscape.EscapeJsonNotInjective` | src/lib/StringUtils.h:258-275 | a backslash is not escaped, so the six characters `\u0022` and a single quote mark escape alike |
| `StringEscape.EscapeJsonPlain` | src/lib/StringUtils.h:258-275 | text without special bytes is unchanged |
| `StringEscape.EscapeChar` | src/lib/StringUtils.h:240-253 | a newline becomes `\n`, another byte outside 32..126 becomes `\x` and two hex digits, a printable byte is copied |
| `StringEscape.Escape` | src/lib/StringUtils.h:236-256 | `escape` output is printable, one longer per newline and three longer per other non-printable byte |
| `StringEscape.EscapeRoundTrip` | src/lib/StringUtils.h:236-256 | for byte text without a backslash, reading the escapes back restores the input |
| `StringEscape.EscapeNotInjective` | src/lib/StringUtils.h:236-256 | a newline and the two characters `\n` escape alike |
| `StringEscape.EscapeCharPrintable` | src/lib/StringUtils.h:251-253 | a printable character is copied as it is |
| `Base64Url.B64Char` | src/lib/StringUtils.h:439 | every sextet maps into the URL-safe alphabet |
| `Base64Url.TableInverse` | src/lib/StringUtils.h:484-501 | the decoding table maps each alphabet character back to its sextet |
| `Base64Url.PadBits` | src/lib/StringUtils.h:445-446 | the bit trick for the padding gives 0, 2, 1 for lengths 0, 1, 2 modulo 3, which completes the length to a multiple of 3 |
| `Base64Url.Encode` | src/lib/StringUtils.h:438-479 | the encoding is 4/3 of the padded length and made only of alphabet characters and `=` |
| `Base64Url.EncodeAppend` | src/lib/StringUtils.h:457-465 | encoding a whole number of 3-byte groups followed by more is the two encodings concatenated |
| `Base64Url.EncodeLoop` | src/lib/StringUtils.h:457-477 | the group loop followed by the padded tail computes `Encode` |
| `Base64Url.EncodeLoopGuard` | src/lib/StringUtils.h:457 | for inputs of 3 bytes or more the `size_t` guard `byteNo <= len - 3` means a full group remains |
| `Base64Url.EncodeShortInputOverreads` | src/lib/StringUtils.h:457 | for inputs shorter than 3 bytes the guard wraps and admits a group at byte 0 that reads past the input |
| `Base64Url.Decode` | src/lib/StringUtils.h:483-530 | decoding m characters yields floor(3m/4) bytes |
| `Base64Url.GroupInverse` | src/lib/StringUtils.h:512-518 | decoding one encoded group gives its three bytes back |
| `Base64Url.DecodeEncode` | src/lib/StringUtils.h:438-530 | decoding an encoding gives the input followed by one zero byte per `=`, since `=` decodes as 0 and is not stripped |
| `Base64Url.DecodeEncodeWhole` | src/lib/StringUtils.h:438-530 | for a length that is a multiple of 3 the encoding is 4/3 as long and decodes back to the input exactly |
| `StringShadows.Text` | src/lib/StringShadow.h:93-95 | `toString` has `size` characters, those of the window |
| `StringShadows.Empty` | src/lib/StringShadow.h:18 | the default view is empty |
| `StringShadows.Clear` | src/lib/StringShadow.h:80-83 | `clear` leaves an empty view |
| `StringShadows.Find` | src/lib/StringShadow.h:28-38 | `find(c, pos)` is npos when pos > size; otherwise the least index from pos holding c, or npos when none does |
| `StringShadows.FindAgrees` | src/lib/StringShadow.h:28-38 | `find` through `memchr` agrees with searching the window's text |
| `StringShadows.Suffix` | src/lib/StringShadow.h:66-71 | `substr(pos)` is empty when pos > size and otherwise the suffix of the window from pos |
| `StringShadows.Substr` | src/lib/StringShadow.h:73-78 | `substr(pos, len)` is empty when pos + len, taken without the 64-bit wrap, exceeds size; there is no clamping; otherwise it is exactly characters pos..pos+len-1 |
| `StringShadows.EqualsCStrFrom` | src/lib/StringShadow.h:40-53 | the comparison loop, at any position with an equal prefix behind it, answers whether the texts agree up to their first NUL |
| `StringShadows.EqualsCStr` | src/lib/StringShadow.h:40-53 | `equals(const char*)` holds exactly when the window and the C string agree up to their first NUL |
| `StringShadows.StrNCmpZero` | src/lib/StringShadow.h:59-64 | `strncmp(a, b, n) == 0` exactly when the first n characters agree up to the first NUL |
| `StringShadows.EqualsSized` | src/lib/StringShadow.h:55-64 | sized equality is false on a length mismatch and, for NUL-free text, true exactly when the characters match |
| `StringShadows.EqualsSizedStopsAtNul` | src/lib/StringShadow.h:59-64 | sized equality stops at a NUL: "a\0b" equals "a\0c" |
| `StringShadows.EqualsShadow` | src/lib/StringShadow.h:105-107 | `==` between views of NUL-free text is text equality |
| `StringShadows.NotEqualsShadow` | src/lib/StringShadow.h:117-119 | `!=` between views of NUL-free text is text inequality |
| `StringShadows.NotEqualsCStr` | src/lib/StringShadow.h:109-111 | `!=` against a NUL-free C string is text inequality |
| `StringShadows.EqualsAgree` | src/lib/StringShadow.h:40-64 | for NUL-free text the C-string and sized comparisons agree |
| `FileUtils.Normalize` | src/lib/FileUtils.h:223-229 | `normalize` keeps the length, turns each backslash into `/`, leaves other characters, and leaves no backslash |
| `FileUtils.NormalizeIdempotent` | src/lib/FileUtils.h:223-229 | normalising twice is normalising once |
| `FileUtils.GetFileName` | src/lib/FileUtils.h:174-177 | the name has no separator, is a suffix of the normalised path, and is preceded by `/` unless it is the whole path |
| `FileUtils.FileNameAfterSeparator` | src/lib/FileUtils.h:174-177 | a directory, either separator, then a separator-free name gives that name |
| `DateTimes.Clear` | src/lib/DateTime.h:27-36 | `clear` zeroes every field, which is not a valid date |
| `DateTimes.IsValid` | src/lib/DateTime.h:38-75 | valid exactly for years 1600..2500, months 1..12, a day within the Gregorian month length (February 29 only in leap years), and a time of day below 24:00 with microseconds below 10^6 |
| `DateTimes.CivilFromDays` | src/lib/DateTime.h:276-290 | `civilFromDays` yields a month in 1..12, a day in 1..31 and a year that fits 16 bits |
| `DateTimes.CivilRoundTrip` | src/lib/DateTime.h:276-299 | `civilFromDays(daysFromCivil(y, m, d))` is (y, m, d) for every valid date |
| `DateTimes.Timestamp` | src/lib/DateTime.h:269-273 | `getTimestamp` is below 2^64 and, for dates from 1970 on, the seconds since the epoch times 10^6 plus the microseconds |
| `DateTimes.PreEpochWraps` | src/lib/DateTime.h:269-273 | a valid date before 1970 wraps: 1969-12-31 23:59:59 gets timestamp 2^64 - 10^6 |
| `DateTimes.Decompose` | src/lib/DateTime.h:254-267 | `set(uint64)` keeps the timestamp and reads hour, minute, second and microsecond off it, all in range, so that they and the day number recompose it |
| `DateTimes.DecomposeTimestamp` | src/lib/DateTime.h:254-273 | for valid dates from 1970 on, decomposing the timestamp gives the fields back |
| `DateTimes.Set` | src/lib/DateTime.h:93-110 | `set` fails exactly when the truncated fields are invalid, and then changes nothing; otherwise it stores the truncated fields with their timestamp |
| `DateTimes.SetStores` | src/lib/DateTime.h:93-110 | valid fields are stored as given, with the timestamp of the fields |
| `DateTimes.SetDecomposes` | src/lib/DateTime.h:93-110 | after a successful `set` from 1970 on, decomposing the stored timestamp gives the stored value |
| `DateTimes.AddUnits` | src/lib/DateTime.h:77-91 | adding k units moves the timestamp by k units modulo 2^64 and recomputes every field from it |
| `DateTimes.AddSeconds` | src/lib/DateTime.h:77-79 | `addSeconds(k)` moves the timestamp by k·10^6 modulo 2^64 |
| `DateTimes.AddMinutes` | src/lib/DateTime.h:81-83 | `addMinutes(k)` moves the timestamp by k·60·10^6 modulo 2^64 |
| `DateTimes.AddHours` | src/lib/DateTime.h:85-87 | `addHours(k)` moves the timestamp by k·3600·10^6 modulo 2^64 |
| `DateTimes.AddDays` | src/lib/DateTime.h:89-91 | `addDays(k)` moves the timestamp by k·86400·10^6 modulo 2^64 |
| `DateTimes.AddUndo` | src/lib/DateTime.h:77-91 | adding k units and then -k units restores the timestamp, and the whole value when it was decomposed |
| `DateTimes.Digits` | src/lib/DateTime.h:180-206 | each field is written as exactly `width` decimal digits spelling it modulo 10^width |
| `DateTimes.ToString` | src/lib/DateTime.h:174-209 | `toString` is 26 characters, with `/ / : : .` and the space at fixed places and a digit everywhere else |
| `DateTimes.RenderFields` | src/lib/DateTime.h:180-206 | each field's digits sit at its fixed slice of the text |
| `DateTimes.Parse` | src/lib/DateTime.h:121-172 | `parse` fails and changes nothing when the text is not 26 characters or a separator is out of place; on success the value is consistent |
| `DateTimes.ParseFields` | src/lib/DateTime.h:121-172 | on success each field is the decimal value of its slice, a non-digit field reading as 0; with 26 characters and the separators in place it succeeds exactly when those fields form a valid date |
| `DateTimes.FieldRead` | src/lib/DateTime.h:128-164 | `atou` of a field narrower than its type's range reads the field's decimal value, or 0 on a non-digit |
| `DateTimes.ParseToString` | src/lib/DateTime.h:121-209 | for a consistent value from 1970 on, parsing `toString(0)` restores it |
| `DateTimes.ParseRender` | src/lib/DateTime.h:121-209 | parsing the fixed-width text of consistent fields restores them |
| `DateTimes.FieldsBack` | src/lib/DateTime.h:128-206 | each printed field reads back with `atou` to the field |
| `Config.InitialSettings` | src/Config.h:12-15 | the settings start with version 1.0.0, tcp port 0 and empty com port and logger file |
| `Config.Atoi` | src/Config.h:57 | `atoi` yields a value in the 32-bit `int` range |
| `Config.AtoiDec` | src/Config.h:57 | `atoi` reads back the decimal text of any n below 2^31 |
| `Config.AtoiNoDigits` | src/Config.h:57-61 | text that does not start, after spaces, with a digit or sign reads as 0, so it is an invalid tcp port |
| `Config.AtoiWraps` | src/Config.h:57 | a decimal value 2^32 + n is truncated to n by the conversion to `int` |
| `Config.OptionPieces` | src/Config.h:40-46 | the option name is the text before the first `=`; a value exists exactly when there is an `=`, and it runs to the next `=` |
| `Config.NameValue` | src/Config.h:40-46 | `name=value` without further `=` splits into the name and the value |
| `Config.NameOnly` | src/Config.h:40-45 | an option without `=` splits into itself alone, so it has no value |
| `Config.RequiresValue` | src/Config.h:43-45 | a value option without a value is an `argument_error` |
| `Config.InvalidComPort` | src/Config.h:48-50 | an empty com port gives `argument_error` "Invalid com port `…`" |
| `Config.InvalidTcpPort` | src/Config.h:59-61 | a tcp port reading as 0 gives `argument_error` "Invalid tcp port `…`" with the text given |
| `Config.InvalidCategory` | src/Config.h:90-92 | an unknown category gives `argument_error` "Category `…` is invalid" |
| `Config.InvalidOption` | src/Config.h:108-110 | an unknown option gives `argument_error` "Option `…` is invalid" |
| `Config.VersionResult` | src/Config.h:102-104 | `--version` answers `version_requested` with the program name, version and licence |
| `Config.HelpResult` | src/Config.h:122-205 | `--help` answers `help_requested`, which counts as an error so the program stops; the text starts with the usage head and is exactly as long as head, default com port and tail together |
| `Config.CategoryOf` | src/Config.h:71-92 | each of the six known names maps to a non-empty mask, any other name to none |
| `Config.ParseCategories` | src/Config.h:67-93 | a category list is accepted exactly when every name is known; the first unknown name is reported; the mask is exactly the union of the named masks |
| `Config.CategoriesNameFirstUnknown` | src/Config.h:71-92 | "info,verbose" is rejected naming "verbose" |
| `Config.ApplyOption` | src/Config.h:40-110 | one argument never changes the version, touches the logger only by replacing its mask, and stops only with a known result code |
| `Config.RunArgs` | src/Config.h:39-112 | the argument loop keeps the version and stops only with an error-coded result |
| `Config.RunAppend` | src/Config.h:39-112 | arguments are taken left to right: running a + b is running a and then, unless it stopped, b |
| `Config.RunCons` | src/Config.h:39-111 | the loop applies the first argument and then, unless it stopped, the rest |
| `Config.ParseArgs` | src/Config.h:34-120 | `parseArgs` clears the com port and tcp port, then runs the option loop; the fields and the log are those the loop leaves; a loop stopped by an option returns that option's result, and `--help` returns the usage text; a completed loop reports a missing com port first, then a missing tcp port, and otherwise `ok()`; success always means a non-empty com port and a nonzero tcp port |
| `Config.ComPortReportedFirst` | src/Config.h:113-115 | with only a valid `-tcp-port`, the result is the missing `-com-port` error |
| `Config.TcpPortReported` | src/Config.h:116-118 | with only a `-com-port`, the result is the missing `-tcp-port` error |
| `Config.PortsReset` | src/Config.h:35-37 | the com port and tcp port held before the call do not affect the outcome |
| `Config.TypicalCommandLine` | src/Config.h:34-120 | `-com-port=P -tcp-port=N` succeeds with exactly those settings |
| `Config.TypicalRun` | src/Config.h:39-112 | the loop over `-com-port=P -tcp-port=N` sets exactly those two settings |
| `Config.ComPortOption` | src/Config.h:42-51 | `-com-port=P` stores P and fails exactly when P is empty |
| `Config.TcpPortOption` | src/Config.h:52-62 | `-tcp-port=T` stores `atoi(T)` and fails exactly when that is 0 |
| `Config.TcpPortDec` | src/Config.h:52-62 | `-tcp-port=` with the decimal text of a positive int stores that number |
| `Config.CategoriesOption` | src/Config.h:63-95 | `-logger-categories=L` fails with the category error or replaces the logger mask by the parsed mask, settings unchanged |
| `Config.CategoriesReplace` | src/Config.h:63-95 | one known name replaces, not extends, the logger mask |
| `Config.CategoriesSingle` | src/Config.h:71-94 | a single known name parses to its mask |
| `Config.LastComPortWins` | src/Config.h:42-51 | a later `-com-port` overrides earlier ones |
| `Config.VersionStops` | src/Config.h:102-104 | `--version` stops the loop at once, whatever follows |
| `Config.VersionParse` | src/Config.h:102-104 | `parseArgs` answers `--version` with the version result whatever follows |
| `Config.HelpStops` | src/Config.h:105-107 | `--help` stops the loop at once, whatever follows |
| `Config.HelpParse` | src/Config.h:105-107 | `parseArgs` answers `--help` with the usage text whatever follows |
| `Config.NoArguments` | src/Config.h:113-115 | with no arguments the missing com port is reported, before the tcp port |
| `Logger.Initial` | src/lib/Logger.h:267-268 | by default error and info are enabled and debug is not; debug is described as "debug"; nothing is queued or delivered |
| `Logger.SetCategories` | src/lib/Logger.h:54-56 | `setCategories` replaces the mask and nothing else |
| `Logger.ClearAllCategories` | src/lib/Logger.h:74-76 | after `clearAllCategories` no category is enabled |
| `Logger.SetCategory` | src/lib/Logger.h:58-64 | `setCategory` ORs the bits in, keeps the others, and logs only when asked |
| `Logger.ResetCategory` | src/lib/Logger.h:66-72 | `resetCategory` clears exactly the given bits, and logs only when asked |
| `Logger.SetThenReset` | src/lib/Logger.h:58-72 | setting then resetting a category leaves the mask without its bits |
| `Logger.ResetKeepsOthers` | src/lib/Logger.h:66-72 | resetting a category does not affect a disjoint one |
| `Logger.HasBit` | src/lib/Logger.h:106-108 | `hasCategory` of a single bit holds exactly when that bit is set |
| `Logger.GetDescription` | src/lib/Logger.h:82-89 | `getDescription` is the registered text, or "" for an unregistered category |
| `Logger.AddDescription` | src/lib/Logger.h:50-52 | `addDescription` registers only an unregistered category and touches no other |
| `Logger.FirstDescriptionWins` | src/lib/Logger.h:50-52 | with `emplace` the first description registered stays |
| `Logger.Listed` | src/lib/Logger.h:91-104 | the listed descriptions are exactly the non-empty descriptions of set bits 0..62 |
| `Logger.DescribeCategories` | src/lib/Logger.h:91-104 | `describeCategories` joins those descriptions with commas in ascending bit order |
| `Logger.DescribeInitial` | src/lib/Logger.h:91-104 | with the default mask the description is "error,info" |
| `Logger.FullMessage` | src/lib/Logger.h:187 | a line is the stamp, the category description in brackets, the message and a newline |
| `Logger.SourceMessage` | src/lib/Logger.h:115-118 | with the source shown, the file name, the line in parentheses and the message |
| `Logger.Emit` | src/lib/Logger.h:186-213 | printing never changes the mask or descriptions, keeps the queue within its limit plus one, and delivers nothing directly in queued mode |
| `Logger.Log` | src/lib/Logger.h:16-19 | a message of a disabled category changes nothing |
| `Logger.Flush` | src/lib/Logger.h:238-248 | `flush` empties the queue and delivers it from the back, that is in print order |
| `Logger.EmitAllDirect` | src/lib/Logger.h:189-204 | without a commit delay every message is delivered at once, in print order |
| `Logger.EmitAllQueued` | src/lib/Logger.h:205-213 | with a commit delay the messages are queued, oldest at the back, and nothing is delivered |
| `Logger.EmitWhenFull` | src/lib/Logger.h:207-211 | a message is dropped when the queue already holds more than 100000 |
| `SocketTcp.Remaining` | src/lib/SocketTCP.h:695-700 | the remaining size is len - pos when pos < len and 0 otherwise |
| `SocketTcp.WriteDone` | src/lib/SocketTCP.h:702-704 | `writeDone(k)` advances pos by k and nothing else, so at most the remaining size drops by k |
| `SocketTcp.Accept` | src/lib/SocketTCP.h:505-514 | an accepted connection enters the table with its tag and an empty queue |
| `SocketTcp.Write` | src/lib/SocketTCP.h:634-653 | to an unknown id: completion with `invalid_socket_id`, `socket_error` returned, table unchanged; to a known id: buffer appended at the back with write interest, others untouched |
| `SocketTcp.FailAll` | src/lib/SocketTCP.h:123-130 | closing fails every queued buffer with "socket is closed", in queue order |
| `SocketTcp.Close` | src/lib/SocketTCP.h:114-137 | `close` of a known id fails its buffers in order, removes it and reports the close once with its tag; of an unknown id, changes nothing |
| `SocketTcp.CloseIdempotent` | src/lib/SocketTCP.h:114-137 | closing twice is closing once |
| `SocketTcp.Pop` | src/lib/SocketTCP.h:544-549 | a finished front buffer fires its success callback and leaves the queue |
| `SocketTcp.Advance` | src/lib/SocketTCP.h:531-543 | a partial send only advances the front buffer, with no callback |
| `SocketTcp.DrainLoop` | src/lib/SocketTCP.h:525-550 | n rounds of the drain either close the connection, leaving the other connections as they were, or change only its queue, dropping at most n buffers from the front |
| `SocketTcp.DrainLoopLogged` | src/lib/SocketTCP.h:525-550 | the drain uses a prefix of the send results; it closes exactly when a send failed; the buffers it popped were fully sent; the log grows by their successes in order, plus, when closed, the failures of the rest and the close |
| `SocketTcp.DrainLoopAccounts` | src/lib/SocketTCP.h:525-550 | the drain loses and duplicates no buffer: completed plus pending is unchanged for every connection |
| `SocketTcp.Drain` | src/lib/SocketTCP.h:516-558 | an unknown id is an error with nothing changed; other connections are untouched; an emptied queue drops write interest |
| `SocketTcp.DrainLogs` | src/lib/SocketTCP.h:516-558 | after the drain, a connection survives exactly when no used send failed; a surviving one logged successes for exactly the buffers that left its queue, whose bytes were all sent; a closed one logged successes, then failures, then the close |
| `SocketTcp.DrainAccounts` | src/lib/SocketTCP.h:516-558 | completed plus pending is unchanged by a drain |
| `SocketTcp.DrainInterest` | src/lib/SocketTCP.h:552-558 | a connection with queued buffers keeps write interest across a drain |
| `SocketTcp.ReadReady` | src/lib/SocketTCP.h:600-622 | zero available bytes closes the connection; otherwise the read callback is reported with the count; an unknown id is an error |
| `SocketTcp.Terminate` | src/lib/SocketTCP.h:90-96 | `terminate` empties the table, and every buffer ever accounted for has then completed exactly once, in order |
| `SocketTcp.WriteAccounts` | src/lib/SocketTCP.h:634-653 | a write adds its buffer once to its connection's account, completed or pending |
| `SocketTcp.CloseAccounts` | src/lib/SocketTCP.h:114-137 | a close moves buffers from pending to completed, losing none |
| `SocketTcp.ReadAccounts` | src/lib/SocketTCP.h:600-622 | a read-ready event loses no buffer |
| `SocketTcp.StepAccounts` | src/lib/SocketTCP.h:445-653 | each event adds only the buffer it writes to the account |
| `SocketTcp.RunAccounts` | src/lib/SocketTCP.h:445-653 | over any run of events each connection's account is what it started with plus its writes, in order |
| `SocketTcp.StepInterest` | src/lib/SocketTCP.h:445-653 | every event keeps write interest on each connection with queued buffers |
| `SocketTcp.RunThenTerminate` | src/lib/SocketTCP.h:90-137 | after any run and `terminate`, each written buffer's completion fired exactly once, in write order |
| `LiteVna.ClearFifoCmd` | src/LiteVNA.h:248-252 | clear-FIFO is eight zero bytes |
| `LiteVna.Write2Cmd` | src/LiteVNA.h:351-359 | `sendCmdWrite2` sends the opcode, the register and the 16-bit value in little-endian order |
| `LiteVna.Write8Cmd` | src/LiteVNA.h:361-369 | `sendCmdWrite8` sends the opcode, the register and the 64-bit value in little-endian order |
| `LiteVna.Int32RoundTrip` | src/LiteVNA.h:45-50 | an `int32` stored as four little-endian bytes reads back |
| `LiteVna.Int32BytesOf` | src/LiteVNA.h:45-50 | any four bytes are the storage of the `int32` they read as |
| `LiteVna.Int32sRoundTrip` | src/LiteVNA.h:45-50 | consecutive `int32` values read back from their bytes |
| `LiteVna.ParseFrame` | src/LiteVNA.h:43-55 | a 32-byte frame reads six `int32` from bytes 0..23 into a well-formed record |
| `LiteVna.ParseSerialize` | src/LiteVNA.h:43-55 | the packed layout round-trips from record to bytes |
| `LiteVna.SerializeParse` | src/LiteVNA.h:43-55 | the packed layout round-trips from bytes to record |
| `LiteVna.FrameSlices` | src/LiteVNA.h:43-55 | the measurements occupy bytes 0..23, the index 24..25, the reserved bytes 26..30 and the checksum byte 31 |
| `LiteVna.MixBijective` | src/LiteVNA.h:186-188 | the checksum step c to c ^ ((c << 1) \| 1) is a bijection on bytes |
| `LiteVna.ComputeChecksum` | src/LiteVNA.h:182-188 | the loop folds bytes 0..30 into seed 0x46 |
| `LiteVna.ChecksumAppend` | src/LiteVNA.h:186-188 | folding a + b is folding a and then b |
| `LiteVna.ChecksumSeedInjective` | src/LiteVNA.h:186-188 | different running checksums stay different over the same bytes |
| `LiteVna.ChecksumChanges` | src/LiteVNA.h:186-188 | changing any one of bytes 0..30 changes the computed checksum |
| `LiteVna.SingleByteChange` | src/LiteVNA.h:186-192 | changing any one of bytes 0..30 of an accepted frame makes it fail the check |
| `LiteVna.Write` | src/LiteVNA.h:371-375 | a command is appended to the sent log and the next scripted write result returned |
| `LiteVna.Read` | src/LiteVNA.h:167-172 | a read returns at most what was asked, in order from the script, leaving the rest queued |
| `LiteVna.RunWrites` | src/LiteVNA.h:118-153 | commands are written in order until the first failure |
| `LiteVna.TimeoutError` | src/LiteVNA.h:178-180 | the timeout is a `lite_vna_error` "Timeout reading LiteVNA Fifo data" |
| `LiteVna.ChecksumError` | src/LiteVNA.h:190-192 | a bad checksum is `lite_vna_error` "Invalid Checksum" with the computed byte printed as a character |
| `LiteVna.IndexError` | src/LiteVNA.h:197-199 | a bad index is `lite_vna_error` "Invalid Frequency Index" with the index in decimal |
| `LiteVna.ReadFrame` | src/LiteVNA.h:162-181 | one frame is exactly the next 32 bytes of the read script, however the reads chunk them; a read error or the timeout ends it |
| `LiteVna.LateReadFails` | src/LiteVNA.h:173-180 | a read that arrives after the 10 s deadline fails with the timeout even if it completes the frame |
| `LiteVna.FrameFromTwoReads` | src/LiteVNA.h:167-177 | a frame split over two reads is their concatenation |
| `LiteVna.Resize` | src/LiteVNA.h:155-157 | the arrays get exactly `points` slots, keeping existing values and zeroing new ones |
| `LiteVna.Place` | src/LiteVNA.h:200-202 | placing frames keeps the array length |
| `LiteVna.PlaceUntouched` | src/LiteVNA.h:200-202 | a slot no frame reports keeps its value |
| `LiteVna.PlaceLast` | src/LiteVNA.h:200-202 | a slot holds the measurement of the last frame reporting it, whatever the arrival order |
| `LiteVna.ScanFrames` | src/LiteVNA.h:159-205 | on success exactly `points` frames are consumed in order, all accepted, and placed at their reported indices; nothing is written |
| `LiteVna.FrameVerdict` | src/LiteVNA.h:182-199 | a read failure is passed on; a read frame is rejected exactly when its checksum or its index is bad |
| `LiteVna.VerdictChecksum` | src/LiteVNA.h:186-192 | a frame with a bad checksum is rejected with the checksum error, whatever its index |
| `LiteVna.VerdictIndex` | src/LiteVNA.h:190-199 | a frame with a good checksum and an index of at least `points` is rejected with the index error |
| `LiteVna.ScanFramesGood` | src/LiteVNA.h:161-204 | an accepted frame is placed and the loop goes on with the next |
| `LiteVna.ScanFramesBadFrame` | src/LiteVNA.h:159-205 | after k good frames, a rejected or failed frame k ends the scan with exactly its verdict, and nothing after it is read |
| `LiteVna.ScanFramesChecksumError` | src/LiteVNA.h:182-192 | after k good frames, a frame with a bad checksum ends the scan with the checksum error |
| `LiteVna.ScanFramesIndexError` | src/LiteVNA.h:190-199 | after k good frames, a frame with a good checksum and an out-of-range index ends the scan with the index error |
| `LiteVna.SetupCommands` | src/LiteVNA.h:118-153 | the setup is seven commands |
| `LiteVna.Scan` | src/LiteVNA.h:115-218 | the log is a prefix of setup then finish commands; on success it is all of them and every frame was accepted and placed |
| `LiteVna.ScanTail` | src/LiteVNA.h:155-218 | after the setup: a frame failure writes nothing more; otherwise clear-FIFO and leave-data-mode follow |
| `LiteVna.FrameErrorSkipsFinish` | src/LiteVNA.h:159-217 | a frame failure returns that failure and skips the trailing commands |
| `LiteVna.ScanUnreported` | src/LiteVNA.h:155-205 | after a successful scan into fresh arrays, an index no frame reported holds zero |
| `LiteVna.ScanLastReported` | src/LiteVNA.h:155-205 | after a successful scan, each reported index holds the last frame reporting it |
| `LiteVna.Handshake` | src/LiteVNA.h:272-295 | one request is sent; success means the next reply byte was the expected one |
| `LiteVna.Initialize` | src/LiteVNA.h:73-103 | an open failure is returned at once; the log is a prefix of the five commands; success means the replies were 0x32, 0x02, 0x01 in order |
| `LiteVna.Checks` | src/LiteVNA.h:89-102 | the three checks run in order and stop at the first failure |
| `LiteVna.InitializeAccepts` | src/LiteVNA.h:73-103 | replies 0x32, 0x02, 0x01 are accepted |
| `LiteVna.InitializeRejectsWrongDevice` | src/LiteVNA.h:272-295 | reply 0x33 to indicate fails with the exact message naming 33, after three commands |
| `LiteVna.HexOfReply` | src/LiteVNA.h:291-293 | the wrong reply byte is printed in hex |
| `HttpServer.CannedLengths` | src/HTTPServer.h:88-104 | each fixed 400, 405 and 404 response states the length of its own body |
| `HttpServer.ContentLength` | src/HTTPServer.h:117-120 | the 200 response is the header, a Content-Length that `atou` reads back as the body length, a blank line, and exactly the body |
| `HttpServer.Route` | src/HTTPServer.h:85-106 | empty input gets 400; a routed query text has no `?` |
| `HttpServer.RouteRequestLine` | src/HTTPServer.h:85-106 | for a request line `m t v`: non-GET gets 405, a path other than `/litevna` gets 404, no `?` gets 400, otherwise the query after the first `?` |
| `HttpServer.RouteUrl` | src/HTTPServer.h:91-106 | for any request with at least two tokens the routing depends only on the method and the pieces of the target |
| `HttpServer.RouteLitevna` | src/HTTPServer.h:85-106 | `GET /litevna?q v` is routed to the query q |
| `HttpServer.BindsOneEquals` | src/HTTPServer.h:110-115 | a query piece is kept exactly when it has one `=`, and is then key, `=`, value |
| `HttpServer.FirstBinding` | src/HTTPServer.h:107-116 | reference lookup: the value of the first piece binding the key, or absent when none does |
| `HttpServer.ParamsFirst` | src/HTTPServer.h:107-116 | the map built with `emplace` has a key exactly when some piece binds it, with the first such value |
| `HttpServer.RespondSeesFirst` | src/HTTPServer.h:107-117 | the parameters `execute` receives are those first bindings |
| `HttpServer.CheckParam` | src/HTTPServer.h:135-165 | a parameter is missing exactly when absent; it is valid exactly when 1 to 20 digits whose value modulo 2^width is nonzero, and then that value |
| `HttpServer.PointsWrap` | src/HTTPServer.h:161-165 | points=65536 is invalid and points=65537 means 1 |
| `HttpServer.ScanErrorBodyAsWritten` | src/HTTPServer.h:169-171 | the scan failure body is `"{error": "` + description + `"}` |
| `HttpServer.ScanErrorBodyNotObject` | src/HTTPServer.h:169-171 | that body starts with a quote, not a brace, and differs from the object every other error uses |
| `HttpServer.ScanErrorBody` | src/HTTPServer.h:169-171 | the corrected body is the `{"error": "…"}` object with the description as message |
| `HttpServer.Freq` | src/HTTPServer.h:174-186 | each frequency fits 64 bits |
| `HttpServer.FreqStep` | src/HTTPServer.h:174-186 | successive frequencies differ by `step` modulo 2^64 |
| `HttpServer.EntryTemplate` | src/HTTPServer.h:183-184 | an entry is the entry template formatted with the frequency and the measurements |
| `HttpServer.EntriesFrom` | src/HTTPServer.h:176-188 | the loop yields one entry per remaining point, entry k for frequency start + k·step |
| `HttpServer.Execute` | src/HTTPServer.h:134-191 | start, step and points are checked in order and the first failure decides the body; `scan` is called exactly when all pass, with their values; its failure gives the as-written body and its success the result body |
| `HttpServer.ResultEntries` | src/HTTPServer.h:172-191 | the success body is `{"result":[`, exactly `points` comma-separated entries, entry n for start + n·step wrapped to 64 bits, then `]}` |
| `HttpServer.Respond` | src/HTTPServer.h:85-120 | the fixed responses of the router, or a 200 response around the body `execute` makes; `scan` is called only for a routed query |

## Left out

- `Base64Url.Encode`: it returns the padded encoding for inputs shorter than 3 bytes. There the source's guard wraps and reads past the input (see Findings). No defined output exists to model.
- `StringUtils.UtoaValue`: it uses the magnitude of its argument. It does not model the `(long long)` cast at StringUtils.h:620, which turns unsigned values of 2^63 or more negative. Every call of the four-argument `utoa` in this core passes a date field or a reply byte, which are far below 2^63.
- `StringUtils.ToHex`: the same cast is not modelled, for the same reason.
- `LiteVna.Handshake`: a read that returns 0 bytes leaves the reply byte uninitialised (LiteVNA.h:282-291, 309-318, 336-345). The model reads it as 0x00, which is never an accepted reply.
- `LiteVna.ReadFrame`: the 50 ms sleeps and the wall clock are abstracted. Each scripted read carries the milliseconds elapsed since the frame began, and the 10 s deadline is checked against that.
- `SocketTcp.Drain`: write-finish callbacks are always present and never re-enter the reactor. The null-callback checks and callbacks that call `write` or `close` from inside a callback are not modelled.
- `SocketTcp.ReadReady`: the read callback is reported as a log event. What it does, including closing the socket (`closedSocket`), is not modelled.
- `StringShadows.Substr`: the test `pos + len > size` at StringShadow.h:74 adds in `size_t`, which wraps. That wrap is not modelled.
  - Example: `substr(1, SIZE_MAX)` gives `pos + len == 0` in the source, passes the test, and returns a view past the end of the text. The model returns the empty view.
  - The two-argument callers in StringUtils.h (lines 376, 404 and 578) pass a position and length inside the view, so they never reach the wrap.
- `Config.Atoi`: glibc `atoi` is modelled as `strtol` with saturation to the `long` range, then truncated to `int`. Locale digits and errno are not modelled.
- `Config.HelpResult`: the usage text is carried as two constants around the default com port, which is the Linux `/dev/ttyS0`. The Windows `COM2` branch is not modelled.
- `HttpServer.Execute`: the printed measurements of each entry (log magnitude, phase, SWR) are opaque strings supplied with the scan reply. They are float formatting of complex division.
- `DateTimes.ToString`: the UTC offset is applied as a 64-bit wrap of the timestamp. `toTime` is not modelled: it is the time-only variant of the same code.
- Characters of value 256 or more: the source works on single bytes, so such a char has no counterpart in it.
  - Only `trim`, `escape` and `escapeJSON` reduce such a char modulo 256.
  - Elsewhere the model compares the full value. For example, `atou` of U+0130 reports an error, although its low byte is the digit `0`.
- Not modelled, because they are OS or I/O calls:
  - the socket calls (epoll, accept, connect, recv/send, ioctl, setsockopt) and the eventfd `signal()` with its mutex;
  - the Windows branches;
  - SerialPort.h, which is not part of this model;
  - the filesystem calls of FileUtils.h (`list`, `loadFromFile`, `saveToFile`, `mkdir`, `isFile` and the rest, `getCwd`);
  - the `DateTime::now*` clocks.
- Not modelled, because they are threads: the logger thread with its mutex and sleeps, and the sinks LoggerConsole.h and LoggerFile.h. The logger's `showSource`, `setUtcOffset`, `initialize`, `terminate` and `setCommitDelay` are modelled only as the state fields they set.
- Not modelled, because they are floating point: `complex<float>` arithmetic, `linear`/`logMag`/`phase`/`swr`, and `atod`.
- Not modelled, because they depend on locale or codecs: `toString`/`toWString`, `toLower`/`toUpper` and `validateEmail`.
- Not modelled, because they overlap modelled code: `itoa`, `slice`, `concat`, and the `StringShadow` overloads of `split`, `trim` and `startsWith`.
- HTTPServer.h's 400, 404 and 405 responses carry no `Connection: close` header, and the model follows the code.
- The logger queue can hold 100001 messages before it drops one, because the test at Logger.h:207 is `> 100000`.
- `-tcp-port` accepts any nonzero `atoi` value, negative ones included, and the model keeps that.

## Findings

| source | as written | input that shows it | evidently intended | confidence | as-written member | corrected member |
|---|---|---|---|---|---|---|
| src/lib/StringUtils.h:457 | loop guard `byteNo <= len - 3` in `size_t` | any input of 0, 1 or 2 bytes: `len - 3` wraps to about 2^64, so the first group reads bytes 0..2 past the end | stop when fewer than 3 bytes remain (`byteNo + 3 <= len`), then encode the padded tail | high (not executed) | `Base64Url.EncodeShortInputOverreads` | `Base64Url.EncodeLoop` |
| src/HTTPServer.h:170 | template `"{error": "{}"}` | any scan failure, for example a timeout: the body is `"{error": "Timeout reading LiteVNA Fifo data"}`, a JSON string followed by garbage | `{"error": "{}"}`, the object shape of the other error bodies | high (not executed) | `HttpServer.ScanErrorBodyAsWritten` | `HttpServer.ScanErrorBody` |
