# MySQL Shell string toolkit, `TableSelect` chain and result bookkeeping, in Dafny

This project models three sequential pieces of MySQL Shell and proves properties of them.

- **The string toolkit of `mysqlshdk/libs/utils/utils_string.cc`:**
  - trimming (`str_strip`, `str_lstrip`, `str_rstrip`);
  - substitution (`str_replace`, `str_subvars`);
  - quoting (`quote_string`, `unquote_string`, `get_quote_span`);
  - bit strings (`bits_to_string`, `string_to_bits`);
  - line breaking (`str_break_into_lines`);
  - UTF-8 validation (`is_valid_utf8`, against the grammar of section 4 of RFC 3629);
  - wide-string truncation (`truncate` on `wchar_t`: UTF-16 per section 2 of RFC 2781, or UTF-32);
  - percent-encoding (`pctencode`, `pctdecode`, section 2.1 of RFC 3986).
- **The chained-call state machine of `TableSelect` (`modules/mod_mysqlx_table_select.cc`):**
  - the table of which method becomes callable after which;
  - the argument checks;
  - the statement each call builds.
- **The `Result` class of `mysqlshdk/libs/db/mysql/result.cc`:**
  - the classification of raw column types (`map_data_type`);
  - the row counter of `fetch_one` and `next_resultset`;
  - `reset`;
  - the warning queue of `fetch_one_warning`.

Each function of the source that works by looping and updating variables is a Dafny `method` with the same loop. The method is proved equal to a recursive reference function, and the properties are proved about that function as lemmas. Pure source functions are Dafny functions. `TableSelect` and `Result` update their fields in place, so each is a `class` whose methods state the whole new state.

Modules, one per file:

- `Basics`: `Option` (also `npos`), `Result` (a thrown exception becomes `Err`), and the unsigned integer widths.
- `StdString`: the `std::string` searches the toolkit calls (`find`, `find_first_not_of`, `find_last_not_of`).
- `StringTrim`, `Replace`, `SubVars`, `Quoting`, `BitStrings`, `LineBreaking`, `Utf8`, `WideTruncate` and `PercentEncoding`: the string toolkit.
- `TableSelectChain`: `TableSelect`.
- `ResultMetadata`: `Result`.

Notes on the model:

- **Reads at `s[size()]`.** `is_valid_utf8`, `get_quote_span` and `pctdecode` read the byte at `s[size()]`, where a `std::string` keeps a NUL. The model reads a 0 there, or tests the bound first where the outcome is the same.
- **`pctdecode`'s bound.** The test `i <= c - 3` is written with `size_t` wrap-around (`SizeMinus3`). For inputs shorter than 3 it is always true, and the NUL reads then make the escape test fail.
- **`str_break_into_lines` and `nl_pos`.** The loop condition skips the search for a newline when `rem` is longer than the width, so `nl_pos` keeps its previous value. `BreakIntoLines` carries the invariant that `nl_pos` is then always `npos`. It is only ever assigned once `rem` fits, and `rem` only shrinks. So the stale value never decides a cut. Newlines in a long `rem` are handled by the backward scan of the `else` branch.
- **`bits_to_string`.** The code uses shift 16 for both `case 3` and `case 2`, and from `case 4` up each case uses the shift that belongs to the case below it. Its output is still the binary form of the low `nbits` bits for every `0 <= nbits <= 24`, not only below 24: at `nbits == 24` the `substr` cuts the wrong group away. From `nbits == 25` on it can be wrong: at 25, bit 24 is lost (see Findings).

## Model

| member | source | states |
|---|---|---|
| StdString.Find | mysqlshdk/libs/utils/utils_string.cc:116-121 | `s.find(pat, from)`: the least position at or after `from` where `pat` occurs, `None` (npos) when there is none |
| StdString.FirstNotOf | mysqlshdk/libs/utils/utils_string.cc:49 | `find_first_not_of`: the result is outside `chars` and every position before it (from `from`) is in `chars`; `None` when all are |
| StdString.LastNotOf | mysqlshdk/libs/utils/utils_string.cc:50 | `find_last_not_of`: the result is outside `chars` and every position after it is in `chars`; `None` when all are |
| StringTrim.Lstrip | mysqlshdk/libs/utils/utils_string.cc:55-59 | the result is a suffix of `s`, what is removed is all in `chars`, and the result is empty or starts outside `chars` |
| StringTrim.Rstrip | mysqlshdk/libs/utils/utils_string.cc:61-65 | the result is a prefix of `s`, what is removed is all in `chars`, and the result is empty or ends outside `chars` |
| StringTrim.Strip | mysqlshdk/libs/utils/utils_string.cc:48-53 | the result is a contiguous piece of `s`, empty exactly when every character is in `chars`, otherwise starting and ending outside `chars`, with only `chars` cut off on either side |
| StringTrim.StripIsLstripOfRstrip | mysqlshdk/libs/utils/utils_string.cc:48-65 | stripping both ends equals `str_lstrip(str_rstrip(s))` |
| StringTrim.StripIsRstripOfLstrip | mysqlshdk/libs/utils/utils_string.cc:48-65 | stripping both ends equals `str_rstrip(str_lstrip(s))` |
| StringTrim.StripIsUnique | mysqlshdk/libs/utils/utils_string.cc:48-53 | any split of `s` into a prefix and suffix of `chars` around a middle that is empty or starts and ends outside `chars` is the one `str_strip` returns |
| Replace.StrReplace | mysqlshdk/libs/utils/utils_string.cc:103-126 | the loop computes `ReplaceAll`: `to` around every character when `from` is empty, otherwise the left-to-right non-overlapping replacement |
| Replace.InsertEverywhere | mysqlshdk/libs/utils/utils_string.cc:109-114 | the empty-`from` loop gives `to` followed by each character of `s` followed by `to` |
| Replace.ReplaceOccurrences | mysqlshdk/libs/utils/utils_string.cc:115-124 | the `find` loop gives the left-to-right non-overlapping replacement `Scan` |
| Replace.ReplaceRound | mysqlshdk/libs/utils/utils_string.cc:117-122 | one round copies up to the occurrence found, appends `to` and resumes right after the occurrence, keeping the loop invariant |
| Replace.ScanUpToMatch | mysqlshdk/libs/utils/utils_string.cc:116-121 | the replacement copies everything before the first occurrence, then `to`, then continues after it |
| Replace.ScanWithoutMatch | mysqlshdk/libs/utils/utils_string.cc:123 | with no occurrence left, the rest is copied unchanged |
| Replace.ReplaceEmptyLength | mysqlshdk/libs/utils/utils_string.cc:109-114 | with empty `from` the result has length `|s| + (|s| + 1) * |to|` |
| Replace.ReplaceEmptyPositions | mysqlshdk/libs/utils/utils_string.cc:109-114 | with empty `from`, character `k` of `s` sits at position `|to| + k * (|to| + 1)` of the result |
| Replace.ReplaceAbsent | mysqlshdk/libs/utils/utils_string.cc:115-124 | a non-empty `from` that does not occur leaves `s` unchanged |
| Replace.ReplaceBySelf | mysqlshdk/libs/utils/utils_string.cc:115-124 | replacing a non-empty `from` by itself leaves `s` unchanged |
| Replace.ScanShrinks | mysqlshdk/libs/utils/utils_string.cc:115-124 | replacing by something no longer than `from` never lengthens the string |
| Replace.ScanCharConcat | mysqlshdk/libs/utils/utils_string.cc:115-124 | replacing a single character distributes over concatenation |
| Quoting.QuoteString | mysqlshdk/libs/utils/utils_string.cc:218-223 | the result starts and ends with the quote; for a quote other than backslash, the inside is `Escaped(s)` |
| Quoting.EscapeInTwoPasses | mysqlshdk/libs/utils/utils_string.cc:220-221 | the two `str_replace` passes (double backslashes, then escape quotes) equal the one-pass escape `Escaped` |
| Quoting.UnquoteString | mysqlshdk/libs/utils/utils_string.cc:225-238 | never lengthens the string; a string without backslashes loses exactly its pair of enclosing quotes, if it has one, and is otherwise returned as is (the inverse of `quote_string` is `QuoteRoundTrip`) |
| Quoting.UnescapeWithoutBackslash | mysqlshdk/libs/utils/utils_string.cc:234-235 | both unescaping passes leave a string without backslashes unchanged |
| Quoting.UnescapeQuotes | mysqlshdk/libs/utils/utils_string.cc:234 | the first unescaping pass on an escaped string leaves only doubled backslashes |
| Quoting.HalveBackslashes | mysqlshdk/libs/utils/utils_string.cc:235 | the second unescaping pass undoes the doubling of backslashes |
| Quoting.EscapedHead | mysqlshdk/libs/utils/utils_string.cc:218-223 | an escaped non-empty string never starts with the quote character |
| Quoting.QuoteRoundTrip | mysqlshdk/libs/utils/utils_string.cc:218-238 | `unquote_string(quote_string(s, q), q) == s` for every quote other than backslash |
| Quoting.GetQuoteSpan | mysqlshdk/libs/utils/utils_string.cc:277-308 | fewer than two characters or no unescaped quote gives (npos, npos); otherwise `open` is the first unescaped quote and `close` is the next unescaped quote after it (escape state restarted) or npos |
| Quoting.RestartAfterQuote | mysqlshdk/libs/utils/utils_string.cc:298-303 | for a quote other than backslash, restarting the escape state after the opening quote gives the same escapes as scanning from the start |
| SubVars.RoundAt | mysqlshdk/libs/utils/utils_string.cc:318-340 | a round that goes on resumes strictly further on and within the string |
| SubVars.StrSubvars | mysqlshdk/libs/utils/utils_string.cc:310-343 | the loop computes `Subst`, the round-by-round expansion as written |
| SubVars.ExpansionRound | mysqlshdk/libs/utils/utils_string.cc:319-340 | one pass of the loop body is the round `RoundAt` |
| SubVars.RestoringSubvarIsIdentity | mysqlshdk/libs/utils/utils_string.cc:310-343 | with no end delimiter and a `subvar` that writes `varBegin` + name back, every string is unchanged |
| SubVars.UnterminatedDropsBegin | mysqlshdk/libs/utils/utils_string.cc:326-331 | as written, `"${x"` with delimiters `${` and `}` expands to `"x"`: the opening delimiter is lost |
| SubVars.AsWrittenAgreesWhenTerminated | mysqlshdk/libs/utils/utils_string.cc:310-343 | as written and as corrected, the expansion is the same on every string in which each `varBegin` is followed by a `varEnd`: the two differ only on unterminated variables |
| SubVars.TerminatedRestoringIsIdentity | mysqlshdk/libs/utils/utils_string.cc:310-343 | as written, a `subvar` that writes each variable back with both delimiters leaves unchanged every string in which each `varBegin` is followed by a `varEnd` |
| SubVars.IntendedRoundAt | mysqlshdk/libs/utils/utils_string.cc:318-340 | the corrected round, which copies an unterminated variable whole, still makes progress |
| SubVars.IntendedRestoringIsIdentity | mysqlshdk/libs/utils/utils_string.cc:310-343 | with the corrected round, a `subvar` that writes each variable back with both delimiters leaves every string unchanged, unterminated ones included |
| BitStrings.Binary | mysqlshdk/libs/utils/utils_string.cc:128-171 | the `n`-digit binary form has length `n` and only '0'/'1' (`k_bits[b]` is the 8-digit form of `b`) |
| BitStrings.ValueOfBinary | mysqlshdk/libs/utils/utils_string.cc:210-216 | reading back the `n` digits of `v` gives the `n` low bits of `v` |
| BitStrings.BinaryOfValue | mysqlshdk/libs/utils/utils_string.cc:210-216 | a bit string is the binary form of its value at its own length |
| BitStrings.LowIsMod | mysqlshdk/libs/utils/utils_string.cc:179-203 | the `n` low bits (`& 0xff` for `n = 8`) are the remainder modulo `2^n` |
| BitStrings.ShrIsDiv | mysqlshdk/libs/utils/utils_string.cc:179-203 | `v >> b` is `v / 2^b` |
| BitStrings.Div8 | mysqlshdk/libs/utils/utils_string.cc:175 | `std::div(nbits, 8)`: truncating quotient, remainder with the sign of `nbits` |
| BitStrings.BitsToString | mysqlshdk/libs/utils/utils_string.cc:173-208 | the fall-through `switch` and `substr` compute `AsWrittenBitsToString` |
| BitStrings.Switch | mysqlshdk/libs/utils/utils_string.cc:177-205 | entering at `case quot` and falling through to `case 0` appends the groups `Groups(Shifts, bits, quot)` |
| BitStrings.Groups | mysqlshdk/libs/utils/utils_string.cc:177-205 | `quot + 1` groups give `8 * (quot + 1)` binary digits |
| BitStrings.BitsToStringDefined | mysqlshdk/libs/utils/utils_string.cc:173-208 | with either shift table, the result is defined exactly for `0 <= nbits <= 71` (otherwise `substr` throws `out_of_range`) and then has `nbits` binary digits |
| BitStrings.AsWrittenCorrectUpTo24 | mysqlshdk/libs/utils/utils_string.cc:173-208 | as written, the result is the binary form of the `nbits` low bits for `0 <= nbits <= 24` |
| BitStrings.AsWrittenWrongAt25 | mysqlshdk/libs/utils/utils_string.cc:193-197 | as written, `bits_to_string(0x1000000, 25)` is 25 zeros, which is not the binary form of `0x1000000`; so the bound of 24 above is tight |
| BitStrings.AsWrittenWrongAt32 | mysqlshdk/libs/utils/utils_string.cc:193-197 | as written, `bits_to_string(0x1000000, 32)` is 32 zeros, which is not the binary form of `0x1000000` |
| BitStrings.CorrectGroups | mysqlshdk/libs/utils/utils_string.cc:177-205 | with one distinct shift per case, the groups are the binary form of the `8 * (k + 1)` low bits |
| BitStrings.IntendedIsBinary | mysqlshdk/libs/utils/utils_string.cc:173-208 | the corrected function gives the binary form of the `nbits` low bits for every `0 <= nbits <= 71` |
| BitStrings.StringToBits | mysqlshdk/libs/utils/utils_string.cc:210-216 | for strings shorter than `2^31` characters, succeeds exactly for at most 64 binary digits, then returns `nbits == |s|` and a value below `2^|s|` |
| BitStrings.BitsRoundTrip | mysqlshdk/libs/utils/utils_string.cc:173-216 | `string_to_bits(bits_to_string(b, n))` gives the `n` low bits of `b` and `n`, for `0 <= n <= 64` (corrected table) |
| BitStrings.StringRoundTrip | mysqlshdk/libs/utils/utils_string.cc:173-216 | `bits_to_string(string_to_bits(s))` gives `s` back for every valid bit string (corrected table) |
| LineBreaking.FirstNewline | mysqlshdk/libs/utils/utils_string.cc:248 | `rem.find('\n')` (and the backward newline scan): the first newline in the range, nothing but non-newlines before it |
| LineBreaking.BackScan | mysqlshdk/libs/utils/utils_string.cc:253 | the inner `while`: the last whitespace at or before the start point, or 0; nothing but non-whitespace after it |
| LineBreaking.ForwardScan | mysqlshdk/libs/utils/utils_string.cc:256-258 | the forward `for`: the first whitespace from the start point, or the end |
| LineBreaking.Split | mysqlshdk/libs/utils/utils_string.cc:247-264 | a cut is at whitespace with no newline before it; within the width it is the first newline; past the width, a cut below the width is the first newline or the last whitespace before the width (the greedy fill), and otherwise the first whitespace after a word longer than the width; no cut means no newline, and within the width or no whitespace at all |
| LineBreaking.BreakIntoLines | mysqlshdk/libs/utils/utils_string.cc:240-275 | the loop computes `Lines`, with `nl_pos` always `npos` whenever the search is skipped |
| LineBreaking.WrapPoint | mysqlshdk/libs/utils/utils_string.cc:251-263 | the `else` branch finds a cut exactly when `Split` does, at the same position |
| LineBreaking.LinesStep | mysqlshdk/libs/utils/utils_string.cc:266-271 | pushing `""` or `rem.substr(0, split_point)` and keeping what follows the cut is one step of `Lines` |
| LineBreaking.LinesHaveNoNewline | mysqlshdk/libs/utils/utils_string.cc:240-275 | no returned line contains a newline |
| LineBreaking.LinesFit | mysqlshdk/libs/utils/utils_string.cc:240-275 | every returned line fits the width or contains no whitespace at all (a word longer than the width) |
| LineBreaking.LinesAndSeparators | mysqlshdk/libs/utils/utils_string.cc:240-275 | there are as many dropped characters as lines, or one fewer |
| LineBreaking.SeparatorsAreSpace | mysqlshdk/libs/utils/utils_string.cc:266-271 | every character dropped at a cut is whitespace |
| LineBreaking.UnbreakLines | mysqlshdk/libs/utils/utils_string.cc:240-275 | joining the lines with the dropped characters gives the input back: nothing else is lost or reordered |
| LineBreaking.ShortTextIsOneLine | mysqlshdk/libs/utils/utils_string.cc:247-248 | a text within the width and without a newline comes back as one line, or none when empty |
| Utf8.IsValidUtf8 | mysqlshdk/libs/utils/utils_string.cc:458-512 | the result is true exactly when the bytes are a concatenation of well-formed UTF-8 characters (RFC 3629 section 4) |
| Utf8.CheckCharacter | mysqlshdk/libs/utils/utils_string.cc:465-508 | one round accepts exactly when the lead byte's length fits and those bytes form one well-formed character, then moves past it |
| Utf8.ReadTails | mysqlshdk/libs/utils/utils_string.cc:488-498 | the continuation loop completes exactly when all expected tails are present, accumulating the code point; otherwise it stops at the first non-tail or the end |
| Utf8.StepWellFormed | mysqlshdk/libs/utils/utils_string.cc:464-509 | a byte string is well-formed exactly when its first character is and the rest is |
| Utf8.CharCheck | mysqlshdk/libs/utils/utils_string.cc:500-508 | for a lead byte and its tails, the overlong, surrogate and range checks reject exactly the sequences that are not UTF-8 characters |
| Utf8.AsciiIsWellFormed | mysqlshdk/libs/utils/utils_string.cc:465-468 | all-ASCII strings are valid |
| Utf8.RejectsIllFormed | mysqlshdk/libs/utils/utils_string.cc:500-508 | an overlong form, a surrogate, a code point above U+10FFFF, a truncated sequence and a lone continuation byte are all invalid |
| WideTruncate.TruncateUtf16 | mysqlshdk/libs/utils/utils_string.cc:429-451 | the UTF-16 loop computes `TruncatedUtf16` |
| WideTruncate.TruncatedIsFirstCharacters | mysqlshdk/libs/utils/utils_string.cc:435-449 | the result is the first `max_length` characters of the input (a surrogate pair counting as one), all of them when there are fewer |
| WideTruncate.TruncatedIsPrefix | mysqlshdk/libs/utils/utils_string.cc:435-449 | the result is a prefix of the input |
| WideTruncate.TruncatedCharacterCount | mysqlshdk/libs/utils/utils_string.cc:435-449 | the result holds at most `max_length` characters: its own characters are the first ones of the input |
| WideTruncate.TruncatedKeepsAll | mysqlshdk/libs/utils/utils_string.cc:437-441 | with room for every unit, the result is the input, or the input minus a high surrogate in last position |
| WideTruncate.TruncateUtf16Idempotent | mysqlshdk/libs/utils/utils_string.cc:429-451 | truncating a truncated string again changes nothing |
| WideTruncate.TruncateUtf32 | mysqlshdk/libs/utils/utils_string.cc:452-454 | the UTF-32 result is the prefix of length `min(length, max_length)` |
| PercentEncoding.ReservedTableIsRfc3986 | mysqlshdk/libs/utils/utils_string.cc:517-528 | `k_reserved_chars[b]` is non-zero exactly for the bytes outside the unreserved set of RFC 3986 section 2.3 |
| PercentEncoding.HexValuesTableIsDigitValue | mysqlshdk/libs/utils/utils_string.cc:531-538 | `k_hex_values` holds the value of every hex digit of either case |
| PercentEncoding.HexDigit | mysqlshdk/libs/utils/utils_string.cc:551 | the `%02X` digit is an (uppercase) hex digit whose value is the nibble |
| PercentEncoding.PctEncode | mysqlshdk/libs/utils/utils_string.cc:542-562 | the loop over the buffer of size `3 * |s|` produces `Encoded(s)` |
| PercentEncoding.PutEncoded | mysqlshdk/libs/utils/utils_string.cc:549-556 | one byte writes its encoding at `offs`, keeps what was written before, and advances by 1 or 3 |
| PercentEncoding.PctDecode | mysqlshdk/libs/utils/utils_string.cc:564-582 | the loop produces `Decoded(s)` |
| PercentEncoding.DecodeRound | mysqlshdk/libs/utils/utils_string.cc:570-578 | one round decodes a `%XX` escape or copies one byte, and moves forward |
| PercentEncoding.HexPair | mysqlshdk/libs/utils/utils_string.cc:571-572 | the table lookup gives the byte `16 * hi + lo` of the two hex digits |
| PercentEncoding.DecodeEncoded | mysqlshdk/libs/utils/utils_string.cc:542-582 | `pctdecode(pctencode(s)) == s` |
| PercentEncoding.EncodedLength | mysqlshdk/libs/utils/utils_string.cc:546-559 | `|s| <= |pctencode(s)| <= 3 * |s|` |
| PercentEncoding.EncodedIsUnreservedOrPercent | mysqlshdk/libs/utils/utils_string.cc:548-557 | the encoding holds only unreserved bytes and '%' |
| PercentEncoding.EncodeUnreservedIsIdentity | mysqlshdk/libs/utils/utils_string.cc:553-555 | a string of unreserved bytes is its own encoding |
| PercentEncoding.DecodedLength | mysqlshdk/libs/utils/utils_string.cc:564-582 | decoding never lengthens the string |
| TableSelectChain.TableSelect.constructor | modules/mod_mysqlx_table_select.cc:29-56 | after construction only `select` is enabled, there is no statement and no call has been made |
| TableSelectChain.TableSelect.UpdateFunctions | modules/mod_mysqlx_table_select.cc:43-55 | after `update_functions(f)` the enabled set is exactly the functions registered with `f` as a predecessor; the statement and the call history are kept |
| TableSelectChain.TableSelect.DoSelect | modules/mod_mysqlx_table_select.cc:80-110 | callable only while enabled; fails exactly when the owning table is alive and an empty field list is given, with "Field selection criteria can not be empty" and nothing changed; with the table gone nothing changes; otherwise there is a new statement on the given fields (an empty list when none is given), exactly the functions registered after `select` are enabled, and `select` is appended to the calls, never having run before; the object itself is returned |
| TableSelectChain.TableSelect.DoWhere | modules/mod_mysqlx_table_select.cc:133-146 | callable only while enabled; it sets the criteria, enables exactly the functions registered after `where`, and appends `where` to the calls, which it was not yet among (it runs at most once per chain); returns the object |
| TableSelectChain.TableSelect.DoGroupBy | modules/mod_mysqlx_table_select.cc:170-190 | callable only while enabled; an empty list fails with "Grouping criteria can not be empty" and changes nothing; otherwise it sets the grouping, enables exactly the functions registered after `groupBy`, and appends `groupBy` to the calls, which it was not yet among (it runs at most once per chain); returns the object |
| TableSelectChain.TableSelect.DoHaving | modules/mod_mysqlx_table_select.cc:215-228 | callable only while enabled; it sets the grouping criteria, enables exactly the functions registered after `having`, and appends `having` to the calls, which it was not yet among (it runs at most once per chain); returns the object |
| TableSelectChain.TableSelect.DoOrderBy | modules/mod_mysqlx_table_select.cc:257-277 | callable only while enabled; an empty list fails with "Order criteria can not be empty" and changes nothing; otherwise it sets the ordering, enables exactly the functions registered after `orderBy`, and appends `orderBy` to the calls, which it was not yet among (it runs at most once per chain); returns the object |
| TableSelectChain.TableSelect.DoLimit | modules/mod_mysqlx_table_select.cc:304-317 | callable only while enabled; it sets the limit, enables exactly the functions registered after `limit`, and appends `limit` to the calls, which it was not yet among (it runs at most once per chain); returns the object |
| TableSelectChain.TableSelect.DoOffset | modules/mod_mysqlx_table_select.cc:337-350 | callable only while enabled; it sets the offset, enables exactly the functions registered after `offset`, and appends `offset` to the calls, which it was not yet among (it runs at most once per chain); returns the object |
| TableSelectChain.TableSelect.DoBind | modules/mod_mysqlx_table_select.cc:356-361 | callable only while enabled; always fails with "TableSelect.bind: not yet implemented." |
| TableSelectChain.TableSelect.DoExecute | modules/mod_mysqlx_table_select.cc:414-427 | callable only while enabled (after any other function); executes the statement built so far, which then always exists |
| TableSelectChain.NewStatement | modules/mod_mysqlx_table_select.cc:101 | a fresh statement holds the fields and no criteria or limit |
| TableSelectChain.Predecessors | modules/mod_mysqlx_table_select.cc:43-52 | the registration table: every function but the constructor's `""` has a predecessor, and only `select` follows `""` |
| TableSelectChain.EnabledAfter | modules/mod_mysqlx_table_select.cc:43-55 | `update_functions(f)`: only registered functions are enabled, all later than `f` in the chain order; `select` exactly after `""`; `execute` exactly after `select`, `where`, `groupBy`, `having`, `orderBy`, `limit`, `offset` or `bind` |
| TableSelectChain.InitialEnablesOnlySelect | modules/mod_mysqlx_table_select.cc:43-55 | before any call, only `select` is enabled |
| TableSelectChain.SinglePredecessors | modules/mod_mysqlx_table_select.cc:44-49 | `where` follows only `select`, `having` only `groupBy`, `offset` only `limit` |
| TableSelectChain.EnablingRaisesRank | modules/mod_mysqlx_table_select.cc:43-52 | every registered follow-up comes later in the order select < where < groupBy < having < orderBy < limit < offset < bind < execute |
| TableSelectChain.ChainRanksIncrease | modules/mod_mysqlx_table_select.cc:43-52 | along any allowed chain of calls the functions strictly advance in that order |
| TableSelectChain.ChainHasNoRepeats | modules/mod_mysqlx_table_select.cc:43-52 | no function appears twice in a chain, so a chain has at most 9 calls |
| TableSelectChain.ChainAppend | modules/mod_mysqlx_table_select.cc:43-52 | appending a call that the last call enabled keeps a chain |
| TableSelectChain.ChainExtend | modules/mod_mysqlx_table_select.cc:43-52 | a call enabled by the last one extends the chain and is a function not called before |
| TableSelectChain.CallsNeverRepeat | modules/mod_mysqlx_table_select.cc:119-121 | on the object itself, no chain function has run twice and at most nine have run: each "can be invoked only once" |
| TableSelectChain.EnabledImpliesStatement | modules/mod_mysqlx_table_select.cc:43-104 | whenever a function other than `select` is enabled, a statement exists |
| ResultMetadata.MapDataType | mysqlshdk/libs/db/mysql/result.cc:156-217 | every listed raw code has a type, and exactly the unlisted codes throw "Invalid type" |
| ResultMetadata.IntegerTypes | mysqlshdk/libs/db/mysql/result.cc:187-193 | the integer family (`YEAR` included) is `UInteger` exactly when unsigned, `Integer` exactly when not, and nothing else is either |
| ResultMetadata.StringTypes | mysqlshdk/libs/db/mysql/result.cc:169-177 | a character-string column is `Enum` when the enum flag is set, else `Set` when the set flag is, else `String` |
| ResultMetadata.EnumAndSetTypes | mysqlshdk/libs/db/mysql/result.cc:169-212 | `Enum`/`Set` come from the native types or a flagged character-string type; `String` only from an unflagged one |
| ResultMetadata.TemporalTypes | mysqlshdk/libs/db/mysql/result.cc:163-208 | `DATETIME`/`TIMESTAMP` and their `2` variants are `DateTime`, `DATE`/`NEWDATE` are `Date`, `TIME`/`TIME2` are `Time`, and nothing else |
| ResultMetadata.FlagsMatterOnlyForIntegersAndStrings | mysqlshdk/libs/db/mysql/result.cc:156-217 | outside the integer and character-string types the flags do not change the type |
| ResultMetadata.LevelOf | mysqlshdk/libs/db/mysql/result.cc:123-131 | "Error" is `Error`, "Warning" is `Warn`, and any other level `Note` |
| ResultMetadata.ToWarnings | mysqlshdk/libs/db/mysql/result.cc:121-135 | one warning per row of `show warnings`, in order, with the row's code and message |
| ResultMetadata.Result.constructor | mysqlshdk/libs/db/mysql/result.cc:33-44 | a new result has no result set, no row, a zero row count and an empty, not yet loaded warning queue |
| ResultMetadata.Result.Reset | mysqlshdk/libs/db/mysql/result.cc:147-154 | `has_resultset` is true exactly when the new result set is non-null; nothing else changes |
| ResultMetadata.Result.FetchOne | mysqlshdk/libs/db/mysql/result.cc:74-103 | with a row available it is returned and the count goes up by one; otherwise the row is cleared, the count is kept, and an error is thrown exactly when the session reports a non-zero code |
| ResultMetadata.Result.NextResultset | mysqlshdk/libs/db/mysql/result.cc:105-114 | returns whether the live session has another result set, and always resets the row count to 0 |
| ResultMetadata.Result.FetchOneWarning | mysqlshdk/libs/db/mysql/result.cc:116-145 | warnings are loaded once, only when the count is non-zero, appended in order; the front is returned and removed, `None` once the queue is empty; an exception from the query or a `fetch_one` is passed on with the rows read so far queued and the load marked done |
| ResultMetadata.WarningsDrainInOrder | mysqlshdk/libs/db/mysql/result.cc:139-144 | `n` calls hand out `min(n, |queue|)` warnings, and what they hand out followed by what is left is the queue: first in, first out |

## Left out

- `str_format` is not modelled: it is C varargs over `vsnprintf`.
- `utf8_to_wide`, `wide_to_utf8` and the `std::string`/`char *` overloads of `truncate` are not modelled: they depend on the locale's `mbrtowc`/`wcrtomb` or on `MultiByteToWideChar`.
- `get_random_string` is not modelled: it uses `std::random_device`.
- WideTruncate: the choice between UTF-16 and UTF-32 is made at compile time from `WCHAR_MAX`; the model has both variants. The `(pointer, length)` pair is a sequence.
- BitStrings.BitsToString: the text of the `std::out_of_range` thrown by `substr` depends on the standard library; the model uses a fixed placeholder message.
- BitStrings.StringToBits: the text of the `std::invalid_argument` thrown by the `std::bitset` constructor for a non-binary digit depends on the standard library; the model uses a placeholder. The message for more than 64 digits is the source's own. Exception types are not distinguished; both become `Err`.
- BitStrings.StringToBits: `int nbits = s.length()` (line 211) truncates a length of `2^31` or more; such a string then passes the `nbits > 64` test, `std::bitset<64>` keeps its first 64 digits and the wrapped count is returned. The model takes the length unbounded and fails for every string longer than 64 digits.
- Replace.StrReplace: `int offs = from.length()` (line 106) truncates a `from` of `2^31` characters or more, so `start = p + offs` (line 120) no longer moves just past the match. The model always advances by `|from|`; Replace.ReplaceOccurrences likewise.
- SubVars.StrSubvars: `subvar` is a pure function here; a `std::function` with side effects is not modelled.
- PercentEncoding.PctEncode: `sprintf` also writes a NUL after the three characters, which `resize(offs)` then cuts off; that byte is not modelled.
- PercentEncoding.PctDecode: `isxdigit` on a byte of 0x80 or more is called with a negative `char`, which is undefined in C; the model treats such bytes as non-digits. Inputs are bounded by `size_t` (`requires |s| < 2^64`).
- LineBreaking.BreakIntoLines: a width of 0 with a non-empty line reads `rem[SIZE_MAX]`; the precondition excludes it. `isspace` is the "C" locale's. The `int i` of the backward scan overflows for a cut beyond `INT_MAX`; the model uses unbounded integers.
- ResultMetadata.Result.FetchOne: the row's column values come from `mysql_fetch_row` and are opaque. The error's code and SQL state are not kept, only its message. `_fetched_row_count` is a `uint64_t`; its wrap-around after 2^64 rows is not modelled.
- ResultMetadata.Result.FetchOneWarning: the `show warnings` query is the `shown` and `failure` parameters: the rows delivered and the exception, if any, thrown after them. The debug `assert(level == "Note")` is not modelled: any other level is a `Note`. `_fetched_warnings` has no initialiser in the constructor shown; the model starts it false.
- `fetch_metadata` is not modelled: it reads the C API's field array. It only applies `map_data_type`, which is modelled, to each field.
- The argument checks of the `shcore` bridge (`ensure_count`, `string_at`, `uint_at`, `parse_string_list`) are not modelled: arguments arrive typed. `CATCH_AND_TRANSLATE_CRUD_EXCEPTION` is not modelled either.
- The `SelectStatement` builder of the X DevAPI is not modelled: it is a record of what was passed to it.
- TableSelectChain.TableSelect.DoExecute: the server round trip is not modelled; the method returns the statement that would be sent.
- `update_functions` and `register_dynamic_function` belong to the dynamic-object base class, which is not modelled; only the registration table of lines 43-52 of `modules/mod_mysqlx_table_select.cc` is, with the enabled set being the functions registered with the last updating call as a predecessor. Calling a function that is not enabled is excluded by each method's precondition rather than modelled as the base class's error.

## Findings

| source | as written | input that shows it | evidently intended | confidence | as-written member | corrected member |
|---|---|---|---|---|---|---|
| mysqlshdk/libs/utils/utils_string.cc:193-197 | from `case 3` up, `case k` appends the byte at shift `8(k-1)` instead of `8k`: `case 3` repeats the shift 16 of `case 2`, so from `nbits == 25` on the output takes bits 16-23 where bits 24-31 belong | `bits_to_string(0x1000000, 25)` gives 25 zeros | `case k` appends `(bits >> 8k) & 0xff` for every k (for `case 8`, the zero bits above a `uint64_t`), so the result is the binary form of the `nbits` low bits | high (not executed) | BitStrings.AsWrittenWrongAt25 | BitStrings.IntendedIsBinary |
| mysqlshdk/libs/utils/utils_string.cc:326-331 | when `var_end` is not found, the rest is copied from `pos`, which was already advanced past `var_begin`, so the opening delimiter is dropped | `str_subvars("${x", f, "${", "}")` gives `"x"` | copy the unterminated variable whole, from its `var_begin` on | medium (not executed) | SubVars.UnterminatedDropsBegin | SubVars.IntendedRestoringIsIdentity |
