# FinalShell activation-key bot, modelled in Dafny

This project models the core of a Telegram bot that turns a FinalShell
machine code into activation keys. The parts modelled are:

- the key engine (`src/finalshell.rs`): validating and cleaning a machine
  code, the four salted digest derivations (before 3.9.6, 3.9.6 and later,
  4.5, 4.6), the all-versions result list, the default single-key path and
  the text report;
- the version classifier (`src/models.rs`): an ordered rule list over the
  UTF-8 byte length of the code and whether it contains a dash;
- the MarkdownV2 escapers and the request gate of the bot (`src/bot.rs`):
  ban check, request limit, trim, validate, clean, generate, count and log;
- configuration loading from the environment, `is_admin` and `validate`
  (`src/config.rs`);
- the uptime text and the seven-day log-age test (`src/utils.rs`);
- the health-report labels, the counting of "ERROR" and "WARN" in the day's
  log files, and the bot-process check of the guard daemon (`src/guard.rs`).

MD5 and Keccak-384 are not computed. A `Hashers` value holds two functions.
Their result types say only that a digest is 32 (MD5) or 96 (Keccak-384)
lowercase hexadecimal characters. Everything after hashing is checked for any
such functions: the salts, the slices, the upper-casing, the order of the
results and the dispatch on the classifier's label.

Strings are sequences of Unicode scalar values. Rust's `len()` is modelled by
`Text.ByteLen`, the UTF-8 byte length. `trim()` strips the Unicode White_Space
characters. Clock readings, the environment and the file system are
parameters: a timestamp text, a map from variable names to values, and a
function from file names to optional contents.

Modules and files:

| file | module | models |
|---|---|---|
| results.dfy | Results | `Option`, `Result`, and `Outcome` for `anyhow::Result<()>` |
| text.dfy | Text | byte length, whitespace and trimming, ASCII case mapping, substring search, `split` on one character |
| numbers.dfy | Numbers | decimal digits, `{}`/`{:02}` formatting, `str::parse` for `i32`/`i64`/`u64` |
| models.dfy | Models | `FinalShellVersion::detect_version` |
| finalshell.dfy | FinalShell | `ActivationCodeGenerator` |
| configuration.dfy | Configuration | `Config` |
| bot.dfy | Bot | escapers and `handle_machine_code` |
| utils.dfy | Utils | `calculate_uptime`, `should_cleanup_log` |
| guard.dfy | Guard | `format_health_report` labels, `analyze_logs`, `check_bot_process` |

Behaviours of the code that the model keeps as written:

- `validate_machine_code` checks the length of the input as given, before
  trimming. Only the character check uses the trimmed text. So a two-letter
  code padded to eight bytes with spaces is accepted.
- `@` is an allowed character. The source's test rejects `"ABC@123"`
  because it has 7 bytes, not because of the `@`.
- There is no digest-length error. `calc_md5` and `calc_keccak384` always
  succeed, and the digests are always long enough for the slices. So
  `generate_all`, `generate` and `format_all_codes` always succeed, and the
  "generation failed" reply of `handle_machine_code` cannot happen.
- `to_uppercase` only meets lowercase hexadecimal digits here, so only its
  ASCII behaviour is modelled.
- In `handle_machine_code` the text is trimmed before validation. So the
  eight-byte length test applies to the trimmed text there, and cleaning
  changes nothing on the codes that pass (`Bot.GateCleanIsTrim`).

## Model

| member | source | states |
|---|---|---|
| Text.ByteLen | src/models.rs:63 | `len()` is the UTF-8 byte length: between the number of characters and four times it, and equal to it on ASCII text |
| Text.ByteLenExceedsForNonAscii | src/finalshell.rs:169 | one non-ASCII character makes the byte length exceed the character count |
| Text.TrimIsInnerSlice | src/finalshell.rs:174 | `trim` gives the inner slice, character by character, with only whitespace around it, and the slice neither starts nor ends with whitespace |
| Text.Trim | src/finalshell.rs:174 | `trim` never lengthens the text, and what it returns neither starts nor ends with whitespace |
| Text.TrimIdempotent | src/bot.rs:325 | trimming twice is trimming once |
| Text.UpperHexRoundTrip | src/finalshell.rs:99 | upper-casing lowercase hex gives uppercase hex, and lower-casing gives back the input |
| Text.JoinSplit | src/config.rs:28 | `split(',')` loses nothing: joining the pieces with the separator gives back the input |
| Text.Split | src/config.rs:28 | `split(',')` gives at least one piece, and no piece holds a comma |
| Text.SplitJoin | src/config.rs:28 | splitting inverts joining when no piece holds the separator |
| Numbers.NatToString | src/utils.rs:175 | `{}` of a number is a non-empty digit string whose value is the number, with no leading zero |
| Numbers.Pad2 | src/utils.rs:175 | `{:02}` is at least two digits with the number's value, and exactly two below 100 |
| Numbers.ParseIntShape | src/config.rs:23 | a string that parses is non-empty, all digits after an optional leading sign |
| Numbers.ParseInt | src/config.rs:23 | a parsed value lies within the target type's range |
| Numbers.ParseI32 | src/config.rs:37 | `parse::<i32>` gives a value within the i32 range |
| Numbers.ParseI64 | src/config.rs:29 | `parse::<i64>` gives a value within the i64 range |
| Numbers.ParseU64 | src/config.rs:45 | `parse::<u64>` gives a value within the u64 range and refuses a leading minus |
| Numbers.ParseNatToString | src/config.rs:37 | a number in range written in decimal parses back to itself |
| Numbers.ParseNegated | src/config.rs:23 | a minus sign followed by the digits of n parses as -n for a signed type |
| Numbers.ParseUnsignedRejectsMinus | src/config.rs:45 | `parse::<u64>` refuses a leading minus |
| Models.DetectVersion | src/models.rs:61-84 | the label is one of the four; legacy iff the label is "< 3.9.6" iff the code is shorter than 15 bytes |
| Models.DetectVersionRegions | src/models.rs:63-83 | the first-match rules as four disjoint regions: "4.6+" iff a dash and more than 25 bytes; "≥ 3.9.6" iff more than 20 bytes and not "4.6+"; "4.5" iff 15 to 20 bytes |
| Models.DashFreeNeverV46 | src/models.rs:68-77 | a code without a dash is never "4.6+", and above 20 bytes it is "≥ 3.9.6" |
| Models.DetectVersionExamples | src/finalshell.rs:312-323 | "ABC123" is legacy; the 24-byte dash-free test code is "≥ 3.9.6" and not legacy |
| FinalShell.ValidateMachineCode | src/finalshell.rs:168-180 | accepted exactly when the input as given has 8 bytes or more and its trimmed text holds only ASCII letters, digits, `-`, `_` and `@`; an accepted code's trimmed text is ASCII with no whitespace |
| FinalShell.PaddedShortCodeIsValid | src/finalshell.rs:169-177 | a two-letter code padded with six spaces passes, since length is tested before trimming |
| FinalShell.ValidateAcceptsPlain | src/finalshell.rs:255 | "ABC123DEF456" is valid |
| FinalShell.ValidateAcceptsDashes | src/finalshell.rs:256 | "abc-123-def" is valid |
| FinalShell.ValidateAcceptsAt | src/finalshell.rs:178 | "ABC@1234" is valid: `@` is allowed |
| FinalShell.ValidateRejects | src/finalshell.rs:257-259 | "", "123" and "ABC@123" are refused |
| FinalShell.ShortExample | src/finalshell.rs:169 | fewer than 8 ASCII characters are refused whatever they are |
| FinalShell.ValidExample | src/finalshell.rs:168-180 | 8 or more allowed characters are accepted |
| FinalShell.RemoveAll | src/finalshell.rs:186-189 | `replace(c, "")` leaves no `c` and never lengthens the text |
| FinalShell.FilterOut | src/finalshell.rs:183-190 | dropping a set of characters leaves none of them and never lengthens the text |
| FinalShell.RemovalsAreFilter | src/finalshell.rs:186-189 | the four chained removals are one pass that drops space, line feed, carriage return and tab |
| FinalShell.CleanMachineCode | src/finalshell.rs:183-190 | the cleaned code is the trimmed input with the four blanks dropped and every other character kept in order |
| FinalShell.CleanHasNoBlanks | src/finalshell.rs:183-190 | the cleaned code holds no space, line feed, carriage return or tab |
| FinalShell.FilterKeepsEnds | src/finalshell.rs:183-190 | dropping blanks from a trimmed text leaves a trimmed text |
| FinalShell.CleanIdempotent | src/finalshell.rs:183-190 | cleaning twice is cleaning once |
| FinalShell.ValidCleanIsTrim | src/finalshell.rs:168-190 | on a valid code, cleaning only trims |
| FinalShell.CleanExample | src/finalshell.rs:262-267 | " ABC 123\nDEF\t456 " cleans to "ABC123DEF456" |
| FinalShell.CalcMd5 | src/finalshell.rs:80-85 | the digest is 32 lowercase hex characters, with no error path |
| FinalShell.CalcKeccak384 | src/finalshell.rs:88-93 | the digest is 96 lowercase hex characters, with no error path |
| FinalShell.DigestSliceIsKey | src/finalshell.rs:99 | a 16-character slice of lowercase hex, upper-cased, is a key (16 uppercase hex digits), and nothing is lost |
| FinalShell.ExtractKey | src/finalshell.rs:99 | `hash[lo..lo + 16].to_uppercase()` is a key whose lower-case form is that slice of the digest |
| FinalShell.GenerateLegacy | src/finalshell.rs:96-111 | both keys are 16 uppercase hex; each is MD5 of prefix + code + suffix ("61305"/"8552", "2356"/"13593"), characters 8 to 24, upper-cased |
| FinalShell.GenerateV396Plus | src/finalshell.rs:114-129 | both keys are 16 uppercase hex; each is Keccak-384 of code + suffix ("hSf(78cvVlS5E", "FF3Go(*Xvbb5s2"), characters 12 to 28, upper-cased |
| FinalShell.GenerateV45 | src/finalshell.rs:132-147 | as above with the 4.5 suffixes "wcegS3gzA$" and "b(xxkHn%z);x" |
| FinalShell.GenerateV46 | src/finalshell.rs:150-165 | as above with the 4.6 suffixes "csSf5*xlkgYSX,y" and "Scfg*ZkvJZc,s,Y" |
| FinalShell.AllResults | src/finalshell.rs:37-47 | four results tagged Legacy, V396Plus, V45, V46 in that order, with their display names, and all eight keys 16 uppercase hex digits |
| FinalShell.GenerateAll | src/finalshell.rs:37-47 | the method that pushes the four results always succeeds with exactly that list |
| FinalShell.LabelIndex | src/finalshell.rs:53-69 | "< 3.9.6", "≥ 3.9.6", "4.5" and "4.6+" name list positions 0, 1, 2 and 3, the order in which the four variants are generated |
| FinalShell.Generate | src/finalshell.rs:50-77 | always succeeds; returns the classifier's result and the Professional key of the version its label names, which is a 16-character uppercase hex key |
| FinalShell.DetectVersionInfo | src/finalshell.rs:193-202 | each of "< 3.9.6", "≥ 3.9.6", "4.5" and "4.6+" gets its own text ("3.9.6 以前版本", "3.9.6 及以后版本", "4.5 版本", "4.6 及以后版本"); the generic fallback text never appears; the "before 3.9.6" text appears iff the code is legacy |
| FinalShell.FormatAllCodes | src/finalshell.rs:205-246 | the method that appends one block per result always succeeds with the header, the four blocks in list order and the footer |
| FinalShell.AppendSections | src/finalshell.rs:220-237 | the loop appends the blocks of all results, in list order, to the text built so far |
| FinalShell.ReportLayout | src/finalshell.rs:220-243 | the report is the header, the Legacy, ≥ 3.9.6, 4.5 and 4.6 blocks in that order, then the footer |
| FinalShell.ReportHeader | src/finalshell.rs:211-218 | the header shows the machine code and the generation time |
| FinalShell.Report | src/finalshell.rs:205-246 | the report starts with the header and ends with the footer |
| FinalShell.ResultSection | src/finalshell.rs:229-237 | each block shows its version's name, "高级版: `<advanced key>`" and "专业版: `<professional key>`" |
| FinalShell.ReportShowsKeys | src/finalshell.rs:220-237 | the report shows every version's advanced and professional key, each in backticks after its tier |
| FinalShell.ReportMentionsAllVersions | src/finalshell.rs:297-310 | the report contains the four version names, 高级版 and 专业版 |
| FinalShell.ReportContains | src/finalshell.rs:220-243 | text found in one result's block is found in the report |
| Configuration.VarOr | src/config.rs:32-33 | a variable's value when it is set, the default otherwise |
| Configuration.PieceIds | src/config.rs:29 | a piece gives at most one id: the value of its trimmed text when that parses as i64 |
| Configuration.ParsedIds | src/config.rs:26-30 | at most one id per piece, each within i64 |
| Configuration.ParseAdminIds | src/config.rs:26-30 | at most one id per comma piece, each within i64, and v is an id iff some trimmed piece parses to v |
| Configuration.ParsedIdsMembers | src/config.rs:26-30 | v is an admin id iff some piece, trimmed, parses to v |
| Configuration.ParsedIdsAppend | src/config.rs:28-30 | ids keep the order of the pieces: the ids of a + b are those of a followed by those of b |
| Configuration.EmptyAdminIds | src/config.rs:26-27 | an unset or empty ADMIN_IDS gives no ids |
| Configuration.IdToStringParses | src/config.rs:29 | an i64 written in decimal has no comma, is already trimmed and parses back to itself |
| Configuration.AdminIdsRoundTrip | src/config.rs:26-30 | ids written with commas between them parse back to the same list |
| Configuration.PartsParse | src/config.rs:28-30 | pieces that are the decimal texts of ids parse to those ids, in order |
| Configuration.Load | src/config.rs:17-57 | fails iff BOT_TOKEN is unset, or CHAT_ID is unset or not an i64; otherwise holds the variables, with defaults "sqlite:finalshell_bot.db", 3, "info" and 86400 when unset or unparsable |
| Configuration.DefaultTextsParse | src/config.rs:36-44 | the default texts "3" and "86400" parse to the default numbers |
| Configuration.NatToStringExample | src/config.rs:44-46 | 86400 is written "86400" |
| Configuration.IsAdmin | src/config.rs:59-61 | true iff the user id is in the admin list |
| Configuration.ListContains | src/config.rs:60 | `contains` is membership |
| Configuration.Validate | src/config.rs:63-77 | passes iff the token is non-empty, chat id non-zero and limit positive; otherwise reports the first failing check's message, in that order |
| Configuration.LoadedDefaultsValidate | src/config.rs:35-38 | with a token, a non-zero chat id and no MAX_USER_REQUESTS, the loaded configuration passes `validate` |
| Bot.Replace | src/bot.rs:21-39 | replacing c by a text without c leaves no c |
| Bot.Escape | src/bot.rs:20-62 | the one-pass escape is as long as the input plus its number of special characters |
| Bot.EscapeMarkdownV2 | src/bot.rs:20-40 | the 19 chained replacements equal the one-pass escape of the 19 MarkdownV2 specials |
| Bot.EscapeActivationOutput | src/bot.rs:43-63 | the 18 chained replacements equal the one-pass escape of the same specials without the backtick |
| Bot.SpecialSets | src/bot.rs:21-61 | the replacement lists hold exactly the characters of the two special sets |
| Bot.CharSetMembers | src/bot.rs:21-61 | a character is in the set of a list iff it is in the list |
| Bot.ReplaceAppend | src/bot.rs:21-39 | `replace` works piece by piece over a concatenation |
| Bot.ReplaceAfterEscape | src/bot.rs:22-39 | escaping one more character after the backslash has been escaped extends the escape set by it |
| Bot.EscapeNothing | src/bot.rs:20-62 | escaping no character changes nothing |
| Bot.ChainAfterEscape | src/bot.rs:22-39 | once the backslash is escaped, each later replacement adds its character to the escape set |
| Bot.EscapeChainIsEscape | src/bot.rs:21-39 | a chain of distinct replacements that starts with the backslash is the one-pass escape of its characters |
| Bot.UnescapeEscape | src/bot.rs:20-62 | deleting each inserted backslash gives back the input |
| Bot.EscapeUnchanged | src/bot.rs:20-62 | text without specials comes back unchanged |
| Bot.EscapeAppend | src/bot.rs:20-62 | the escape works piece by piece over a concatenation |
| Bot.EscapeAround | src/bot.rs:20-62 | a character's escape sits between the escapes of the text around it |
| Bot.BacktickPassesThrough | src/bot.rs:29-62 | the activation escaper leaves a backtick as it is, and the MarkdownV2 escaper prefixes it |
| Bot.EscapedLengths | src/bot.rs:20-62 | for both escapers, the output length is the input length plus the number of specials, and unescaping recovers the input |
| Bot.HandleMachineCode | src/bot.rs:296-431 | banned: refused, nothing written; a non-admin at the limit: refused and banned; admins never refused on count; invalid trimmed text: refused, nothing written; otherwise the codes |
| Bot.HandleMessage | src/bot.rs:296-309 | a failed read of the sender's record (no row before `/start`, or a database error) ends the handler with no reply and no write; a found record goes through the gate |
| Bot.UnknownSenderUntouched | src/bot.rs:301-304 | a sender without a readable record is neither answered, counted nor banned; one with a record is counted exactly when codes are sent |
| Bot.Respond | src/bot.rs:350-378 | the reply is the report on the cleaned code; the request is counted, then the default-path key is logged; admins see no remaining count, others see limit − count − 1 |
| Bot.EscapedReport | src/bot.rs:408-413 | the sent report is the activation escape of the report, and unescaping gives the report back |
| Bot.ActivationLog | src/bot.rs:361-372 | one log entry with the cleaned code, the Professional key of the classifier's version and its label |
| Bot.RemainingNonNegative | src/bot.rs:374-378 | the remaining count shown after a successful request is between 0 and limit − 1 |
| Bot.GateCleanIsTrim | src/bot.rs:325-351 | a trimmed text that passes validation is its own cleaned form |
| Bot.Apply | src/bot.rs:319-357 | applying the gate's writes never unbans and never lowers the count |
| Bot.Step | src/database.rs:124-143 | a ban sets the banned flag, a count adds one to the request count, and a log entry changes neither |
| Bot.ApplyLogs | src/bot.rs:363-369 | log entries leave the user record as it is |
| Bot.GateEffectShapes | src/bot.rs:312-372 | codes are counted and then only logged; a refusal at the limit only bans; every other reply writes nothing |
| Bot.CountedThenLoggedKinds | src/bot.rs:354-372 | a counted-then-logged request writes a count and no ban |
| Bot.GateKeepsLimit | src/bot.rs:312-357 | a non-admin's count never passes the limit, whatever they send |
| Bot.GateEffects | src/bot.rs:306-357 | with every send succeeding, the ban happens iff the sender is a non-admin at the limit; the count grows iff codes are sent; a banned sender's record is unchanged |
| Utils.UptimeParts | src/utils.rs:168-172 | hours < 24, minutes < 60, seconds < 60, and days·86400 + hours·3600 + minutes·60 + seconds is the uptime |
| Utils.UptimePartsUnique | src/utils.rs:169-172 | any split with the time of day in range that adds up to the uptime is the one computed |
| Utils.Clock | src/utils.rs:175-177 | `{:02}:{:02}:{:02}` is 8 characters with colons at positions 2 and 5 |
| Utils.ClockReadsBack | src/utils.rs:175-177 | the three clock fields are digits whose values are the hours, minutes and seconds |
| Utils.CalculateUptime | src/utils.rs:162-179 | the text reads back as the days, hours, minutes and seconds of now − start, which add up to now − start; start must not be later than now |
| Utils.UptimeText | src/utils.rs:174-178 | the text ends in the clock; it is the bare clock iff days is 0; otherwise it is "<days> days, " then the clock |
| Utils.UptimeReadsBack | src/utils.rs:174-178 | reading the text back gives the hours, minutes and seconds, and the days before " days, " |
| Utils.UptimeExample | src/utils.rs:245-254 | 3661 seconds read "01:01:01" |
| Utils.ShouldCleanupLog | src/utils.rs:57-64 | an error when the metadata is missing or the file is newer than now; otherwise due iff its age in whole seconds exceeds 604800 |
| Utils.CleanupBoundary | src/utils.rs:63 | a file exactly 7 days old, or less than a second over, is kept; a full second over is removed |
| Utils.CleanupMonotone | src/utils.rs:57-64 | a file due for cleanup stays due as time passes |
| Guard.BotStatusLabel | src/guard.rs:97-101 | "✅ running" iff "running", "❌ stopped" iff "stopped", "❓ unknown" for everything else |
| Guard.FormatHealthLabels | src/guard.rs:87-158 | the cpu and memory marks are ✅ iff under 80 and the disk mark iff under 90 (lines 106-108); each link label is fine iff its own link is up (lines 103-104); the overall status is NORMAL or WARNING, and NORMAL iff all those marks and labels are fine; the error label (line 156) is fine iff no errors, the warning label (line 158) iff fewer than 5 |
| Guard.OverallStatusReadings | src/guard.rs:87-95 | NORMAL iff cpu < 80, memory < 80, disk < 90 and both links are up |
| Guard.OverallStatusMonotone | src/guard.rs:87-95 | lower usages and links at least as available keep NORMAL |
| Guard.ThresholdsStrict | src/guard.rs:87-106 | a cpu usage of exactly 80 is flagged and gives WARNING; 79.9 with the rest fine gives NORMAL |
| Guard.MonitorNeverAlerts | src/guard.rs:189-193 | the process check always answers "running", so the restart alert of `monitor_bot_process` (line 254) never fires and the bot is shown as running |
| Guard.CheckBotProcess | src/guard.rs:189-193 | the placeholder process check is always shown as running |
| Guard.CountMatchesPositive | src/guard.rs:209-210 | a pattern is counted at least once iff it occurs |
| Guard.CountMatches | src/guard.rs:209-210 | the empty pattern matches at each of the text's character boundaries; a non-empty one at most once per character |
| Guard.CountMatchesBound | src/guard.rs:209-210 | matches of a non-empty pattern do not overlap: n matches use n times its length in characters |
| Guard.OverlapFreeCountsAll | src/guard.rs:209-210 | for a pattern that cannot overlap itself, the non-overlapping count is the number of occurrences |
| Guard.SkipInsideMatch | src/guard.rs:209-210 | no occurrence of such a pattern starts inside a match |
| Guard.BorderOfTwoMatches | src/guard.rs:209-210 | two matches closer than the pattern's length make a suffix of the pattern equal to a prefix |
| Guard.FirstCharUnique | src/guard.rs:209-210 | a pattern whose first character does not recur cannot overlap itself |
| Guard.PatternsOverlapFree | src/guard.rs:209-210 | neither "ERROR" nor "WARN" can overlap itself |
| Guard.WarningLineCounted | src/guard.rs:209-210 | "WARNING" counts once as a warning and never as an error |
| Guard.OverlappingCountedOnce | src/guard.rs:209-210 | "aa" occurs twice in "aaa" but is counted once |
| Guard.AnalyzeLogs | src/guard.rs:196-215 | the loop over "bot.log" and the day's guard log never fails and returns the summed counts of the readable files |
| Guard.LogTotalsCountOccurrences | src/guard.rs:207-212 | the totals are the number of places "ERROR" and "WARN" occur in the readable files; unreadable files add nothing |
| Guard.LogTotals | src/guard.rs:207-212 | both totals are never negative |
| Guard.LogTotalsCons | src/guard.rs:207-212 | the first file's counts are added first in the totals |
| Guard.LogTotalsUnreadable | src/guard.rs:208 | with no readable file both counts are 0 |

## Left out

- The MD5 and Keccak-384 computations: they are parameters, known only by the length and alphabet of their output. No concrete key is computed.
- Clock readings: the report's generation time is an already formatted text, uptime takes the current second as a parameter, and the log-age test takes nanosecond readings. Calendar formatting is not modelled.
- The database (`src/database.rs`) is not part of this model. The gate sees the user as a record with a ban flag and a count. It returns the writes it asks for (ban, count, log) instead of performing them. A failed write is only logged by the source, so it does not change the reply.
- Telegram I/O: dispatch, dialogues, message sending and broadcast are not modelled. So are the other bot commands and the fixed texts of the invalid-code message, the user-information block and the usage guide.
- Bot.HandleMachineCode: the "generation failed" reply is not modelled, because `format_all_codes` cannot fail.
- Bot.HandleMachineCode: every reply is assumed to be sent. In the source a failed send returns early through `?`: a failed limit notice (bot.rs:313-316) returns before `ban_user` (bot.rs:319), so the over-limit sender is not banned. The codes reply is sent (bot.rs:415-417) after the count and the log entry are written, so its failure changes no write. The model always writes the ban.
- Bot.HandleMachineCode: a message without a sender would panic at `unwrap` in the source; the model takes the sender's id as given.
- The guard daemon's interval loops, its Telegram sends, backups, auto-repair and system probes are not modelled. The machine readings are fields of `HealthCheck`.
- Guard.FormatHealthLabels: covers the labels only. The report text around them uses `{:.1}` float formatting, process data and dates, which are not modelled. Usages are reals, so NaN is not modelled.
- Guard.AnalyzeLogs: the counts are unbounded integers. The source's `i64` additions cannot realistically overflow, so this is not modelled.
- `format_file_size`, `cleanup_logs`, `validate_environment` and the network and system probes of `src/utils.rs` are not modelled. They rely on floating point, globbing and the file system.
- Utils.CalculateUptime: requires the start time to be no later than now. Otherwise the source's `u64` subtraction panics in a debug build and wraps to a huge uptime in a release build; neither is modelled.
- Configuration.Load: an environment value that is not valid Unicode makes `env::var` fail. That is treated as unset only where the source falls back to a default; the model does not represent such values at all.
- `src/main.rs` only dispatches command-line subcommands and is not part of this model.
