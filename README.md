# verifly-cli: a Dafny model of the command-line core

Verifly is a command-line e-mail verification tool (`bin/verifly.js`). This project
models its core and proves properties of the model:

- **offline classification** (`offlineValidate`): a shape check standing for the
  regular expression `^[^\s@]+@[^\s@]+\.[^\s@]+$`, and a lookup of the address's
  domain segment, lower-cased, in a fixed list of five disposable domains;
- **remote verification** (`apiRequest`, `verifyEmail`): the remote service is a
  parameter that gives the outcome of each exchange. A body that is not JSON, or a
  network error, becomes the record `{error: message}`;
- **the `verify-csv` batch**: the addresses are extracted from the file
  (`split('\n')`, `trim`, keep non-empty lines with an `@`). Each address then gets a
  record, offline when no key is configured and remote otherwise. The loop pushes
  one CSV row per address and increments exactly one of the valid, invalid and risky
  counters. The file is written as a header plus the rows;
- **the command arguments**: `config` (storing the key, and showing it masked as
  `****` plus its last four characters), `verify` (offline with `--offline` or
  without a key), `offline`, and the output path of `verify-csv` (`-o` first, then
  `--output`; otherwise the input name with its first `.csv` replaced by
  `-verified.csv`).

Modules, one file each:

- `Wrappers`: `Option` and `Result`.
- `Text`: the JavaScript string operations used, over `seq<char>`.
- `Api`: the response record and the remote call.
- `Offline`: the offline classifier.
- `Batch`: extraction, rows, counters, the loop (`RunBatch`, a method with loop
  invariants) and the output text.
- `Cli`: the commands, the output path, and `VerifyCsv`, the command as a method
  from its arguments, the file's content, the key and the remote service to the
  written text and the counters.

Behaviour of the code that the model keeps as written:

- The disposable lookup uses `email.split('@')[1]`. That is the text after the
  *first* `@`, up to the next `@` or the end, not everything after the last `@`.
  For every address that passes the shape check, this segment is the whole text
  after its only `@` (`Offline.WellFormedDomain`). For `l@m@r` the lookup sees `m`
  alone (`Offline.SegmentStopsAtSecondAt`).
- The list is matched exactly, after ASCII lower-casing. A subdomain of a listed
  domain is not disposable (`Offline.SubdomainExample`).
- There are only three counters, with no separate error status. A failed remote call
  gets a row showing `undefined` and is counted as risky (`Batch.FailedCallIsRisky`).
- `verify-csv` ignores `--offline`: its per-address step goes offline only when no
  key is set. `verify` goes offline also on `--offline`, so the two differ exactly
  when `--offline` is given with a key (`Cli.OfflineRoutesAgree`).

- An input name without `.csv` is also the default output name, so the results
  overwrite the input (`Cli.NoExtensionOverwritesInput`).
- A trailing `-o` with nothing after it still runs the whole batch, and only then
  fails, at the write (`Cli.VerifyCsv`).
- With zero addresses, the output is the header followed by a line break.

## Model

| member | source | states |
|---|---|---|
| `Text.IndexOf` | bin/verifly.js:228 | `indexOf`: None exactly when absent; otherwise a position holding the element with none before it |
| `Text.Trim` | bin/verifly.js:237 | `trim`: the result is no longer and has no white space at either end |
| `Text.TrimInfix` | bin/verifly.js:237 | the trimmed line is an infix of the line, with only white space cut at each end |
| `Text.TrimIdentity` | bin/verifly.js:237 | trimming leaves a string unchanged exactly when it has no white space at either end |
| `Text.Split` | bin/verifly.js:236 | `split` with one character: at least one piece, and no piece contains the separator |
| `Text.SplitAround` | bin/verifly.js:236 | splitting distributes over one separator: `split(a+c+b) = split(a) ++ split(b)` |
| `Text.JoinSplit` | bin/verifly.js:236 | joining the pieces of a split with the separator restores the text |
| `Text.SplitJoin` | bin/verifly.js:257 | splitting a join restores the pieces when none holds the separator |
| `Text.FindSub` | bin/verifly.js:229 | a found position is an occurrence with none earlier; None means no occurrence anywhere |
| `Text.ReplaceFirst` | bin/verifly.js:229 | `replace` with a string pattern: unchanged without an occurrence, otherwise only the first occurrence replaced |
| `Text.LastChars` | bin/verifly.js:178 | `slice(-n)`: a suffix of length `min(n, length)` |
| `Text.LowerAscii` | bin/verifly.js:96 | `toLowerCase` on ASCII letters: same length, each character lowered |
| `Text.Join` | bin/verifly.js:257 | `join`; its meaning is stated by `Text.JoinSplit` and `Text.SplitJoin` |
| `Api.ApiRequest` | bin/verifly.js:62-76 | resolves with the parsed body, and rejects exactly when there is none: with `Invalid API response` for a body that is not JSON, with the error's own message for a network error |
| `Api.ErrorRecord` | bin/verifly.js:85 | the record `{error: message}`: only `error` is present; `Api.VerifyEmail` and `Batch.FailedCallIsRisky` state its use |
| `Api.VerifyEmail` | bin/verifly.js:80-87 | the parsed body, or `{error: message}` for a parse failure or a network error; never fails |
| `Offline.MatchesShape` | bin/verifly.js:91-92 | the language of the regular expression: an `@` and a later `.` cutting the address into three non-empty runs of characters that are neither white space nor `@` |
| `Offline.IsWellFormed` | bin/verifly.js:91-92 | the executable shape check; `Offline.WellFormedIsShape` proves it accepts exactly `MatchesShape` |
| `Offline.IsDisposable` | bin/verifly.js:95-97 | the lower-cased segment is one of the five listed domains; `Offline.ComposedVerdict`, `Offline.DisposableIgnoresCase` and `Offline.SubdomainExample` state its behaviour |
| `Offline.DomainSegment` | bin/verifly.js:96 | `split('@')[1]` is undefined exactly when the address has no `@` |
| `Offline.OfflineValidate` | bin/verifly.js:90-105 | the record carries the address, `offline: true`, `format` valid iff the address is in the regular expression's language, and the disposable flag |
| `Offline.WellFormedIsShape` | bin/verifly.js:91-92 | the shape check accepts exactly the language of `^[^\s@]+@[^\s@]+\.[^\s@]+$` |
| `Offline.FormatValidIff` | bin/verifly.js:91-92 | valid iff exactly one `@`, a non-empty local part, no white space, and a `.` inside the domain that is neither first nor last |
| `Offline.DomainSegmentIsAfterFirstAt` | bin/verifly.js:96 | the looked-up segment starts after the first `@` and runs to the next `@` or the end |
| `Offline.WellFormedDomain` | bin/verifly.js:96 | for a valid address, the segment is everything after its `@` |
| `Offline.NoAtSign` | bin/verifly.js:90-105 | an address without `@` is invalid and not disposable |
| `Offline.DisposableIgnoresCase` | bin/verifly.js:96-97 | addresses equal up to ASCII case get the same disposable flag |
| `Offline.ComposedAddress` | bin/verifly.js:91-96 | `local@domain` built from plain parts, with a dotted domain, is well formed and its segment is the domain |
| `Offline.ComposedVerdict` | bin/verifly.js:90-105 | such an address is valid, and disposable exactly when its lower-cased domain is listed; the flag is independent of the format |
| `Offline.MailinatorExample` | bin/verifly.js:90-105 | `user@mailinator.com` is valid and disposable |
| `Offline.NotAnEmailExample` | bin/verifly.js:90-105 | `not-an-email` is invalid and not disposable |
| `Offline.ListedLengths` | bin/verifly.js:95 | the list `disposableDomains`: its entries have 11, 12, 14, 16 or 17 characters |
| `Offline.SubdomainExample` | bin/verifly.js:95-97 | the match is exact, not by suffix: `u@a.yopmail.com` is valid and not disposable |
| `Offline.SegmentStopsAtSecondAt` | bin/verifly.js:96-97 | for `l@m@r` the lookup sees `m` alone |
| `Offline.TwoAtSignsInvalid` | bin/verifly.js:91-92 | an address with two `@` is invalid |
| `Batch.IsEmailLine` | bin/verifly.js:238 | the filter `line && line.includes('@')`: non-empty and holding `@` |
| `Batch.ExtractEmails` | bin/verifly.js:236-238 | the address list; `Batch.ExtractedEmailsAreClean`, `Batch.KeepsEveryQualifyingLine` and `Batch.ExtractEmailsOfLines` state what it keeps |
| `Batch.KeepEmails` | bin/verifly.js:237-238 | the map and filter never produce more lines than they are given |
| `Batch.KeepsEveryQualifyingLine` | bin/verifly.js:237-238 | every line that trims to an address is kept, placed right after the addresses of the lines before it |
| `Batch.KeepEmailsAppend` | bin/verifly.js:237-238 | trimming and filtering work line by line: they distribute over concatenation |
| `Batch.TrimKeepsOut` | bin/verifly.js:237 | trimming introduces no character the line lacks |
| `Batch.ExtractedEmailsAreClean` | bin/verifly.js:236-238 | every extracted address is non-empty, holds `@`, is trimmed and has no line break |
| `Batch.NoBreakSurvives` | bin/verifly.js:237-238 | lines without breaks give only clean addresses |
| `Batch.ExtractEmailsAppend` | bin/verifly.js:236-238 | the addresses of `a + "\n" + b` are those of `a` followed by those of `b` |
| `Batch.ExtractEmailsOfLines` | bin/verifly.js:236-238 | a file of clean addresses, one per line, yields exactly those addresses in order, duplicates kept |
| `Batch.KeepsCleanLines` | bin/verifly.js:237-238 | the map and filter keep lines that are already clean addresses unchanged |
| `Batch.NoAtSignNoEmails` | bin/verifly.js:238 | lines without `@` yield no address |
| `Batch.HasKey` | bin/verifly.js:244 | the key is truthy: present and not the empty string |
| `Batch.Lookup` | bin/verifly.js:244-246 | the record of the `i`-th address: `verifyEmail` of the `i`-th exchange with a truthy key, `offlineValidate` otherwise |
| `Batch.StatusText` | bin/verifly.js:248 | the status column: a truthy `result`, or else `format`, or else the text `undefined`; `Batch.FailedCallIsRisky`, `Batch.OfflineRecord` and `Batch.ValidCheckedFirst` state its values |
| `Batch.DisposableText` | bin/verifly.js:248 | the disposable column: always `true` or `false`, and `true` exactly when `disposable` is `true` |
| `Batch.Row` | bin/verifly.js:248 | a row begins with its address and a comma and ends with the disposable text |
| `Batch.Classify` | bin/verifly.js:250-252 | the counter a record increments; `Batch.Count` proves the source's if-chain increments exactly that counter |
| `Batch.TallyOf` | bin/verifly.js:250-252 | the counters after a sequence of records; `Batch.TallyCountsEach` shows they sum to the number of records |
| `Batch.Tally.Add` | bin/verifly.js:250-252 | exactly the verdict's counter goes up by one; the total grows by one |
| `Batch.LookupWith` | bin/verifly.js:244-246 | the per-address step: `verifyEmail` of the `i`-th exchange for every address with a truthy key, `offlineValidate` for every address otherwise |
| `Batch.Records` | bin/verifly.js:243-246 | one record per address |
| `Batch.OfflineRecords` | bin/verifly.js:244-246 | without a key each record is the offline check of its address |
| `Batch.Rows` | bin/verifly.js:248 | one row per address |
| `Batch.RowsFollowAddresses` | bin/verifly.js:243-248 | row `k` begins with address `k` and a comma |
| `Batch.TallyCountsEach` | bin/verifly.js:250-252 | the three counters add up to the number of records |
| `Batch.Count` | bin/verifly.js:250-252 | the if-chain increments the counter `Classify` names and leaves the others |
| `Batch.RunBatch` | bin/verifly.js:240-255 | the loop produces the rows of the records in order and the tally of the records, which sums to the number of addresses |
| `Batch.OutputText` | bin/verifly.js:257 | the written text starts with the header line `email,status,disposable` |
| `Batch.OutputLines` | bin/verifly.js:257 | the written text splits into the header and the rows (an empty line when there are none) |
| `Batch.OfflineRecord` | bin/verifly.js:244-252 | offline, the counter and the row follow the shape check and the disposable flag |
| `Batch.FailedCallIsRisky` | bin/verifly.js:248-252 | a failed remote call is counted risky and its row is `email,undefined,false` |
| `Batch.ValidCheckedFirst` | bin/verifly.js:250-251 | a valid `format` counts as valid whatever `result` says, even where the row shows that `result` |
| `Batch.OfflineVerdict` | bin/verifly.js:250-251 | an offline record is counted valid or invalid by the shape check, never risky |
| `Batch.TallyFollowsFlags` | bin/verifly.js:250-252 | records each valid or invalid as a flag says tally the set flags as valid and nothing as risky |
| `Batch.OfflineTally` | bin/verifly.js:243-252 | offline records: no risky, valid counts the well-formed addresses, valid plus invalid is all |
| `Batch.OfflineBatchHasNoRisky` | bin/verifly.js:241-252 | without a key the batch has no risky address, and valid counts the well-formed ones |
| `Batch.NoBreakInRow` | bin/verifly.js:248 | an offline row of an address without a break has no break |
| `Batch.OfflineRowsHaveNoBreak` | bin/verifly.js:248 | no offline row holds a line break |
| `Batch.OfflineOutputReadsBack` | bin/verifly.js:235-257 | offline, the written file reads back as the header and exactly one row per extracted address |
| `Cli.ConfigKey` | bin/verifly.js:172-173 | `config --key K` with a truthy `K` stores `K`; anything else keeps the key |
| `Cli.ShownKey` | bin/verifly.js:178 | `Not set` without a key; otherwise `****` and the key's last (up to) four characters |
| `Cli.ShownKeyIgnoresPrefix` | bin/verifly.js:178 | keys of four or more characters that end alike are shown alike |
| `Cli.VerifyCommand` | bin/verifly.js:184-203 | an error exactly when the address is missing or empty; offline with `--offline` or without a key, else the first remote call |
| `Cli.OfflineCommand` | bin/verifly.js:206-214 | an error exactly when the address is missing or empty; otherwise `offlineValidate` of that address |
| `Cli.OfflineFlagMeansOfflineCommand` | bin/verifly.js:191-192 | with `--offline`, `verify` behaves as `offline` whatever the key |
| `Cli.VerifyRunsOffline` | bin/verifly.js:191 | the single check runs offline on `--offline` or without a truthy key |
| `Cli.OfflineRoutesAgree` | bin/verifly.js:244 | `verify` gives the record the batch step (line 244) gives the same address as its first, except with `--offline` and a key, where `verify` is offline and the batch step asks the remote service |
| `Cli.ConfiguredKeyGoesRemote` | bin/verifly.js:191 | after `config --key K`, `verify` without `--offline` goes remote |
| `Cli.OutputFlagIndex` | bin/verifly.js:228 | the first `-o`, or else the first `--output`; None when neither is present |
| `Cli.OutputPath` | bin/verifly.js:228-229 | the argument after the flag (None when the flag is last), or the input name with its first `.csv` replaced |
| `Cli.DefaultOutputName` | bin/verifly.js:229 | `stem.csv` + rest becomes `stem-verified.csv` + rest when `stem` holds no `.csv` |
| `Cli.NoExtensionOverwritesInput` | bin/verifly.js:229 | without a flag, a name without `.csv` is its own output name |
| `Cli.VerifyCsv` | bin/verifly.js:216-257 | the three argument and file errors; otherwise the output path, the header and rows of the records, and a tally summing to the number of extracted addresses |

## Left out

- HTTPS, the request options and JSON parsing. The remote service is a parameter that
  gives, for each call, a parsed record, a body that is not JSON, or a network error
  with its message. JSON values other than strings and booleans, `null`, and bodies
  that are not objects are not represented.
- `encodeURIComponent`, the bearer header and the user agent are folded into the
  remote-service parameter.
- Reading and writing the configuration file (`loadConfig`, `saveConfig`) and the
  home-directory path. The stored key is a parameter, and `Cli.ConfigKey` gives the
  key that is saved.
- File-system behaviour beyond "file not found". The file's content is a parameter.
  A write that fails for reasons other than an undefined output path is not modelled.
- Console output: the banner, the help text, `printResult`, the tip lines, the progress
  line and the summary. The role-account flag is only printed, so it is not modelled.
- The command dispatch `switch`, the unknown-command branch and the top-level
  `catch`. Each command is its own function or method.
- The `stats` command: one remote call whose result is only printed.
- The `-k/--key` option: it is listed in the help text but has no code.
- `Cli.ShownKey`: JavaScript's `slice(-4)` counts UTF-16 code units, while a Dafny
  string holds code points. A key ending in a character outside the Basic Multilingual
  Plane is masked differently. The other string operations used give the same results
  on code points.
- `Text.LowerAscii`: lowers ASCII letters only, not the full Unicode `toLowerCase`.
  Every listed domain is ASCII, but a non-ASCII segment that JavaScript would lower
  into one of them is not covered.
- `await` and concurrency: the calls are modelled in sequence. The `i`-th call is the
  remote-service parameter applied to the `i`-th address.
