/** The commands of the command line: `config`, `verify`, `offline` and `verify-csv`,
    each as a function of its arguments, the stored key, the input file and the remote
    service. */
module Cli {
  import opened Wrappers
  import opened Text
  import opened Api
  import opened Offline
  import opened Batch

  /** The ways a command stops with an error message and exit status 1. */
  datatype CliError =
    | MissingEmail
    | MissingCsvFile
    | FileNotFound(path: string)
    | MissingOutputPath

  /** What `verify-csv` writes and reports: the output path, the text written to it and
      the three counters. */
  datatype CsvReport = CsvReport(outputPath: string, written: string, tally: Tally)

  // ------------------------------------------------------------------ config

  /** `config --key K` with a truthy `K` stores `K`; any other `config` leaves the key
      as it was (and only shows it). */
  function ConfigKey(args: seq<string>, apiKey: Option<string>): (k: Option<string>)
    ensures |args| >= 3 && args[1] == "--key" && args[2] != "" ==> k == Some(args[2]) && HasKey(k)
    ensures !(|args| >= 3 && args[1] == "--key" && args[2] != "") ==> k == apiKey
  {
    if |args| >= 3 && args[1] == "--key" && args[2] != "" then Some(args[2]) else apiKey
  }

  /** The key as `config` shows it: four stars and at most the last four characters,
      or `Not set`. */
  function ShownKey(apiKey: Option<string>): (r: string)
    ensures !HasKey(apiKey) ==> r == "Not set"
    ensures HasKey(apiKey) ==>
      var k := apiKey.value;
      5 <= |r| <= 8 && |r| - 4 <= |k| && r[..4] == "****" && r[4..] == k[|k| - (|r| - 4)..] &&
      (|k| >= 4 ==> |r| == 8) && (|k| < 4 ==> r[4..] == k)
  {
    if HasKey(apiKey) then "****" + LastChars(apiKey.value, 4) else "Not set"
  }

  /** A key of four characters or more is shown by its last four alone: two keys that
      end alike are shown alike. */
  lemma ShownKeyIgnoresPrefix(a: string, b: string, tail: string)
    requires |tail| == 4
    ensures ShownKey(Some(a + tail)) == ShownKey(Some(b + tail))
  {
    assert (a + tail)[|a + tail| - 4..] == tail;
    assert (b + tail)[|b + tail| - 4..] == tail;
  }

  // ------------------------------------------------------------ verify, offline

  /** `args.includes('--offline') || !config.apiKey`: the single check runs offline. */
  predicate VerifyRunsOffline(args: seq<string>, apiKey: Option<string>)
  {
    "--offline" in args || !HasKey(apiKey)
  }

  /** `verify <email>`: a missing or empty address is an error; otherwise the offline
      check or the remote record (the first call of the session). */
  function VerifyCommand(args: seq<string>, apiKey: Option<string>, remote: Remote): (r: Result<Response, CliError>)
    ensures r.Err? <==> |args| < 2 || args[1] == ""
    ensures r.Err? ==> r.error == MissingEmail
    ensures r.Ok? && VerifyRunsOffline(args, apiKey) ==> r.value == OfflineValidate(args[1])
    ensures r.Ok? && !VerifyRunsOffline(args, apiKey) ==> r.value == VerifyEmail(remote(args[1], 0))
  {
    if |args| < 2 || args[1] == "" then Err(MissingEmail)
    else if VerifyRunsOffline(args, apiKey) then Ok(OfflineValidate(args[1]))
    else Ok(VerifyEmail(remote(args[1], 0)))
  }

  /** `offline <email>`: the offline check of the given address. */
  function OfflineCommand(args: seq<string>): (r: Result<Response, CliError>)
    ensures r.Err? <==> |args| < 2 || args[1] == ""
    ensures r.Err? ==> r.error == MissingEmail
    ensures r.Ok? ==> r.value == OfflineValidate(args[1])
    ensures r.Ok? ==> r.value.offline == Some(true) && r.value.email == Some(args[1])
  {
    if |args| < 2 || args[1] == "" then Err(MissingEmail) else Ok(OfflineValidate(args[1]))
  }

  /** With `--offline` among the arguments, `verify` is `offline`, whatever the key. */
  lemma OfflineFlagMeansOfflineCommand(args: seq<string>, apiKey: Option<string>, remote: Remote)
    requires "--offline" in args
    ensures VerifyCommand(args, apiKey, remote) == OfflineCommand(args)
  {
  }

  /** `verify-csv` ignores `--offline`: its per-address step goes offline only when no
      key is set. So `verify` gives the record the batch gives the same address as
      its first one, except when `--offline` is given with a key: then `verify` is
      offline while the batch asks the remote service. */
  lemma OfflineRoutesAgree(args: seq<string>, apiKey: Option<string>, remote: Remote)
    requires |args| >= 2 && args[1] != ""
    ensures !("--offline" in args && HasKey(apiKey)) ==>
      VerifyCommand(args, apiKey, remote) == Ok(Lookup(args[1], 0, apiKey, remote))
    ensures "--offline" in args && HasKey(apiKey) ==>
      VerifyCommand(args, apiKey, remote) == Ok(OfflineValidate(args[1])) &&
      Lookup(args[1], 0, apiKey, remote) == VerifyEmail(remote(args[1], 0))
  {
  }

  /** Once `config --key` has stored a truthy key, `verify` without `--offline` asks
      the remote service. */
  lemma ConfiguredKeyGoesRemote(configArgs: seq<string>, apiKey: Option<string>, args: seq<string>)
    requires |configArgs| >= 3 && configArgs[1] == "--key" && configArgs[2] != ""
    requires "--offline" !in args
    ensures !VerifyRunsOffline(args, ConfigKey(configArgs, apiKey))
  {
  }

  // ------------------------------------------------------------ output path

  const CsvExtension: string := ".csv"
  const VerifiedSuffix: string := "-verified.csv"

  /** The position of the output flag: the first `-o`, or else the first `--output`. */
  function OutputFlagIndex(args: seq<string>): (r: Option<nat>)
    ensures r.None? <==> "-o" !in args && "--output" !in args
    ensures "-o" in args ==> r.Some? && r.value < |args| && args[r.value] == "-o" && "-o" !in args[..r.value]
    ensures "-o" !in args && "--output" in args ==>
      r.Some? && r.value < |args| && args[r.value] == "--output" && "--output" !in args[..r.value]
  {
    match IndexOf(args, "-o")
    case Some(i) => Some(i)
    case None => IndexOf(args, "--output")
  }

  /** The output path: the argument after the flag (None when the flag is the last
      argument), or else the input name with its first `.csv` replaced by
      `-verified.csv`. */
  function OutputPath(args: seq<string>, csvFile: string): (r: Option<string>)
    ensures OutputFlagIndex(args).Some? ==>
      var i := OutputFlagIndex(args).value;
      (r.Some? <==> i + 1 < |args|) && (r.Some? ==> r.value == args[i + 1])
    ensures OutputFlagIndex(args).None? ==> r == Some(ReplaceFirst(csvFile, CsvExtension, VerifiedSuffix))
  {
    match OutputFlagIndex(args)
    case Some(i) => if i + 1 < |args| then Some(args[i + 1]) else None
    case None => Some(ReplaceFirst(csvFile, CsvExtension, VerifiedSuffix))
  }

  /** The default name replaces the first `.csv` of the input name, even inside it:
      `stem.csv` + `rest` becomes `stem-verified.csv` + `rest` when `stem` holds no
      `.csv`. Since `.csv` cannot overlap itself, no earlier occurrence can straddle
      the end of `stem`. */
  lemma DefaultOutputName(stem: string, rest: string)
    requires forall j: nat :: !OccursAt(stem, CsvExtension, j)
    ensures ReplaceFirst(stem + CsvExtension + rest, CsvExtension, VerifiedSuffix) == stem + VerifiedSuffix + rest
  {
    var s := stem + CsvExtension + rest;
    var n := |stem|;
    assert s[n..n + 4] == CsvExtension;
    forall j: nat | j < n ensures !OccursAt(s, CsvExtension, j) {
      if j + 4 <= n {
        assert s[j..j + 4] == stem[j..j + 4];
        assert !OccursAt(stem, CsvExtension, j);
      } else {
        assert s[j..j + 4][n - j] == '.';
        assert CsvExtension[n - j] != '.';
      }
    }
    assert s[..n] == stem;
    assert s[n + 4..] == rest;
  }

  /** Without an output flag, an input name without `.csv` is also the output name: the
      results overwrite the input file. */
  lemma NoExtensionOverwritesInput(args: seq<string>, csvFile: string)
    requires "-o" !in args && "--output" !in args
    requires forall j: nat :: !OccursAt(csvFile, CsvExtension, j)
    ensures OutputPath(args, csvFile) == Some(csvFile)
  {
  }

  // ------------------------------------------------------------- verify-csv

  /** `verify-csv <file>`: the argument checks, the batch over the extracted addresses
      (always offline without a key), and the write, which fails after the batch when
      the output flag has no argument. `fileContent` is the file's text, None when it
      does not exist. */
  method VerifyCsv(args: seq<string>, fileContent: Option<string>, apiKey: Option<string>, remote: Remote)
    returns (r: Result<CsvReport, CliError>)
    ensures |args| < 2 || args[1] == "" ==> r == Err(MissingCsvFile)
    ensures |args| >= 2 && args[1] != "" && fileContent.None? ==> r == Err(FileNotFound(args[1]))
    ensures |args| >= 2 && args[1] != "" && fileContent.Some? && OutputPath(args, args[1]).None? ==>
      r == Err(MissingOutputPath)
    ensures |args| >= 2 && args[1] != "" && fileContent.Some? && OutputPath(args, args[1]).Some? ==>
      var emails := ExtractEmails(fileContent.value);
      r == Ok(CsvReport(OutputPath(args, args[1]).value,
                        OutputText(Rows(emails, Records(emails, LookupWith(apiKey, remote)))),
                        TallyOf(Records(emails, LookupWith(apiKey, remote)))))
    ensures r.Ok? ==> r.value.tally.Total() == |ExtractEmails(fileContent.value)|
  {
    if |args| < 2 || args[1] == "" {
      return Err(MissingCsvFile);
    }
    var csvFile := args[1];
    if fileContent.None? {
      return Err(FileNotFound(csvFile));
    }
    var outputFile := OutputPath(args, csvFile);
    var emails := ExtractEmails(fileContent.value);
    var results, valid, invalid, risky := RunBatch(emails, LookupWith(apiKey, remote));
    if outputFile.None? {
      return Err(MissingOutputPath);
    }
    r := Ok(CsvReport(outputFile.value, OutputText(results), Tally(valid, invalid, risky)));
  }
}
