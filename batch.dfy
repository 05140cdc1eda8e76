/** The batch pipeline of `verify-csv`: extracting addresses from the file content,
    classifying each (offline, or through the remote service), one CSV row and one
    tally increment per address, and the text written to the output file. */
module Batch {
  import opened Wrappers
  import opened Text
  import opened Api
  import opened Offline

  // ---------------------------------------------------------- line extraction

  /** The filter `line && line.includes('@')`. */
  predicate IsEmailLine(t: string)
  {
    t != "" && '@' in t
  }

  /** `lines.map(line => line.trim()).filter(...)`, keeping order and duplicates. */
  function KeepEmails(lines: seq<string>): (r: seq<string>)
    ensures |r| <= |lines|
  {
    if |lines| == 0 then []
    else
      var t := Trim(lines[0]);
      (if IsEmailLine(t) then [t] else []) + KeepEmails(lines[1..])
  }

  /** The address list: `content.split('\n').map(trim).filter(...)`. */
  function ExtractEmails(content: string): seq<string>
  {
    KeepEmails(Split(content, '\n'))
  }

  lemma {:induction false} KeepEmailsAppend(x: seq<string>, y: seq<string>)
    ensures KeepEmails(x + y) == KeepEmails(x) + KeepEmails(y)
    decreases |x|
  {
    if |x| > 0 {
      assert (x + y)[1..] == x[1..] + y;
      KeepEmailsAppend(x[1..], y);
      var t := Trim(x[0]);
      AppendAssoc(if IsEmailLine(t) then [t] else [], KeepEmails(x[1..]), KeepEmails(y));
    } else {
      assert x + y == y;
    }
  }

  /** Every qualifying line is kept, at its place: a line that trims to a non-empty
      text with `@` contributes that trimmed text right after the addresses of the
      lines before it. */
  lemma KeepsEveryQualifyingLine(lines: seq<string>, j: nat)
    requires j < |lines| && IsEmailLine(Trim(lines[j]))
    ensures |KeepEmails(lines[..j])| < |KeepEmails(lines)|
    ensures KeepEmails(lines)[|KeepEmails(lines[..j])|] == Trim(lines[j])
  {
    KeepEmailsSplitAt(lines, j);
    KeptFirst(lines[j..]);
  }

  lemma KeepEmailsSplitAt(lines: seq<string>, j: nat)
    requires j <= |lines|
    ensures KeepEmails(lines) == KeepEmails(lines[..j]) + KeepEmails(lines[j..])
  {
    assert lines == lines[..j] + lines[j..];
    KeepEmailsAppend(lines[..j], lines[j..]);
  }

  lemma KeptFirst(lines: seq<string>)
    requires |lines| > 0 && IsEmailLine(Trim(lines[0]))
    ensures |KeepEmails(lines)| > 0 && KeepEmails(lines)[0] == Trim(lines[0])
  {
  }

  /** A trimmed piece of a line holds no character the line does not. */
  lemma TrimKeepsOut(s: string, c: char)
    requires c !in s
    ensures c !in Trim(s)
  {
    var a, b := TrimInfix(s);
  }

  /** Every extracted address is clean. */
  lemma {:induction false} ExtractedEmailsAreClean(content: string)
    ensures forall k :: 0 <= k < |ExtractEmails(content)| ==> IsCleanEmail(ExtractEmails(content)[k])
  {
    NoBreakSurvives(Split(content, '\n'));
  }

  /** What every extracted address satisfies: non-empty, containing `@`, no white
      space at either end and no line break inside. */
  predicate IsCleanEmail(e: string)
  {
    IsEmailLine(e) && IsTrimmed(e) && '\n' !in e
  }

  lemma {:induction false} NoBreakSurvives(lines: seq<string>)
    requires forall k :: 0 <= k < |lines| ==> '\n' !in lines[k]
    ensures forall k :: 0 <= k < |KeepEmails(lines)| ==> IsCleanEmail(KeepEmails(lines)[k])
    decreases |lines|
  {
    if |lines| > 0 {
      KeepEmailsSplitAt(lines, 1);
      CleanFirst(lines);
      NoBreakSurvives(lines[1..]);
      AllCleanConcat(KeepEmails(lines[..1]), KeepEmails(lines[1..]));
    }
  }

  /** A first line without a break gives clean addresses only. */
  lemma CleanFirst(lines: seq<string>)
    requires |lines| > 0 && '\n' !in lines[0]
    ensures forall k :: 0 <= k < |KeepEmails(lines[..1])| ==> IsCleanEmail(KeepEmails(lines[..1])[k])
  {
    TrimKeepsOut(lines[0], '\n');
    assert lines[..1][1..] == [];
  }

  lemma AllCleanConcat(a: seq<string>, b: seq<string>)
    requires forall k :: 0 <= k < |a| ==> IsCleanEmail(a[k])
    requires forall k :: 0 <= k < |b| ==> IsCleanEmail(b[k])
    ensures forall k :: 0 <= k < |a + b| ==> IsCleanEmail((a + b)[k])
  {
    forall k | 0 <= k < |a + b| ensures IsCleanEmail((a + b)[k]) {
      if k < |a| {
        assert (a + b)[k] == a[k];
      } else {
        assert (a + b)[k] == b[k - |a|];
      }
    }
  }

  /** Extraction works line by line: the addresses of two chunks joined by a line break
      are those of the first chunk followed by those of the second. */
  lemma ExtractEmailsAppend(a: string, b: string)
    ensures ExtractEmails(a + "\n" + b) == ExtractEmails(a) + ExtractEmails(b)
  {
    SplitAround(a, '\n', b);
    KeepEmailsAppend(Split(a, '\n'), Split(b, '\n'));
  }

  /** A file holding one clean address per line yields exactly those addresses, in
      order and with duplicates; an empty list comes from the empty file. */
  lemma {:induction false} ExtractEmailsOfLines(es: seq<string>)
    requires forall k :: 0 <= k < |es| ==> IsCleanEmail(es[k])
    ensures ExtractEmails(Join(es, "\n")) == es
  {
    if |es| == 0 {
      SplitWithout("", '\n');
      assert Trim("") == "";
    } else {
      SplitJoin(es, '\n');
      KeepsCleanLines(es);
    }
  }

  lemma {:induction false} KeepsCleanLines(es: seq<string>)
    requires forall k :: 0 <= k < |es| ==> IsEmailLine(es[k]) && IsTrimmed(es[k])
    ensures KeepEmails(es) == es
    decreases |es|
  {
    if |es| > 0 {
      var rest := es[1..];
      assert es == [es[0]] + rest;
      assert KeepEmails(rest) == rest by {
        KeepsCleanLines(rest);
      }
      assert KeepEmails(es) == [es[0]] + KeepEmails(rest) by {
        KeepCleanHead(es[0], rest);
      }
    }
  }

  lemma KeepCleanHead(l: string, rest: seq<string>)
    requires IsEmailLine(l) && IsTrimmed(l)
    ensures KeepEmails([l] + rest) == [l] + KeepEmails(rest)
  {
    TrimIdentity(l);
    assert ([l] + rest)[1..] == rest;
  }

  /** Content without any `@` yields no address at all. */
  lemma {:induction false} NoAtSignNoEmails(lines: seq<string>)
    requires forall k :: 0 <= k < |lines| ==> '@' !in lines[k]
    ensures KeepEmails(lines) == []
    decreases |lines|
  {
    if |lines| > 0 {
      TrimKeepsOut(lines[0], '@');
      NoAtSignNoEmails(lines[1..]);
    }
  }

  // ------------------------------------------------------ one address, one row

  /** Whether the configured key is truthy (present and not the empty string). */
  predicate HasKey(apiKey: Option<string>)
  {
    apiKey.Some? && apiKey.value != ""
  }

  /** The record for the `i`-th address: `config.apiKey ? await verifyEmail(...) :
      offlineValidate(email)`. */
  function Lookup(email: string, i: nat, apiKey: Option<string>, remote: Remote): (r: Response)
    ensures HasKey(apiKey) ==> r == VerifyEmail(remote(email, i))
    ensures !HasKey(apiKey) ==> r == OfflineValidate(email) && r.offline == Some(true)
  {
    if HasKey(apiKey) then VerifyEmail(remote(email, i)) else OfflineValidate(email)
  }

  /** `result.result || result.format` inside a template literal: an absent `format`
      renders as `undefined`. */
  function StatusText(r: Response): string
  {
    if r.result.Some? && r.result.value != "" then r.result.value
    else match r.format
      case Some(f) => f
      case None => "undefined"
  }

  /** `result.disposable || false` inside a template literal. */
  function DisposableText(r: Response): (s: string)
    ensures s == "true" || s == "false"
    ensures s == "true" <==> r.disposable == Some(true)
  {
    if r.disposable == Some(true) then "true" else "false"
  }

  /** The CSV row `${email},${status},${disposable}`: it begins with the address and a
      comma and ends with the disposable text. */
  function Row(email: string, r: Response): (row: string)
    ensures |row| > |email| && row[..|email| + 1] == email + ","
    ensures |row| >= |DisposableText(r)| && row[|row| - |DisposableText(r)|..] == DisposableText(r)
  {
    var front := email + ",";
    var status := front + StatusText(r);
    var body := status + ",";
    var d := DisposableText(r);
    PrefixThroughAppend(front, StatusText(r), |front|);
    PrefixThroughAppend(status, ",", |front|);
    PrefixThroughAppend(body, d, |front|);
    SuffixOfAppend(body, d);
    body + d
  }

  datatype Verdict = Valid | Invalid | Risky

  /** The counter a record increments: valid is checked first (on either property),
      then invalid, and everything else is risky. */
  function Classify(r: Response): Verdict
  {
    if r.result == Some("valid") || r.format == Some("valid") then Valid
    else if r.result == Some("invalid") || r.format == Some("invalid") then Invalid
    else Risky
  }

  datatype Tally = Tally(valid: nat, invalid: nat, risky: nat)
  {
    function Total(): nat
    {
      valid + invalid + risky
    }

    function Add(v: Verdict): (t: Tally)
      ensures t.Total() == Total() + 1
      ensures v == Valid ==> t.valid == valid + 1 && t.invalid == invalid && t.risky == risky
      ensures v == Invalid ==> t.valid == valid && t.invalid == invalid + 1 && t.risky == risky
      ensures v == Risky ==> t.valid == valid && t.invalid == invalid && t.risky == risky + 1
    {
      match v
      case Valid => this.(valid := valid + 1)
      case Invalid => this.(invalid := invalid + 1)
      case Risky => this.(risky := risky + 1)
    }
  }

  // ------------------------------------------------------------- whole batch

  /** The per-address step of the loop: the record for the `i`-th address. The
      command passes `Lookup` with its key and remote service (`LookupWith`). */
  type Check = (string, nat) -> Response

  /** `Lookup` with the key and the remote service fixed. */
  function LookupWith(apiKey: Option<string>, remote: Remote): (check: Check)
    ensures forall e, i :: check(e, i) == Lookup(e, i, apiKey, remote)
    ensures HasKey(apiKey) ==> forall e, i :: check(e, i) == VerifyEmail(remote(e, i))
    ensures !HasKey(apiKey) ==> forall e, i :: check(e, i) == OfflineValidate(e)
  {
    (e: string, i: nat) => Lookup(e, i, apiKey, remote)
  }

  /** The record of every address, in input order; the `k`-th record is made for the
      `k`-th address. */
  function Records(emails: seq<string>, check: Check): (rs: seq<Response>)
    ensures |rs| == |emails|
  {
    seq(|emails|, k requires 0 <= k < |emails| => check(emails[k], k))
  }

  /** Without a key every record is the offline check of its address. */
  lemma OfflineRecords(emails: seq<string>, apiKey: Option<string>, remote: Remote)
    requires !HasKey(apiKey)
    ensures forall k :: 0 <= k < |emails| ==>
      Records(emails, LookupWith(apiKey, remote))[k] == OfflineValidate(emails[k])
  {
  }

  /** The rows for the addresses and their records, in input order. */
  function Rows(emails: seq<string>, rs: seq<Response>): (rows: seq<string>)
    requires |rs| == |emails|
    ensures |rows| == |emails|
  {
    seq(|emails|, k requires 0 <= k < |emails| => Row(emails[k], rs[k]))
  }

  /** The counters after the given records, one increment per record. */
  function TallyOf(rs: seq<Response>): Tally
  {
    if |rs| == 0 then Tally(0, 0, 0) else TallyOf(rs[..|rs| - 1]).Add(Classify(rs[|rs| - 1]))
  }

  /** One row per address, in order: row `k` begins with address `k` and a comma. */
  lemma RowsFollowAddresses(emails: seq<string>, rs: seq<Response>)
    requires |rs| == |emails|
    ensures |Rows(emails, rs)| == |emails|
    ensures forall k :: 0 <= k < |emails| ==> Rows(emails, rs)[k][..|emails[k]| + 1] == emails[k] + ","
  {
    forall k | 0 <= k < |emails| ensures Rows(emails, rs)[k][..|emails[k]| + 1] == emails[k] + "," {
      assert Rows(emails, rs)[k] == Row(emails[k], rs[k]);
    }
  }

  /** Each record increments exactly one counter, so the counters add up to the number
      of records. */
  lemma {:induction false} TallyCountsEach(rs: seq<Response>)
    ensures TallyOf(rs).Total() == |rs|
  {
    if |rs| > 0 {
      TallyCountsEach(rs[..|rs| - 1]);
    }
  }

  /** Rows grow one address at a time. */
  lemma RowsSnoc(emails: seq<string>, rs: seq<Response>, e: string, r: Response)
    requires |rs| == |emails|
    ensures Rows(emails + [e], rs + [r]) == Rows(emails, rs) + [Row(e, r)]
  {
    var a := Rows(emails + [e], rs + [r]);
    var b := Rows(emails, rs) + [Row(e, r)];
    forall k | 0 <= k < |a| ensures a[k] == b[k] {
      if k < |emails| {
        assert (emails + [e])[k] == emails[k] && (rs + [r])[k] == rs[k];
      } else {
        assert (emails + [e])[k] == e && (rs + [r])[k] == r;
      }
    }
  }

  /** The counters grow one record at a time. */
  lemma TallySnoc(rs: seq<Response>, r: Response)
    ensures TallyOf(rs + [r]) == TallyOf(rs).Add(Classify(r))
  {
    assert (rs + [r])[..|rs|] == rs;
  }

  /** The counter update after each row: valid is checked first, then invalid, and
      anything else is risky. */
  method Count(result: Response, valid: nat, invalid: nat, risky: nat)
    returns (valid': nat, invalid': nat, risky': nat)
    ensures Tally(valid', invalid', risky') == Tally(valid, invalid, risky).Add(Classify(result))
  {
    valid', invalid', risky' := valid, invalid, risky;
    if result.result == Some("valid") || result.format == Some("valid") {
      valid' := valid + 1;
    } else if result.result == Some("invalid") || result.format == Some("invalid") {
      invalid' := invalid + 1;
    } else {
      risky' := risky + 1;
    }
  }

  /** The `for (const email of emails)` loop: one row pushed and exactly one counter
      incremented per address, the record of each coming from `check`. */
  method RunBatch(emails: seq<string>, check: Check)
    returns (results: seq<string>, valid: nat, invalid: nat, risky: nat)
    ensures results == Rows(emails, Records(emails, check))
    ensures Tally(valid, invalid, risky) == TallyOf(Records(emails, check))
    ensures valid + invalid + risky == |emails|
  {
    results := [];
    valid, invalid, risky := 0, 0, 0;
    ghost var records: seq<Response> := [];
    for i := 0 to |emails|
      invariant records == Records(emails[..i], check)
      invariant results == Rows(emails[..i], records)
      invariant Tally(valid, invalid, risky) == TallyOf(records)
    {
      var email := emails[i];
      var result := check(email, i);
      BatchStep(emails, check, i, records, results);
      results := results + [Row(email, result)];
      valid, invalid, risky := Count(result, valid, invalid, risky);
      records := records + [result];
    }
    assert emails[..|emails|] == emails;
    TallyCountsEach(records);
  }

  /** One turn of the loop extends the records, the rows and the counters by the
      next address. */
  lemma BatchStep(emails: seq<string>, check: Check, i: nat, records: seq<Response>, results: seq<string>)
    requires i < |emails| && records == Records(emails[..i], check) && results == Rows(emails[..i], records)
    ensures records + [check(emails[i], i)] == Records(emails[..i + 1], check)
    ensures results + [Row(emails[i], check(emails[i], i))] == Rows(emails[..i + 1], records + [check(emails[i], i)])
    ensures TallyOf(records + [check(emails[i], i)]) == TallyOf(records).Add(Classify(check(emails[i], i)))
  {
    var r := check(emails[i], i);
    RecordsSnoc(emails, check, i);
    assert emails[..i + 1] == emails[..i] + [emails[i]];
    RowsSnoc(emails[..i], records, emails[i], r);
    TallySnoc(records, r);
  }

  lemma RecordsSnoc(emails: seq<string>, check: Check, i: nat)
    requires i < |emails|
    ensures Records(emails[..i + 1], check) == Records(emails[..i], check) + [check(emails[i], i)]
  {
    var a := Records(emails[..i + 1], check);
    var b := Records(emails[..i], check) + [check(emails[i], i)];
    forall k | 0 <= k < |a| ensures a[k] == b[k] {
      assert emails[..i + 1][k] == emails[k];
      if k < i {
        assert emails[..i][k] == emails[k];
      }
    }
  }

  // ------------------------------------------------------------- output text

  const Header: string := "email,status,disposable"

  /** `'email,status,disposable\n' + results.join('\n')`. */
  function OutputText(rows: seq<string>): (text: string)
    ensures |text| > |Header| && text[..|Header| + 1] == Header + "\n"
  {
    Header + "\n" + Join(rows, "\n")
  }

  /** Read back line by line, the output is the header and then the rows; with no rows
      the header is followed by one empty line, and there is never a line after the
      last row. */
  lemma OutputLines(rows: seq<string>)
    requires forall k :: 0 <= k < |rows| ==> '\n' !in rows[k]
    ensures Split(OutputText(rows), '\n') == [Header] + (if rows == [] then [""] else rows)
  {
    assert '\n' !in Header;
    SplitAfterPiece(Header, '\n', Join(rows, "\n"));
    if rows == [] {
      SplitWithout("", '\n');
    } else {
      SplitJoin(rows, '\n');
    }
  }

  // ------------------------------------------------------------------ lemmas

  /** Offline, the counter follows the shape check alone and the row carries `valid` or
      `invalid` and the disposable flag. */
  lemma OfflineRecord(email: string, i: nat, apiKey: Option<string>, remote: Remote)
    requires !HasKey(apiKey)
    ensures Classify(Lookup(email, i, apiKey, remote)) == if MatchesShape(email) then Valid else Invalid
    ensures Row(email, Lookup(email, i, apiKey, remote)) ==
      email + "," + (if MatchesShape(email) then "valid" else "invalid") + "," +
      (if IsDisposable(email) then "true" else "false")
  {
  }

  /** A failed remote call (network error or a body that is not JSON) is counted as
      risky, and its row shows `undefined` and `false`. */
  lemma FailedCallIsRisky(email: string, i: nat, apiKey: Option<string>, remote: Remote)
    requires HasKey(apiKey)
    requires ApiRequest(remote(email, i)).Err?
    ensures Classify(Lookup(email, i, apiKey, remote)) == Risky
    ensures Row(email, Lookup(email, i, apiKey, remote)) == email + ",undefined,false"
  {
  }

  /** The valid test comes first: a record whose `format` is valid counts as valid
      whatever its `result` says, even where the row shows that `result`. */
  lemma ValidCheckedFirst(r: Response)
    requires r.format == Some("valid")
    ensures Classify(r) == Valid
    ensures r.result.Some? && r.result.value != "" ==> StatusText(r) == r.result.value
  {
  }

  /** Offline, each address is valid or invalid by the shape check alone. */
  lemma OfflineVerdict(email: string)
    ensures Classify(OfflineValidate(email)) == if IsWellFormed(email) then Valid else Invalid
  {
    WellFormedIsShape(email);
  }

  /** How many of the flags are set. */
  function CountSet(flags: seq<bool>): (c: nat)
    ensures c <= |flags|
  {
    if |flags| == 0 then 0 else CountSet(flags[..|flags| - 1]) + (if flags[|flags| - 1] then 1 else 0)
  }

  /** How many addresses pass the shape check. */
  function WellFormedCount(emails: seq<string>): (c: nat)
    ensures c <= |emails|
  {
    CountSet(seq(|emails|, k requires 0 <= k < |emails| => IsWellFormed(emails[k])))
  }

  /** Records that are each valid or invalid as their flag says tally the set flags
      as valid, the others as invalid, and nothing as risky. */
  lemma {:induction false} TallyFollowsFlags(rs: seq<Response>, flags: seq<bool>)
    requires |rs| == |flags|
    requires forall k :: 0 <= k < |rs| ==> Classify(rs[k]) == if flags[k] then Valid else Invalid
    ensures TallyOf(rs).risky == 0
    ensures TallyOf(rs).valid == CountSet(flags)
    ensures TallyOf(rs).valid + TallyOf(rs).invalid == |rs|
  {
    if |rs| > 0 {
      var n := |rs| - 1;
      FlagsPrefix(rs, flags, n);
      TallyFollowsFlags(rs[..n], flags[..n]);
      TallyFlagsStep(rs, flags);
    }
  }

  lemma FlagsPrefix(rs: seq<Response>, flags: seq<bool>, n: nat)
    requires |rs| == |flags| && n <= |rs|
    requires forall k :: 0 <= k < |rs| ==> Classify(rs[k]) == if flags[k] then Valid else Invalid
    ensures forall k :: 0 <= k < n ==> Classify(rs[..n][k]) == if flags[..n][k] then Valid else Invalid
  {
    forall k | 0 <= k < n ensures Classify(rs[..n][k]) == if flags[..n][k] then Valid else Invalid {
      assert rs[..n][k] == rs[k] && flags[..n][k] == flags[k];
    }
  }

  /** The last record extends the prefix's tally as its flag says. */
  lemma TallyFlagsStep(rs: seq<Response>, flags: seq<bool>)
    requires |rs| == |flags| > 0
    requires Classify(rs[|rs| - 1]) == if flags[|rs| - 1] then Valid else Invalid
    requires var t := TallyOf(rs[..|rs| - 1]);
      t.risky == 0 && t.valid == CountSet(flags[..|rs| - 1]) && t.valid + t.invalid == |rs| - 1
    ensures TallyOf(rs).risky == 0
    ensures TallyOf(rs).valid == CountSet(flags)
    ensures TallyOf(rs).valid + TallyOf(rs).invalid == |rs|
  {
  }

  /** Offline records tally as valid for the well-formed addresses, invalid for the
      others, and never risky. */
  lemma OfflineTally(emails: seq<string>, rs: seq<Response>)
    requires |rs| == |emails|
    requires forall k :: 0 <= k < |rs| ==> rs[k] == OfflineValidate(emails[k])
    ensures TallyOf(rs).risky == 0
    ensures TallyOf(rs).valid == WellFormedCount(emails)
    ensures TallyOf(rs).valid + TallyOf(rs).invalid == |emails|
  {
    var flags := seq(|emails|, k requires 0 <= k < |emails| => IsWellFormed(emails[k]));
    forall k | 0 <= k < |rs| ensures Classify(rs[k]) == if flags[k] then Valid else Invalid {
      OfflineVerdict(emails[k]);
    }
    TallyFollowsFlags(rs, flags);
  }

  /** Without a key nothing in the batch is risky, the valid counter counts the
      well-formed addresses and the invalid counter the others. */
  lemma OfflineBatchHasNoRisky(emails: seq<string>, apiKey: Option<string>, remote: Remote)
    requires !HasKey(apiKey)
    ensures var t := TallyOf(Records(emails, LookupWith(apiKey, remote)));
      t.risky == 0 && t.valid == WellFormedCount(emails) && t.valid + t.invalid == |emails|
  {
    var rs := Records(emails, LookupWith(apiKey, remote));
    OfflineRecords(emails, apiKey, remote);
    OfflineTally(emails, rs);
  }

  lemma NoBreakInRow(email: string, r: Response)
    requires '\n' !in email && r.result.None? && r.format.Some? && '\n' !in r.format.value
    ensures '\n' !in Row(email, r)
  {
  }

  /** Offline rows of addresses without line breaks have none either. */
  lemma OfflineRowsHaveNoBreak(emails: seq<string>, rs: seq<Response>)
    requires |rs| == |emails|
    requires forall k :: 0 <= k < |emails| ==> '\n' !in emails[k]
    requires forall k :: 0 <= k < |rs| ==> rs[k] == OfflineValidate(emails[k])
    ensures forall k :: 0 <= k < |rs| ==> '\n' !in Rows(emails, rs)[k]
  {
    forall k | 0 <= k < |rs| ensures '\n' !in Rows(emails, rs)[k] {
      NoBreakInRow(emails[k], rs[k]);
    }
  }

  /** Offline, no row contains a line break, so the written text reads back as the
      header followed by exactly one row per extracted address. */
  lemma OfflineOutputReadsBack(content: string, rs: seq<Response>)
    requires |rs| == |ExtractEmails(content)|
    requires forall k :: 0 <= k < |rs| ==> rs[k] == OfflineValidate(ExtractEmails(content)[k])
    ensures var rows := Rows(ExtractEmails(content), rs);
      Split(OutputText(rows), '\n') == [Header] + (if rs == [] then [""] else rows)
  {
    var emails := ExtractEmails(content);
    assert forall k :: 0 <= k < |emails| ==> '\n' !in emails[k] by {
      ExtractedEmailsAreClean(content);
    }
    OfflineRowsHaveNoBreak(emails, rs);
    OutputLines(Rows(emails, rs));
  }
}
