/**
 * The entry point: reading a TLD file, choosing the TLD list, expanding
 * keyword × TLD into domains, and choosing what is reported and the exit code.
 * The WHOIS executor, the file system, the fetch of the IANA list and the
 * default TLD list are handed in through an environment record.
 */
module Index {
  import opened Wrappers
  import opened Text
  import opened Types
  import Cli
  import DomainChecker
  import TldUpdater
  import TableFormatter

  // ---------------------------------------------------------------------------
  // Reading a TLD file
  // ---------------------------------------------------------------------------

  /** What the file reader produced: the content, or the reason it threw. */
  datatype ReadOutcome = Read(content: string) | ReadFailed(reason: string)

  /** `lines.map(line => line.trim()).filter(line => line.length > 0)` */
  function TrimmedNonEmpty(lines: seq<string>): (r: seq<string>)
    ensures |r| <= |lines|
    ensures forall k :: 0 <= k < |r| ==> |r[k]| > 0 && Trimmed(r[k])
    decreases |lines|
  {
    if |lines| == 0 then []
    else
      var t := Trim(lines[0]);
      (if |t| > 0 then [t] else []) + TrimmedNonEmpty(lines[1..])
  }

  /** `loadTldsFromFile(path, reader)`: a reader failure propagates. */
  function LoadTldsFromFile(path: string, reader: string -> ReadOutcome): (r: Result<seq<string>, string>)
    ensures reader(path).ReadFailed? <==> r.Failure?
    ensures r.Failure? ==> r.error == reader(path).reason
    ensures r.Success? ==> r.value == TrimmedNonEmpty(Split(reader(path).content, '\n'))
  {
    match reader(path)
    case ReadFailed(reason) => Failure(reason)
    case Read(content) => Success(TrimmedNonEmpty(Split(content, '\n')))
  }

  /** The loader treats each line on its own: the lines of a concatenation
      give the entries of each part, in order. */
  lemma {:induction false} TrimmedNonEmptyConcat(a: seq<string>, b: seq<string>)
    ensures TrimmedNonEmpty(a + b) == TrimmedNonEmpty(a) + TrimmedNonEmpty(b)
    decreases |a|
  {
    if |a| > 0 {
      assert (a + b)[0] == a[0];
      assert (a + b)[1..] == a[1..] + b;
      TrimmedNonEmptyConcat(a[1..], b);
    } else {
      assert a + b == b;
    }
  }

  /** A single line gives its trimmed form, or nothing when that is empty. */
  lemma TrimmedNonEmptySingle(line: string)
    ensures TrimmedNonEmpty([line]) == if |Trim(line)| > 0 then [Trim(line)] else []
  {
    assert [line][1..] == [];
  }

  /** Every entry of the loaded list is the trimmed form of some line of the file. */
  lemma {:induction false} TrimmedNonEmptyFromLines(lines: seq<string>)
    ensures forall k :: 0 <= k < |TrimmedNonEmpty(lines)| ==>
              exists i :: 0 <= i < |lines| && TrimmedNonEmpty(lines)[k] == Trim(lines[i])
    decreases |lines|
  {
    if |lines| > 0 {
      var rest := lines[1..];
      TrimmedNonEmptyFromLines(rest);
      var r := TrimmedNonEmpty(lines);
      var head := if |Trim(lines[0])| > 0 then [Trim(lines[0])] else [];
      forall k | 0 <= k < |r|
        ensures exists i :: 0 <= i < |lines| && r[k] == Trim(lines[i])
      {
        if k < |head| {
          assert 0 < |lines| && r[k] == Trim(lines[0]);
        } else {
          assert r[k] == TrimmedNonEmpty(rest)[k - |head|];
          var i :| 0 <= i < |rest| && TrimmedNonEmpty(rest)[k - |head|] == Trim(rest[i]);
          assert rest[i] == lines[i + 1];
          assert 0 <= i + 1 < |lines| && r[k] == Trim(lines[i + 1]);
        }
      }
    } else {
      assert TrimmedNonEmpty(lines) == [];
    }
  }

  /** The loader does no dot normalisation and skips no comments: a line that
      is dotless, or starts with '#', is kept as it stands once trimmed. */
  lemma LoaderKeepsCommentsAndDotless(comment: string, bare: string)
    requires |comment| > 0 && comment[0] == '#' && Trimmed(comment)
    requires |bare| > 0 && bare[0] != '.' && Trimmed(bare)
    requires '\n' !in comment && '\n' !in bare
    ensures TrimmedNonEmpty(Split(comment + "\n" + bare, '\n')) == [comment, bare]
  {
    SplitConcat(comment, bare, '\n');
    SplitNoSeparator(comment, '\n');
    SplitNoSeparator(bare, '\n');
    TrimTrimmed(comment);
    TrimTrimmed(bare);
    TrimmedNonEmptyConcat([comment], [bare]);
    TrimmedNonEmptySingle(comment);
    TrimmedNonEmptySingle(bare);
  }

  /** A file written by the TLD updater loads back as the list that was written. */
  lemma LoaderReadsUpdaterFile(tlds: seq<string>)
    requires forall k :: 0 <= k < |tlds| ==> TldUpdater.IsEntry(tlds[k])
    ensures TrimmedNonEmpty(Split(TldUpdater.FileContent(tlds), '\n')) == tlds
  {
    if |tlds| == 0 {
      assert TldUpdater.FileContent(tlds) == "" + ['\n'] + "";
      SplitConcat("", "", '\n');
      assert Split("", '\n') == [""];
      TrimmedNonEmptySingle("");
      TrimmedNonEmptyConcat([""], [""]);
    } else {
      var lines := tlds + [""];
      JoinAppendEmpty(tlds, "\n");
      assert forall k :: 0 <= k < |lines| ==> '\n' !in lines[k];
      SplitJoin(lines, '\n');
      TrimmedNonEmptyConcat(tlds, [""]);
      TrimmedNonEmptySingle("");
      EntriesLoadUnchanged(tlds);
    }
  }

  lemma {:induction false} EntriesLoadUnchanged(tlds: seq<string>)
    requires forall k :: 0 <= k < |tlds| ==> TldUpdater.IsEntry(tlds[k])
    ensures TrimmedNonEmpty(tlds) == tlds
    decreases |tlds|
  {
    if |tlds| > 0 {
      TrimTrimmed(tlds[0]);
      EntriesLoadUnchanged(tlds[1..]);
      assert tlds == [tlds[0]] + tlds[1..];
    }
  }

  // ---------------------------------------------------------------------------
  // Choosing the TLDs and expanding the tasks
  // ---------------------------------------------------------------------------

  /** Where the TLDs come from: the file when one is given, else the `-e` list
      when it is non-empty, else the default list. */
  function SelectTlds(args: Cli.ParsedArgs, fileTlds: seq<string>, defaultTlds: seq<string>): (tlds: seq<string>)
    ensures Cli.HasTldFile(args) ==> tlds == fileTlds
    ensures !Cli.HasTldFile(args) && |args.tlds| > 0 ==> tlds == args.tlds
    ensures !Cli.HasTldFile(args) && |args.tlds| == 0 ==> tlds == defaultTlds
  {
    if Cli.HasTldFile(args) then fileTlds
    else if |args.tlds| > 0 then args.tlds
    else defaultTlds
  }

  /** Once validation has passed without `--update-tld`, the default list is never chosen. */
  lemma DefaultTldsUnreachable(args: Cli.ParsedArgs, fileExists: string -> bool)
    requires !args.updateTld && Cli.ValidateArgs(args, fileExists).valid
    ensures Cli.HasTldFile(args) || |args.tlds| > 0
  {
  }

  /** The domains of one keyword, one per TLD, in TLD order. */
  function KeywordDomains(keyword: string, tlds: seq<string>): (r: seq<string>)
    ensures |r| == |tlds|
    ensures forall j :: 0 <= j < |tlds| ==> r[j] == keyword + tlds[j]
  {
    seq(|tlds|, j requires 0 <= j < |tlds| => keyword + tlds[j])
  }

  /** Every keyword joined with every TLD, keyword by keyword. */
  function Crossed(keywords: seq<string>, tlds: seq<string>): seq<string>
    decreases |keywords|
  {
    if |keywords| == 0 then []
    else Crossed(keywords[..|keywords| - 1], tlds) + KeywordDomains(keywords[|keywords| - 1], tlds)
  }

  /** The nested loops of `main` that push one task per keyword and TLD. */
  method ExpandTasks(keywords: seq<string>, tlds: seq<string>) returns (domains: seq<string>)
    ensures domains == Crossed(keywords, tlds)
  {
    domains := [];
    for i := 0 to |keywords|
      invariant domains == Crossed(keywords[..i], tlds)
    {
      var keyword := keywords[i];
      ghost var before := domains;
      for j := 0 to |tlds|
        invariant domains == before + KeywordDomains(keyword, tlds[..j])
      {
        var domain := keyword + tlds[j];
        assert KeywordDomains(keyword, tlds[..j + 1]) == KeywordDomains(keyword, tlds[..j]) + [domain];
        domains := domains + [domain];
      }
      assert tlds[..|tlds|] == tlds;
      assert keywords[..i + 1][..i] == keywords[..i];
    }
    assert keywords[..|keywords|] == keywords;
  }

  /** Each keyword contributes one domain per TLD. */
  lemma {:induction false} CrossedLength(keywords: seq<string>, tlds: seq<string>)
    ensures |Crossed(keywords, tlds)| == |keywords| * |tlds|
    decreases |keywords|
  {
    if |keywords| > 0 {
      var n := |keywords| - 1;
      CrossedLength(keywords[..n], tlds);
      assert (n + 1) * |tlds| == n * |tlds| + |tlds|;
    }
  }

  /** The domains of keyword i start right after those of the keywords before it. */
  lemma {:induction false} CrossedAt(keywords: seq<string>, tlds: seq<string>, i: nat, j: nat)
    requires i < |keywords| && j < |tlds|
    ensures |Crossed(keywords[..i], tlds)| + j < |Crossed(keywords, tlds)|
    ensures Crossed(keywords, tlds)[|Crossed(keywords[..i], tlds)| + j] == keywords[i] + tlds[j]
    decreases |keywords|
  {
    var n := |keywords| - 1;
    var init := keywords[..n];
    var prefix := Crossed(init, tlds);
    var row := KeywordDomains(keywords[n], tlds);
    assert Crossed(keywords, tlds) == prefix + row;
    if i == n {
      assert keywords[..i] == init;
      assert (prefix + row)[|prefix| + j] == row[j];
    } else {
      CrossedAt(init, tlds, i, j);
      assert init[..i] == keywords[..i];
      assert init[i] == keywords[i];
      var k := |Crossed(keywords[..i], tlds)| + j;
      assert (prefix + row)[k] == prefix[k];
    }
  }

  /** The domain at i · |tlds| + j is keyword i followed by TLD j. */
  lemma CrossedIndexAt(keywords: seq<string>, tlds: seq<string>, i: nat, j: nat)
    requires i < |keywords| && j < |tlds|
    ensures i * |tlds| + j < |Crossed(keywords, tlds)|
    ensures Crossed(keywords, tlds)[i * |tlds| + j] == keywords[i] + tlds[j]
  {
    var before := keywords[..i];
    CrossedLength(before, tlds);
    CrossedAt(keywords, tlds, i, j);
  }

  /** The domain at i · |tlds| + j exists and is keyword i followed by TLD j. */
  predicate DomainAt(domains: seq<string>, keywords: seq<string>, tlds: seq<string>, i: nat, j: nat)
    requires i < |keywords| && j < |tlds|
  {
    i * |tlds| + j < |domains| && domains[i * |tlds| + j] == keywords[i] + tlds[j]
  }

  /** Task expansion gives |keywords| · |tlds| domains in keyword-major order,
      duplicates kept: the domain at i · |tlds| + j is keyword i followed by TLD j. */
  lemma CrossedIndex(keywords: seq<string>, tlds: seq<string>)
    ensures |Crossed(keywords, tlds)| == |keywords| * |tlds|
    ensures forall i, j :: 0 <= i < |keywords| && 0 <= j < |tlds| ==>
              DomainAt(Crossed(keywords, tlds), keywords, tlds, i, j)
  {
    CrossedLength(keywords, tlds);
    forall i, j | 0 <= i < |keywords| && 0 <= j < |tlds|
      ensures DomainAt(Crossed(keywords, tlds), keywords, tlds, i, j)
    {
      CrossedIndexAt(keywords, tlds, i, j);
    }
  }

  // ---------------------------------------------------------------------------
  // What is reported
  // ---------------------------------------------------------------------------

  /** `results.filter(r => r.available)` */
  function AvailableOnly(results: seq<DomainResult>): (r: seq<DomainResult>)
    ensures |r| <= |results|
    ensures forall k :: 0 <= k < |r| ==> r[k].available
    decreases |results|
  {
    if |results| == 0 then []
    else (if results[0].available then [results[0]] else []) + AvailableOnly(results[1..])
  }

  /** A result survives the filter exactly when it is available. */
  lemma {:induction false} AvailableOnlyKeeps(results: seq<DomainResult>, x: DomainResult)
    ensures x in AvailableOnly(results) <==> x in results && x.available
    decreases |results|
  {
    if |results| > 0 {
      AvailableOnlyKeeps(results[1..], x);
      assert results == [results[0]] + results[1..];
    }
  }

  function ToJson(r: DomainResult): JsonOutput {
    JsonOutput(r.keyword + r.tld, r.available)
  }

  /** `results.map(r => ({domain: keyword + tld, available}))` */
  function JsonOf(results: seq<DomainResult>): (r: seq<JsonOutput>)
    ensures |r| == |results|
    ensures forall k :: 0 <= k < |results| ==> r[k] == ToJson(results[k])
  {
    seq(|results|, k requires 0 <= k < |results| => ToJson(results[k]))
  }

  /** `jsonResults.filter(r => r.available)` */
  function AvailableJson(entries: seq<JsonOutput>): seq<JsonOutput>
    decreases |entries|
  {
    if |entries| == 0 then []
    else (if entries[0].available then [entries[0]] else []) + AvailableJson(entries[1..])
  }

  /** The JSON entries after `-x`. */
  function JsonEntries(results: seq<DomainResult>, availableOnly: bool): seq<JsonOutput> {
    var entries := JsonOf(results);
    if availableOnly then AvailableJson(entries) else entries
  }

  /** Filtering the JSON entries keeps the entries of exactly the available results, in order. */
  lemma {:induction false} JsonFilterIsResultFilter(results: seq<DomainResult>)
    ensures AvailableJson(JsonOf(results)) == JsonOf(AvailableOnly(results))
    decreases |results|
  {
    if |results| > 0 {
      JsonFilterIsResultFilter(results[1..]);
      assert JsonOf(results)[1..] == JsonOf(results[1..]);
      var head := if results[0].available then [results[0]] else [];
      assert JsonOf(head + AvailableOnly(results[1..])) == JsonOf(head) + JsonOf(AvailableOnly(results[1..]));
    }
  }

  /** The summary's count of available results is the length of the filtered list. */
  lemma {:induction false} CountIsFiltered(results: seq<DomainResult>)
    ensures TableFormatter.CountAvailable(results) == |AvailableOnly(results)|
    decreases |results|
  {
    if |results| > 0 {
      var n := |results| - 1;
      CountIsFiltered(results[..n]);
      AvailableOnlySnoc(results[..n], results[n]);
      assert results[..n] + [results[n]] == results;
    }
  }

  lemma {:induction false} AvailableOnlySnoc(results: seq<DomainResult>, x: DomainResult)
    ensures AvailableOnly(results + [x]) == AvailableOnly(results) + (if x.available then [x] else [])
    decreases |results|
  {
    if |results| == 0 {
      assert [x][1..] == [];
    } else {
      assert (results + [x])[1..] == results[1..] + [x];
      AvailableOnlySnoc(results[1..], x);
    }
  }

  /** What `main` prints after the checks. */
  datatype Report =
    | Json(entries: seq<JsonOutput>)
    | NoneAvailable
    | Table(table: string, available: nat, taken: nat)

  /** What the table mode reports: the table of the results shown (all of them,
      or only the available ones), with the counts over all results. */
  function TableReport(results: seq<DomainResult>, availableOnly: bool): (report: Report)
    ensures report.NoneAvailable? <==> (if availableOnly then AvailableOnly(results) else results) == []
    ensures report.Table? ==> report.available + report.taken == |results|
    ensures report.Table? ==> report.available == |AvailableOnly(results)|
  {
    var shown := if availableOnly then AvailableOnly(results) else results;
    if |shown| == 0 then NoneAvailable
    else Table(TableFormatter.TableText(shown), |AvailableOnly(results)|,
               |results| - |AvailableOnly(results)|)
  }

  /** The output branch of `main` (lines after the checks). */
  method Render(results: seq<DomainResult>, availableOnly: bool, jsonOutput: bool) returns (report: Report)
    ensures jsonOutput ==> report == Json(JsonEntries(results, availableOnly))
    ensures jsonOutput && availableOnly ==> report.entries == JsonOf(AvailableOnly(results))
    ensures !jsonOutput ==> report == TableReport(results, availableOnly)
  {
    if jsonOutput {
      var jsonResults := JsonOf(results);
      if availableOnly {
        jsonResults := AvailableJson(jsonResults);
        JsonFilterIsResultFilter(results);
      }
      report := Json(jsonResults);
    } else {
      var finalResults := results;
      if availableOnly {
        finalResults := AvailableOnly(results);
      }
      if |finalResults| == 0 {
        report := NoneAvailable;
      } else {
        var table := TableFormatter.FormatResultsTable(finalResults);
        var available, taken := TableFormatter.CountResults(results);
        CountIsFiltered(results);
        report := Table(table, available, taken);
      }
    }
  }

  // ---------------------------------------------------------------------------
  // main
  // ---------------------------------------------------------------------------

  /** The capabilities `main` uses: the WHOIS executor and expiry extraction of the
      domain checker, the file system, the IANA fetch, and the default TLD list. */
  datatype Env = Env(
    whois: string -> DomainChecker.WhoisOutcome,
    patterns: seq<DomainChecker.Matcher>,
    parseDate: DomainChecker.DateParser,
    fileExists: string -> bool,
    readFile: string -> ReadOutcome,
    fetched: TldUpdater.FetchOutcome,
    defaultTlds: seq<string>)

  /** One run of `main` that returns: its exit code, the validation error it
      printed, the files it wrote, the domains it queried and its report. */
  datatype Run = Run(
    exitCode: int,
    error: Option<string>,
    writes: seq<TldUpdater.Write>,
    queried: seq<string>,
    report: Option<Report>)

  /** The verdicts for the queried domains, in task order. */
  function CheckAll(domains: seq<string>, env: Env): (results: seq<DomainResult>)
    ensures |results| == |domains|
    ensures forall k :: 0 <= k < |domains| ==>
              results[k] == DomainChecker.CheckDomain(domains[k], env.whois, env.patterns, env.parseDate)
  {
    seq(|domains|, k requires 0 <= k < |domains| =>
      DomainChecker.CheckDomain(domains[k], env.whois, env.patterns, env.parseDate))
  }

  /** Each verdict names the domain it was asked about: keyword followed by TLD. */
  lemma CheckAllNamesDomains(domains: seq<string>, env: Env)
    ensures forall k :: 0 <= k < |domains| ==>
              CheckAll(domains, env)[k].keyword + CheckAll(domains, env)[k].tld == domains[k]
  {
  }

  /** The part of `main` after the TLDs are chosen: the checks and the report. */
  method CheckAndReport(keywords: seq<string>, tlds: seq<string>, availableOnly: bool, env: Env)
    returns (run: Run)
    ensures run == Run(0, None, [], Crossed(keywords, tlds),
                       Some(TableReport(CheckAll(Crossed(keywords, tlds), env), availableOnly)))
  {
    // `args.jsonOutput` is never set by `parseArgs`, so it is always falsy.
    var jsonOutput := false;
    var domains := ExpandTasks(keywords, tlds);
    var results := CheckAll(domains, env);
    var report := Render(results, availableOnly, jsonOutput);
    run := Run(0, None, [], domains, Some(report));
  }

  /** `main(argv)`: a `Failure` is a promise that rejects (the fetch or the file read threw). */
  method RunMain(argv: seq<string>, env: Env) returns (r: Result<Run, string>)
    ensures var args := Cli.Parse(argv);
      args.updateTld ==>
        if env.fetched.FetchFailed? then r == Failure(env.fetched.reason)
        else r == Success(Run(0, None, [TldUpdater.Write(TldUpdater.DefaultFile,
                                 TldUpdater.FileContent(TldUpdater.TldEntries(env.fetched.body)))], [], None))
    ensures var args := Cli.Parse(argv);
      var validation := Cli.ValidateArgs(args, env.fileExists);
      !args.updateTld && !validation.valid ==>
        r == Success(Run(1, validation.error, [], [], None))
    ensures var args := Cli.Parse(argv);
      !args.updateTld && Cli.ValidateArgs(args, env.fileExists).valid
      && Cli.HasTldFile(args) && env.readFile(args.tldFile.value).ReadFailed? ==>
        r == Failure(env.readFile(args.tldFile.value).reason)
    ensures var args := Cli.Parse(argv);
      r.Failure? <==>
        if args.updateTld then env.fetched.FetchFailed?
        else Cli.ValidateArgs(args, env.fileExists).valid && Cli.HasTldFile(args)
             && env.readFile(args.tldFile.value).ReadFailed?
    ensures var args := Cli.Parse(argv);
      !args.updateTld && Cli.ValidateArgs(args, env.fileExists).valid
      && !(Cli.HasTldFile(args) && env.readFile(args.tldFile.value).ReadFailed?) ==>
        var fileTlds := if Cli.HasTldFile(args) then LoadTldsFromFile(args.tldFile.value, env.readFile).value else [];
        var domains := Crossed(args.keywords, SelectTlds(args, fileTlds, env.defaultTlds));
        r.value == Run(0, None, [], domains, Some(TableReport(CheckAll(domains, env), args.availableOnly)))
    ensures r.Success? ==> r.value.error != Some(Cli.UpdateTldConflict)
    ensures r.Success? ==> (r.value.exitCode == 0 <==> r.value.error == None)
  {
    var args := Cli.ParseArgs(argv);
    if args.updateTld {
      var result, writes := TldUpdater.UpdateTldList(env.fetched, None);
      if result.Failure? {
        return Failure(result.error);
      }
      return Success(Run(0, None, writes, [], None));
    }
    var validation := Cli.ValidateArgs(args, env.fileExists);
    if !validation.valid {
      return Success(Run(1, validation.error, [], [], None));
    }
    var tlds: seq<string>;
    if Cli.HasTldFile(args) {
      var loaded := LoadTldsFromFile(args.tldFile.value, env.readFile);
      if loaded.Failure? {
        return Failure(loaded.error);
      }
      tlds := loaded.value;
    } else if |args.tlds| > 0 {
      tlds := args.tlds;
    } else {
      tlds := env.defaultTlds;
    }
    var run := CheckAndReport(args.keywords, tlds, args.availableOnly, env);
    return Success(run);
  }
}
