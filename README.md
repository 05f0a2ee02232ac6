# TLDHunt, modelled in Dafny

TLDHunt is a command-line tool. It takes one or more keywords and a set of
top-level domains, asks WHOIS about every `keyword + tld` pair, and prints which
domains look unregistered. The output is a box-drawn table (or, in a branch
that `main` never reaches, JSON). It can also refresh its TLD list from the IANA
registry file, and it has a result cache keyed by domain.

This project models the parts that turn text and records into other text and
records. Each module follows one source file:

| module | source file | form |
|---|---|---|
| `Wrappers` | (none) | `Option` and `Result` |
| `Text` | (none) | the JavaScript string operations used: ASCII `toLowerCase`, `trim`, `split`, `join`, `includes`, `lastIndexOf`, `padEnd`, default `sort` order |
| `Types` | `src/types.ts` | the records `DomainResult`, `JsonOutput`, `ValidationResult`, `UpdateResult`, `CachedResult` |
| `DomainChecker` | `src/domain-checker.ts` | functions; the WHOIS executor, the expiry regular expressions and the `Date` parser are parameters |
| `Cache` | `src/cache.ts` | a class for the module-level handle `db` and a class for an open database holding a `map` table; the clock is a parameter `now` |
| `Cli` | `src/cli.ts` | `parseArgs` as a `while` loop proved equal to a scan function; `validateArgs` as a function; `fileExists` as a parameter |
| `TldUpdater` | `src/tld-updater.ts` | `parseTldList` as a `for` loop proved equal to a line filter; `updateTldList` as a method returning its writer calls |
| `TableFormatter` | `src/table-formatter.ts` | each formatter helper as a method with loops, proved equal to a row function; layout properties proved about those functions |
| `Index` | `src/index.ts` | the TLD loader, the TLD source choice, the task loops, the output branch and `main` |

The capabilities that `main` uses are collected in `Index.Env`:

- the WHOIS executor: a function from domain to `Output(text)` or `Failed`;
- the expiry matchers and the date parser;
- `fileExists` and the file reader;
- the fetch outcome;
- the default TLD list, which is an opaque value.

`Index.RunMain` returns the following:

- a `Failure`, when the promise rejects;
- otherwise a `Run`, which records:
  - the exit code;
  - the validation error printed;
  - the files written;
  - the domains queried, in task order;
  - the report.

## Model

| member | source | states |
|---|---|---|
| `DomainChecker.IsRegistered` | src/domain-checker.ts:10-20 | `isRegistered` is true iff one of the signatures, lower-cased, occurs in the lower-cased output |
| `DomainChecker.AnySignatureIff` | src/domain-checker.ts:13-19 | the early-return loop over the signatures returns true exactly when some lower-cased signature occurs in the lower-cased output |
| `DomainChecker.IsRegisteredIff` | src/domain-checker.ts:3-20 | a WHOIS output counts as registered iff its lower-cased text contains "name server", "nserver", "nameservers" or "status: active" |
| `DomainChecker.EmptyIsNotRegistered` | src/domain-checker.ts:10-20 | the empty output is not registered |
| `DomainChecker.IsRegisteredIgnoresCase` | src/domain-checker.ts:11-14 | two outputs that differ only in letter case get the same verdict |
| `DomainChecker.IsRegisteredUpper` | src/domain-checker.ts:11-14 | upper-casing an output does not change its verdict |
| `DomainChecker.ParseExpiration` | src/domain-checker.ts:32-44 | the loop over the patterns gives None iff no pattern yields a non-empty capture that parses as a date |
| `DomainChecker.Seconds` | src/domain-checker.ts:39 | `Math.floor(ms / 1000)`: the result times 1000 lies within 1000 ms below `ms` |
| `DomainChecker.ParseExpirationFirstMatch` | src/domain-checker.ts:32-44 | the result is None iff no pattern yields a non-empty capture that parses as a date; otherwise it is the floored seconds of the first pattern, in list order, that yields one |
| `DomainChecker.ParseDomain` | src/domain-checker.ts:46-57 | with a '.', keyword + tld rebuilds the domain, and the tld starts with its only '.'; without one, the keyword is the domain and the tld is empty |
| `DomainChecker.CheckDomain` | src/domain-checker.ts:61-78 | keyword and tld are always `parseDomain(domain)`; a failed query gives available with no expiry; on output, available is not-registered; the expiry is None when available and the extracted expiry otherwise |
| `Cache.Lookup` | src/cache.ts:61-89 | no row gives None; a row is returned iff it is fresh, with its domain, its 0/1 flag as a boolean, and its timestamps |
| `Cache.ExpiryIgnoresTtl` | src/cache.ts:73-76 | with a non-null, non-zero registry expiry, freshness is `now <= expires_at * 1000`, whatever the TTL |
| `Cache.TtlGovernsOtherwise` | src/cache.ts:77-82 | with a null or zero expiry, freshness is `now - checked_at <= ttl`, boundary included |
| `Cache.SaveThenLookup` | src/cache.ts:104-108 | right after a save, a lookup returns the saved flag, the save time and the saved expiry, unless the saved expiry is already past |
| `Cache.SaveKeepsOthers` | src/cache.ts:104-108 | a save does not change the lookup of any other domain |
| `Cache.LaterSaveWins` | src/cache.ts:104-108 | insert-or-replace: after two saves of one domain, every lookup answers as after the later save alone |
| `Cache.ClearedFindsNothing` | src/cache.ts:118-119 | after a clear, no domain is found |
| `Cache.DefaultTtlMs` | src/cache.ts:129-131 | the default TTL is 5184000000 ms, which is 60 days |
| `Cache.DefaultCachePath` | src/cache.ts:4-11 | `getCachePath()`: the default database lies under the home directory, at `/.tldhunt/cache.db` below it |
| `Cache.HoursToMs` | src/cache.ts:133-135 | `h` hours are `h * 3600000` ms; 1440 hours are the default TTL |
| `Cache.CacheModule.InitCache` | src/cache.ts:13-41 | an open handle is returned as it is; otherwise a new database is opened at the given path, or at the default path, and kept as the handle |
| `Cache.CacheModule.GetCachedResult` | src/cache.ts:43-90 | with no handle, the result is None; otherwise it is the lookup on the handle's table at time `now` |
| `Cache.CacheModule.SaveResult` | src/cache.ts:92-109 | with a handle, the row for the domain becomes (flag as 0/1, `now`, expiry) and every other row stays, and the handle stays open; only the table changes; with none, nothing changes |
| `Cache.CacheModule.ClearCache` | src/cache.ts:111-120 | returns the number of rows before and empties the table; leaves the handle open and changes only the table; returns 0 with no handle |
| `Cache.CacheModule.CloseCache` | src/cache.ts:122-127 | an open handle is closed and forgotten; with none, nothing happens |
| `Cli.DotTld` | src/cli.ts:45-48 | the `-e` value is trimmed and starts with '.', and a '.' is added only when the trimmed value lacks one |
| `Cli.SplitKeywords` | src/cli.ts:36 | the `-K` value gives one keyword per comma-separated piece, each trimmed, in order |
| `Cli.Step` | src/cli.ts:24-70 | one pass of the switch consumes the next argument exactly when the flag takes a value and a truthy value follows it |
| `Cli.ParseArgs` | src/cli.ts:12-76 | the index-driven loop returns the scan `Parse(argv)` |
| `Cli.ParseRestExtends` | src/cli.ts:24-70 | the scan only appends to the keyword and TLD lists and never clears a flag or the TLD file; every TLD appended starts with '.' |
| `Cli.ParseTldsDotted` | src/cli.ts:42-52 | every element of the parsed `tlds` starts with '.' |
| `Cli.ParseEmpty` | src/cli.ts:13-18 | no arguments give empty lists, no TLD file and both flags false |
| `Cli.ParseRestConcat` | src/cli.ts:20-73 | scanning `p + q` is scanning `p`, then `q`, unless `p` ends on a value flag waiting for its value |
| `Cli.ParseIgnoresUnknown` | src/cli.ts:24-70 | an argument the switch does not recognise is skipped |
| `Cli.ParseAppendKeyword` | src/cli.ts:25-31 | `-k v` appends exactly `v`, even a `v` that looks like a flag |
| `Cli.ParseAppendKeywords` | src/cli.ts:33-40 | `-K v` appends the trimmed comma-separated pieces of `v`, in order |
| `Cli.ParseAppendTld` | src/cli.ts:42-52 | `-e v` appends `v` trimmed, with a '.' put in front only when it lacks one |
| `Cli.ParseLastTldFileWins` | src/cli.ts:54-60 | a later `-E f` replaces any earlier TLD file |
| `Cli.ParseAppendSwitch` | src/cli.ts:62-69 | `-x` and `--update-tld` set their own flag and change nothing else |
| `Cli.ParseValueFlagWithoutValue` | src/cli.ts:27 | a value flag in last place, or followed by "", adds nothing and consumes nothing more |
| `Cli.TldFileNotFound` | src/cli.ts:103 | the message starts with "TLD file " and names the path |
| `Cli.ValidateArgs` | src/cli.ts:78-108 | valid iff there is no error; with `--update-tld`, valid iff no keywords, no tlds, no TLD file and no `-x`, and otherwise the error is the conflict message; without it, the conflict message never appears, and the args are valid iff there are keywords, exactly one TLD source, and an existing TLD file when one is given |
| `Cli.ValidateReportsFirstFailure` | src/cli.ts:88-107 | without `--update-tld`, the error is the message of the first failing check, in the order no keyword, both sources, no source, missing file; the args are valid iff all four checks pass |
| `TldUpdater.NormaliseLine` | src/tld-updater.ts:13-20 | a line is dropped iff its trimmed form is blank or starts with '#'; a kept line is trimmed, lower-cased and dotted, and gets a '.' only when it has none |
| `TldUpdater.KeptLines` | src/tld-updater.ts:12-21 | no more entries than lines |
| `TldUpdater.ParseTldList` | src/tld-updater.ts:8-24 | the loop returns the entries of the kept lines, in line order |
| `TldUpdater.KeptLinesConcat` | src/tld-updater.ts:12-21 | the entries of two runs of lines are the entries of each run, one after the other |
| `TldUpdater.KeptLinesSingle` | src/tld-updater.ts:13-20 | one line gives its normalised form, or nothing when it is dropped |
| `TldUpdater.TldEntriesWellFormed` | src/tld-updater.ts:8-24 | every entry is non-empty, dotted, lower-case, trimmed and on one line |
| `TldUpdater.KeptLinesEmpty` | src/tld-updater.ts:15-16 | there are no entries iff every line is blank or a comment |
| `TldUpdater.EmptyInputHasNoEntries` | src/tld-updater.ts:8-24 | empty input gives no entries |
| `TldUpdater.RoundTrip` | src/tld-updater.ts:8-24 | reading back the written content of well-formed entries gives the same entries |
| `TldUpdater.ReparseIsIdentity` | src/tld-updater.ts:37-39 | parsing the content written for a list parsed from any input gives that list again |
| `TldUpdater.UpdateTldList` | src/tld-updater.ts:26-43 | a failed fetch rejects and writes nothing; otherwise one write of `join(tlds, "\n") + "\n"` to the path or to "tlds.txt", and the result is that count and that file |
| `TableFormatter.Insert` | src/table-formatter.ts:8-9 | insertion into a strictly sorted list keeps it strictly sorted and adds exactly that element |
| `TableFormatter.SortedDistinct` | src/table-formatter.ts:8-9 | `[...new Set(xs)].sort()` is strictly sorted, with exactly the elements of `xs` |
| `TableFormatter.SortedUnique` | src/table-formatter.ts:8-9 | two strictly sorted lists with the same elements are equal |
| `TableFormatter.BuildMatrix` | src/table-formatter.ts:11-18 | the loop builds the matrix of the results |
| `TableFormatter.MatrixLookup` | src/table-formatter.ts:11-18 | a keyword has a row iff some result has that keyword; a cell exists iff some result has that keyword and TLD; its value is the flag of the last such result |
| `TableFormatter.MarkIsLastRecord` | src/table-formatter.ts:94-98 | a cell shows ✓ iff the last result for the pair is available, and ✗ otherwise, a missing pair included |
| `TableFormatter.Longest` | src/table-formatter.ts:37 | the longest length is at least every length and is the length of some element, or 0 for no elements |
| `TableFormatter.CalculateColumnWidths` | src/table-formatter.ts:36-41 | the domain width is max(9, the longest keyword); each TLD width is max(its length, 3) |
| `TableFormatter.FormatBorder` | src/table-formatter.ts:46-55 | the border loop builds the border of the widths with the given corner and junction characters |
| `TableFormatter.FormatCells` | src/table-formatter.ts:60-62 | the cell loop pads each label to its column width |
| `TableFormatter.FormatHeaderRow` | src/table-formatter.ts:43-67 | the header is the top border, a line break, then the "Domain" row with the TLD labels |
| `TableFormatter.FormatSeparatorRow` | src/table-formatter.ts:69-82 | the separator is the border drawn with ├ ┼ ┤ |
| `TableFormatter.FormatDataRow` | src/table-formatter.ts:84-103 | a data row is the keyword followed by the mark of each TLD column |
| `TableFormatter.FormatBottomRow` | src/table-formatter.ts:105-118 | the bottom is the border drawn with └ ┴ ┘ |
| `TableFormatter.FormatDataRows` | src/table-formatter.ts:27-29 | one data row per keyword, in keyword order |
| `TableFormatter.FormatLines` | src/table-formatter.ts:22-31 | the lines are the header entry, the separator, the data rows and the bottom row |
| `TableFormatter.FormatResultsTable` | src/table-formatter.ts:3-34 | the result is the table of the layout the results determine; empty input gives "No results to display." |
| `TableFormatter.BorderLength` | src/table-formatter.ts:46-55 | every border line has the table's line width |
| `TableFormatter.RowLength` | src/table-formatter.ts:57-64 | a row whose texts fit their columns has the table's line width |
| `TableFormatter.LinesOfLayout` | src/table-formatter.ts:22-33 | joining the entries equals joining the individual lines, and there are (number of keywords) + 4 lines |
| `TableFormatter.DataRowsWidth` | src/table-formatter.ts:84-103 | in a layout whose widths dominate their contents, every data row has the table's line width |
| `TableFormatter.LinesSameWidth` | src/table-formatter.ts:36-118 | in a layout whose widths dominate their contents, every line has the same width |
| `TableFormatter.LayoutFits` | src/table-formatter.ts:8-41 | the layout of non-empty results has at least one column, and widths that dominate every keyword and TLD |
| `TableFormatter.SplitLines` | src/table-formatter.ts:33 | when no label holds a line break, splitting the joined text on '\n' gives the lines back |
| `TableFormatter.TableShape` | src/table-formatter.ts:3-118 | for non-empty one-line results, the text has exactly (distinct keywords) + 4 lines, all of the same width |
| `TableFormatter.LayoutOrder` | src/table-formatter.ts:8-9 | the columns are the distinct TLDs in sorted order and the rows the distinct keywords in sorted order; no other list is both sorted and made of those elements |
| `TableFormatter.CountResults` | src/table-formatter.ts:120-133 | available is the number of results whose flag is set, and available + taken is the number of results |
| `Index.TrimmedNonEmpty` | src/index.ts:18-21 | the lines kept are non-empty, trimmed, and no more than the lines given |
| `Index.LoadTldsFromFile` | src/index.ts:11-22 | a reader failure rejects with its reason; otherwise the result is the trimmed non-empty lines of the content |
| `Index.TrimmedNonEmptyConcat` | src/index.ts:18-21 | the loader's filter acts on two runs of lines one after the other |
| `Index.TrimmedNonEmptySingle` | src/index.ts:20-21 | one line gives its trimmed form, or nothing when that is empty |
| `Index.TrimmedNonEmptyFromLines` | src/index.ts:18-21 | every kept line is the trimmed form of some input line |
| `Index.LoaderKeepsCommentsAndDotless` | src/index.ts:18-21 | the loader keeps a '#' comment and a dotless name as they are: no comment skipping, no dot added |
| `Index.LoaderReadsUpdaterFile` | src/index.ts:18-21 | reading a file written by the updater gives its entries back |
| `Index.EntriesLoadUnchanged` | src/index.ts:20-21 | lines that are already trimmed and non-empty pass through unchanged |
| `Index.SelectTlds` | src/index.ts:86-93 | the TLD file's list if one is given, else the explicit TLDs if there are any, else the default list |
| `Index.DefaultTldsUnreachable` | src/index.ts:77-93 | once validation passes without `--update-tld`, a TLD file or an explicit TLD is present, so the default list is never chosen |
| `Index.KeywordDomains` | src/index.ts:102-105 | one domain per TLD, each the keyword followed by the TLD |
| `Index.ExpandTasks` | src/index.ts:99-106 | the nested loops produce the keyword × TLD domains in keyword-major order |
| `Index.CrossedLength` | src/index.ts:99-106 | the nested loops produce \|keywords\|·\|tlds\| domains |
| `Index.CrossedIndexAt` | src/index.ts:102-105 | the domain at i·\|tlds\|+j exists and is keyword i followed by TLD j |
| `Index.CrossedIndex` | src/index.ts:99-106 | there are \|keywords\|·\|tlds\| domains, and the one at i·\|tlds\|+j is keyword i followed by TLD j, duplicates kept |
| `Index.AvailableOnly` | src/index.ts:121-123 | the filter keeps only available results and never more than it was given |
| `Index.AvailableOnlyKeeps` | src/index.ts:121-123 | a result is kept iff it is among the results and available |
| `Index.AvailableOnlySnoc` | src/index.ts:121-123 | the filter keeps the order of the results |
| `Index.JsonOf` | src/index.ts:111-114 | one JSON entry per result, in order, with domain = keyword + tld and the same flag |
| `Index.JsonFilterIsResultFilter` | src/index.ts:115-117 | filtering the JSON entries keeps exactly the entries of the available results, in order |
| `Index.CountIsFiltered` | src/index.ts:131-132 | the summary's available count is the number of results the available-only filter keeps |
| `Index.TableReport` | src/index.ts:120-133 | no table exactly when nothing is shown; otherwise the counts are over all results, and the available count is the filter's size |
| `Index.Render` | src/index.ts:110-134 | in JSON mode, the JSON entries, filtered when `-x` is set; otherwise the table report of the results |
| `Index.CheckAll` | src/index.ts:104-108 | one verdict per domain, in task order, each the domain checker's verdict for it |
| `Index.CheckAllNamesDomains` | src/index.ts:103-104 | every verdict's keyword + tld is the domain it was asked about |
| `Index.CheckAndReport` | src/index.ts:99-136 | after the TLDs are chosen: exit code 0, no writes, the crossed domains queried, and the table report of their verdicts |
| `Index.RunMain` | src/index.ts:63-137 | with `--update-tld`: a failed fetch rejects; otherwise exit 0, with one write of the updater's content to "tlds.txt" and no query. An invalid command line exits 1 with the validation error and no query. A failed TLD file read rejects. These two failures are the only rejections. Otherwise: exit 0, the crossed domains of the chosen TLDs are queried, and the table report follows. The conflict message is never printed, and the exit code is 0 iff no error was printed |

## Left out

- `runWithConcurrencyLimit` (src/index.ts:29-61): it interleaves promises. The model checks the domains one after another and keeps the results in task order. In the source the order is completion order, and `MAX_CONCURRENT` (30) bounds only the interleaving, so it has no counterpart in the model.
- `updateTldList`'s fetch of `TLD_URL` (IANA's `tlds-alpha-by-domain.txt`): the fetcher is the parameter `fetched`, the body or the reason it threw, so the URL has no counterpart in the model.
- `Cache.HoursToMs`: JavaScript `number` arguments are modelled as `int`, so fractional hours (`hoursToMs(0.5)` is 1800000) are outside the model. The same holds for the `ttlMs` of `Cache.CacheModule.GetCachedResult` and for times and expiries, which the model keeps whole.
- `executeWhois`: process spawning is not modelled. The WHOIS answer is a parameter, either `Output(text)` or `Failed`.
- The seven expiry regular expressions and `new Date(...)`: they are abstract parameters. A matcher gives the first capture group or None, and the date parser gives milliseconds or None.
- SQLite, the `mkdir -p` spawn, and the CREATE TABLE and ALTER TABLE statements with their swallowed error: all are replaced by a `map` in `Cache.Database`. The rows a database file already holds when opened are a constructor parameter. `Date.now()` is the parameter `now`.
- `getCachePath`: this is `Cache.DefaultCachePath` of the home directory. `process.env.HOME` is a parameter.
- `main` never calls the cache, so the cache module is modelled on its own.
- The banner, `usage` and every `console` line are not modelled, and neither are `JSON.stringify`, `process.exit`, `Bun.file`, `fetch`, `Bun.write` or `defaultFileExists`. The values they would print, read or write are parameters or fields of `Index.Run`.
- `Index.RunMain`: the JSON output branch is not reached. `parseArgs` never sets `jsonOutput` and there is no JSON flag, so `main` always takes the table branch. `Index.Render` still models both branches.
- `DEFAULT_TLDS`: the list is imported from a module that does not define it, so it is the opaque `Env.defaultTlds`. `Index.DefaultTldsUnreachable` shows that it is never chosen after validation.
- The `fileExists` field of `ParsedArgs` is never set by `parseArgs`, so `validateArgs` uses its default checker. That checker is the `fileExists` parameter.
- `TableFormatter.Longest`, `TableFormatter.CalculateColumnWidths`, `TableFormatter.FormatCells`, `TableFormatter.FormatDataRow` and the width lemmas (`TableFormatter.BorderLength`, `TableFormatter.RowLength`, `TableFormatter.DataRowsWidth`, `TableFormatter.LinesSameWidth`, `TableFormatter.TableShape`): every string length in the model counts characters (code points), while JavaScript's `.length` and `padEnd` count UTF-16 code units. A keyword or TLD with a character above U+FFFF gets a narrower column and different padding in the model than in the program, so such characters are outside the model.
- Unicode: `toLowerCase` and `trim` are modelled on ASCII only. Lower-case maps A-Z only, and trim removes space, tab, line feed, vertical tab, form feed and carriage return. The default `sort` is modelled as comparison by character code. This matches JavaScript's UTF-16 code-unit order below U+10000 only.
- `Cache.CacheModule.GetCachedResult` and the other cache methods: `database` is a handle passed explicitly, and it must be open. The source does not check this either.
