/**
 * The command line: an index-driven scan of argv into a ParsedArgs record, and
 * the fixed-order validation of that record. `fileExists` is a parameter.
 */
module Cli {
  import opened Wrappers
  import opened Text
  import opened Types

  datatype ParsedArgs = ParsedArgs(
    keywords: seq<string>,
    tlds: seq<string>,
    tldFile: Option<string>,
    availableOnly: bool,
    updateTld: bool)

  /** The record the scan starts from. */
  const Defaults := ParsedArgs([], [], None, false, false)

  /** The flags that take the next argument as their value. */
  predicate IsValueFlag(arg: string) {
    arg in {"-k", "--keyword", "-K", "--keywords", "-e", "--tld", "-E", "--tld-file"}
  }

  /** Every argument the switch recognises. */
  predicate IsFlag(arg: string) {
    IsValueFlag(arg) || arg in {"-x", "--available-only", "--update-tld"}
  }

  /** `argv[i + 1]` when it is truthy: present and not the empty string. */
  function ValueAfter(argv: seq<string>, i: nat): Option<string> {
    if i + 1 < |argv| && argv[i + 1] != "" then Some(argv[i + 1]) else None
  }

  /** The value of `-e`: trimmed, with a '.' put in front only when it has none. */
  function DotTld(value: string): (t: string)
    ensures |t| >= 1 && t[0] == '.'
    ensures var v := Trim(value); if |v| > 0 && v[0] == '.' then t == v else t == ['.'] + v
  {
    var t := Trim(value);
    if |t| > 0 && t[0] == '.' then t else ['.'] + t
  }

  /** The value of `-K`: split on ',' and each piece trimmed, in order. */
  function SplitKeywords(value: string): (ks: seq<string>)
    ensures |ks| == |Split(value, ',')|
    ensures forall k :: 0 <= k < |ks| ==> ks[k] == Trim(Split(value, ',')[k])
  {
    var parts := Split(value, ',');
    seq(|parts|, k requires 0 <= k < |parts| => Trim(parts[k]))
  }

  /** One pass of the switch on `arg`, given the truthy value after it: the new
      record, and whether that value was consumed. */
  function Step(arg: string, value: Option<string>, args: ParsedArgs): (r: (ParsedArgs, bool))
    ensures r.1 <==> IsValueFlag(arg) && value.Some?
  {
    if arg == "-k" || arg == "--keyword" then
      if value.Some? then (args.(keywords := args.keywords + [value.value]), true) else (args, false)
    else if arg == "-K" || arg == "--keywords" then
      if value.Some? then (args.(keywords := args.keywords + SplitKeywords(value.value)), true) else (args, false)
    else if arg == "-e" || arg == "--tld" then
      if value.Some? then (args.(tlds := args.tlds + [DotTld(value.value)]), true) else (args, false)
    else if arg == "-E" || arg == "--tld-file" then
      if value.Some? then (args.(tldFile := Some(value.value)), true) else (args, false)
    else if arg == "-x" || arg == "--available-only" then
      (args.(availableOnly := true), false)
    else if arg == "--update-tld" then
      (args.(updateTld := true), false)
    else
      (args, false)
  }

  /** The scan of the arguments that remain, starting from `args`. */
  function ParseRest(argv: seq<string>, args: ParsedArgs): ParsedArgs
    decreases |argv|
  {
    if |argv| == 0 then args
    else
      var r := Step(argv[0], ValueAfter(argv, 0), args);
      ParseRest(argv[if r.1 then 2 else 1..], r.0)
  }

  /** What `parseArgs(argv)` returns. */
  function Parse(argv: seq<string>): ParsedArgs {
    ParseRest(argv, Defaults)
  }

  method ParseArgs(argv: seq<string>) returns (args: ParsedArgs)
    ensures args == Parse(argv)
  {
    args := Defaults;
    var i := 0;
    while i < |argv|
      invariant 0 <= i <= |argv|
      invariant ParseRest(argv[i..], args) == Parse(argv)
    {
      ghost var i0 := i;
      var arg := argv[i];
      assert ValueAfter(argv[i..], 0) == ValueAfter(argv, i);
      if arg == "-k" || arg == "--keyword" {
        if i + 1 < |argv| && argv[i + 1] != "" {
          args := args.(keywords := args.keywords + [argv[i + 1]]);
          i := i + 1;
        }
      } else if arg == "-K" || arg == "--keywords" {
        if i + 1 < |argv| && argv[i + 1] != "" {
          var keywords := SplitKeywords(argv[i + 1]);
          args := args.(keywords := args.keywords + keywords);
          i := i + 1;
        }
      } else if arg == "-e" || arg == "--tld" {
        if i + 1 < |argv| && argv[i + 1] != "" {
          var tld := Trim(argv[i + 1]);
          if !(|tld| > 0 && tld[0] == '.') {
            tld := ['.'] + tld;
          }
          args := args.(tlds := args.tlds + [tld]);
          i := i + 1;
        }
      } else if arg == "-E" || arg == "--tld-file" {
        if i + 1 < |argv| && argv[i + 1] != "" {
          args := args.(tldFile := Some(argv[i + 1]));
          i := i + 1;
        }
      } else if arg == "-x" || arg == "--available-only" {
        args := args.(availableOnly := true);
      } else if arg == "--update-tld" {
        args := args.(updateTld := true);
      }
      i := i + 1;
      assert argv[i0..][i - i0..] == argv[i..];
    }
  }

  // ---------------------------------------------------------------------------
  // Properties of the scan
  // ---------------------------------------------------------------------------

  /** Every TLD the scan adds starts with '.'. */
  predicate AllDotted(tlds: seq<string>) {
    forall k :: 0 <= k < |tlds| ==> |tlds[k]| >= 1 && tlds[k][0] == '.'
  }

  /** One step only appends to the lists and only sets the flags. */
  lemma StepExtends(arg: string, value: Option<string>, args: ParsedArgs)
    ensures args.keywords <= Step(arg, value, args).0.keywords
    ensures args.tlds <= Step(arg, value, args).0.tlds
    ensures args.availableOnly ==> Step(arg, value, args).0.availableOnly
    ensures args.updateTld ==> Step(arg, value, args).0.updateTld
    ensures args.tldFile.Some? ==> Step(arg, value, args).0.tldFile.Some?
    ensures AllDotted(args.tlds) ==> AllDotted(Step(arg, value, args).0.tlds)
  {
  }

  /** The scan only ever appends to the lists and only ever sets the two flags;
      the TLDs it appends all start with '.'. */
  lemma {:induction false} ParseRestExtends(argv: seq<string>, args: ParsedArgs)
    ensures args.keywords <= ParseRest(argv, args).keywords
    ensures args.tlds <= ParseRest(argv, args).tlds
    ensures args.availableOnly ==> ParseRest(argv, args).availableOnly
    ensures args.updateTld ==> ParseRest(argv, args).updateTld
    ensures args.tldFile.Some? ==> ParseRest(argv, args).tldFile.Some?
    ensures AllDotted(args.tlds) ==> AllDotted(ParseRest(argv, args).tlds)
    decreases |argv|
  {
    if |argv| > 0 {
      var r := Step(argv[0], ValueAfter(argv, 0), args);
      StepExtends(argv[0], ValueAfter(argv, 0), args);
      ParseRestExtends(argv[if r.1 then 2 else 1..], r.0);
    }
  }

  /** Every element of the parsed `tlds` starts with '.'. */
  lemma ParseTldsDotted(argv: seq<string>)
    ensures AllDotted(Parse(argv).tlds)
  {
    ParseRestExtends(argv, Defaults);
  }

  /** No arguments: empty lists, no TLD file, both flags false. */
  lemma ParseEmpty()
    ensures Parse([]) == Defaults
  {
  }

  /** The scan of `p` ends without a value flag in last position waiting for a
      value that `p` does not hold. */
  predicate Dangles(p: seq<string>)
    decreases |p|
  {
    if |p| == 0 then false
    else if |p| == 1 then IsValueFlag(p[0])
    else Dangles(p[if IsValueFlag(p[0]) && ValueAfter(p, 0).Some? then 2 else 1..])
  }

  /** Scanning `p + q` is scanning `p`, then `q`, when `p` does not end with a value
      flag that would reach into `q`. */
  lemma {:induction false} ParseRestConcat(p: seq<string>, q: seq<string>, args: ParsedArgs)
    requires !Dangles(p)
    ensures ParseRest(p + q, args) == ParseRest(q, ParseRest(p, args))
    decreases |p|
  {
    if |p| == 0 {
      assert p + q == q;
    } else {
      var rp := Step(p[0], ValueAfter(p, 0), args);
      var rpq := Step((p + q)[0], ValueAfter(p + q, 0), args);
      if |p| >= 2 {
        assert ValueAfter(p + q, 0) == ValueAfter(p, 0);
      } else {
        assert !IsValueFlag(p[0]);
        assert rpq == rp;
      }
      assert rpq == rp;
      var n := if rp.1 then 2 else 1;
      assert (p + q)[n..] == p[n..] + q;
      ParseRestConcat(p[n..], q, rp.0);
    }
  }

  /** An argument the switch does not recognise, a bare word included, is ignored. */
  lemma ParseIgnoresUnknown(arg: string, q: seq<string>)
    requires !IsFlag(arg)
    ensures Parse([arg] + q) == Parse(q)
  {
    ParseRestConcat([arg], q, Defaults);
  }

  /** `-k v` / `--keyword v` appends exactly `v`, even a `v` that looks like a flag. */
  lemma ParseAppendKeyword(p: seq<string>, flag: string, v: string)
    requires !Dangles(p) && flag in {"-k", "--keyword"} && v != ""
    ensures Parse(p + [flag, v]) == Parse(p).(keywords := Parse(p).keywords + [v])
  {
    ParseRestConcat(p, [flag, v], Defaults);
    assert [flag, v][2..] == [];
  }

  /** `-K v` / `--keywords v` appends the comma-separated pieces of `v`, each trimmed, in order. */
  lemma ParseAppendKeywords(p: seq<string>, flag: string, v: string)
    requires !Dangles(p) && flag in {"-K", "--keywords"} && v != ""
    ensures Parse(p + [flag, v]) == Parse(p).(keywords := Parse(p).keywords + SplitKeywords(v))
  {
    ParseRestConcat(p, [flag, v], Defaults);
    assert [flag, v][2..] == [];
  }

  /** `-e v` / `--tld v` appends `v` trimmed, with a '.' in front if it had none. */
  lemma ParseAppendTld(p: seq<string>, flag: string, v: string)
    requires !Dangles(p) && flag in {"-e", "--tld"} && v != ""
    ensures Parse(p + [flag, v]) == Parse(p).(tlds := Parse(p).tlds + [DotTld(v)])
  {
    ParseRestConcat(p, [flag, v], Defaults);
    assert [flag, v][2..] == [];
  }

  /** The last `-E f` / `--tld-file f` wins. */
  lemma ParseLastTldFileWins(p: seq<string>, flag: string, f: string)
    requires !Dangles(p) && flag in {"-E", "--tld-file"} && f != ""
    ensures Parse(p + [flag, f]) == Parse(p).(tldFile := Some(f))
  {
    ParseRestConcat(p, [flag, f], Defaults);
    assert [flag, f][2..] == [];
  }

  /** `-x` / `--available-only` and `--update-tld` set their flag and nothing else. */
  lemma ParseAppendSwitch(p: seq<string>, flag: string)
    requires !Dangles(p) && flag in {"-x", "--available-only", "--update-tld"}
    ensures flag == "--update-tld" ==> Parse(p + [flag]) == Parse(p).(updateTld := true)
    ensures flag != "--update-tld" ==> Parse(p + [flag]) == Parse(p).(availableOnly := true)
  {
    ParseRestConcat(p, [flag], Defaults);
  }

  /** A value flag in last place, or followed by "", adds nothing and consumes nothing more. */
  lemma ParseValueFlagWithoutValue(p: seq<string>, flag: string)
    requires !Dangles(p) && IsValueFlag(flag)
    ensures Parse(p + [flag]) == Parse(p)
    ensures Parse(p + [flag, ""]) == Parse(p)
  {
    ParseRestConcat(p, [flag], Defaults);
    ParseRestConcat(p, [flag, ""], Defaults);
    assert [flag, ""][1..] == [""];
    assert ParseRest([""], Parse(p)) == Parse(p);
  }

  // ---------------------------------------------------------------------------
  // Validation
  // ---------------------------------------------------------------------------

  // The two longest messages are written as concatenations so that the
  // verifier can look at their first characters.
  const UpdateTldConflict := "--update-tld " + "cannot be used with other flags."
  const KeywordRequired := "Keyword is required."
  const BothTldSources := "You can only specify " + "one of -e or -E options."
  const NoTldSource := "Either -e or -E option is required."

  function TldFileNotFound(path: string): (m: string)
    ensures |m| == |path| + 20 && StartsWith(m, "TLD file ") && m[9..9 + |path|] == path
    ensures m[9 + |path|..] == " not found."
  {
    "TLD file " + path + " not found."
  }

  /** `args.tldFile` is truthy: set and not empty. */
  predicate HasTldFile(args: ParsedArgs) {
    args.tldFile.Some? && args.tldFile.value != ""
  }

  /** The if-chain of `validateArgs`; the first failing check gives the error. */
  function ValidateArgs(args: ParsedArgs, fileExists: string -> bool): (r: ValidationResult)
    ensures r.valid <==> r.error.None?
    ensures args.updateTld ==>
              (r.valid <==> |args.keywords| == 0 && |args.tlds| == 0 && !HasTldFile(args) && !args.availableOnly)
    ensures args.updateTld && !r.valid ==> r.error == Some(UpdateTldConflict)
    ensures !args.updateTld ==> r.error != Some(UpdateTldConflict)
    ensures !args.updateTld ==>
              (r.valid <==> |args.keywords| > 0 && (|args.tlds| > 0 <==> !HasTldFile(args)) &&
                            (HasTldFile(args) ==> fileExists(args.tldFile.value)))
  {
    if args.updateTld then
      if |args.keywords| > 0 || |args.tlds| > 0 || HasTldFile(args) || args.availableOnly then
        ValidationResult(false, Some(UpdateTldConflict))
      else
        ValidationResult(true, None)
    else if |args.keywords| == 0 then
      ValidationResult(false, Some(KeywordRequired))
    else if |args.tlds| > 0 && HasTldFile(args) then
      assert BothTldSources[0] == 'Y' && UpdateTldConflict[0] == '-';
      ValidationResult(false, Some(BothTldSources))
    else if |args.tlds| == 0 && !HasTldFile(args) then
      ValidationResult(false, Some(NoTldSource))
    else if HasTldFile(args) && !fileExists(args.tldFile.value) then
      assert TldFileNotFound(args.tldFile.value)[0] == 'T' && UpdateTldConflict[0] == '-';
      ValidationResult(false, Some(TldFileNotFound(args.tldFile.value)))
    else
      ValidationResult(true, None)
  }

  /** The checks made without `--update-tld`, in their fixed order: each says
      whether it fails and with which message. */
  function Checks(args: ParsedArgs, fileExists: string -> bool): seq<(bool, string)> {
    [ (|args.keywords| == 0, KeywordRequired),
      (|args.tlds| > 0 && HasTldFile(args), BothTldSources),
      (|args.tlds| == 0 && !HasTldFile(args), NoTldSource),
      (HasTldFile(args) && !fileExists(args.tldFile.value),
       TldFileNotFound(if args.tldFile.Some? then args.tldFile.value else "")) ]
  }

  /** The message of the first failing check, if any. */
  function FirstFailure(checks: seq<(bool, string)>): Option<string>
    decreases |checks|
  {
    if |checks| == 0 then None
    else if checks[0].0 then Some(checks[0].1)
    else FirstFailure(checks[1..])
  }

  /** Without `--update-tld`, the error is the message of the first failing check in
      the order above, and there is none exactly when every check passes. */
  lemma ValidateReportsFirstFailure(args: ParsedArgs, fileExists: string -> bool)
    requires !args.updateTld
    ensures ValidateArgs(args, fileExists).error == FirstFailure(Checks(args, fileExists))
    ensures ValidateArgs(args, fileExists).valid <==>
            forall k :: 0 <= k < 4 ==> !Checks(args, fileExists)[k].0
  {
    var c := Checks(args, fileExists);
    assert FirstFailure(c[3..]) == if c[3].0 then Some(c[3].1) else None by {
      assert c[3..][1..] == [];
    }
    assert FirstFailure(c[2..]) == if c[2].0 then Some(c[2].1) else FirstFailure(c[3..]) by {
      assert c[2..][1..] == c[3..];
    }
    assert FirstFailure(c[1..]) == if c[1].0 then Some(c[1].1) else FirstFailure(c[2..]) by {
      assert c[1..][1..] == c[2..];
    }
  }
}
