/**
 * Classifying a WHOIS response and splitting a domain into keyword and TLD.
 * The WHOIS query itself, the regular expressions that find expiry dates and
 * the `Date` parser are capabilities handed in from outside.
 */
module DomainChecker {
  import opened Wrappers
  import opened Text
  import opened Types

  /** Substrings whose presence, ignoring case, marks a domain as registered. */
  const RegistrationSignatures: seq<string> := ["Name Server", "nserver", "nameservers", "status: active"]

  /** The early-return loop over the signatures: does any of them, lower-cased, occur? */
  predicate AnySignature(lowerOutput: string, signatures: seq<string>)
    decreases |signatures|
  {
    |signatures| > 0 &&
    (Includes(lowerOutput, Lower(signatures[0])) || AnySignature(lowerOutput, signatures[1..]))
  }

  /** `isRegistered(whoisOutput)`: some signature, lower-cased, occurs in the lower-cased text. */
  function IsRegistered(whoisOutput: string): (registered: bool)
    ensures registered <==> exists k :: 0 <= k < |RegistrationSignatures| &&
                              Includes(Lower(whoisOutput), Lower(RegistrationSignatures[k]))
  {
    AnySignatureIff(Lower(whoisOutput), RegistrationSignatures);
    AnySignature(Lower(whoisOutput), RegistrationSignatures)
  }

  /** The loop returns true exactly when some signature occurs. */
  lemma {:induction false} AnySignatureIff(lowerOutput: string, signatures: seq<string>)
    ensures AnySignature(lowerOutput, signatures) <==>
            exists k :: 0 <= k < |signatures| && Includes(lowerOutput, Lower(signatures[k]))
    decreases |signatures|
  {
    if |signatures| > 0 {
      AnySignatureIff(lowerOutput, signatures[1..]);
      if exists k :: 0 <= k < |signatures| && Includes(lowerOutput, Lower(signatures[k])) {
        var k :| 0 <= k < |signatures| && Includes(lowerOutput, Lower(signatures[k]));
        if k > 0 {
          assert signatures[1..][k - 1] == signatures[k];
        }
      }
      if AnySignature(lowerOutput, signatures[1..]) {
        var k :| 0 <= k < |signatures| - 1 && Includes(lowerOutput, Lower(signatures[1..][k]));
        assert signatures[1..][k] == signatures[k + 1];
      }
    }
  }

  /** A response is registered exactly when its lower-cased text contains one of the four signatures. */
  lemma IsRegisteredIff(whoisOutput: string)
    ensures IsRegistered(whoisOutput) <==>
            Includes(Lower(whoisOutput), "name server") ||
            Includes(Lower(whoisOutput), "nserver") ||
            Includes(Lower(whoisOutput), "nameservers") ||
            Includes(Lower(whoisOutput), "status: active")
  {
    assert Lower("Name Server") == "name server";
    assert Lower("nserver") == "nserver";
    assert Lower("nameservers") == "nameservers";
    LowerOfLowerCase("status: active");
    AnySignatureIff(Lower(whoisOutput), RegistrationSignatures);
  }

  /** An empty response is not registered. */
  lemma EmptyIsNotRegistered()
    ensures !IsRegistered("")
  {
    IsRegisteredIff("");
  }

  /** Two responses that differ only in letter case get the same verdict. */
  lemma IsRegisteredIgnoresCase(s: string, t: string)
    requires |s| == |t|
    requires forall i :: 0 <= i < |s| ==> LowerChar(s[i]) == LowerChar(t[i])
    ensures IsRegistered(s) == IsRegistered(t)
  {
    assert Lower(s) == Lower(t);
  }

  /** In particular upper-casing a response never changes its verdict. */
  lemma IsRegisteredUpper(s: string)
    ensures IsRegistered(Upper(s)) == IsRegistered(s)
  {
    LowerUpper(s);
  }

  // ---------------------------------------------------------------------------
  // Expiry extraction
  // ---------------------------------------------------------------------------

  /** One expiry pattern: `text.match(pattern)`, reduced to its first capture group. */
  type Matcher = string -> Option<string>

  /** `new Date(s).getTime()`: milliseconds since the epoch, or None for an invalid date. */
  type DateParser = string -> Option<int>

  /** The pattern matches with a non-empty capture that parses to a valid date. */
  predicate Yields(pattern: Matcher, text: string, parse: DateParser) {
    pattern(text).Some? && pattern(text).value != "" && parse(pattern(text).value).Some?
  }

  /** `Math.floor(ms / 1000)`; Dafny's division by a positive divisor rounds down. */
  function Seconds(ms: int): (s: int)
    ensures s * 1000 <= ms < s * 1000 + 1000
  {
    ms / 1000
  }

  /** The loop over the patterns: the first one that yields a valid date wins. */
  function ParseExpiration(text: string, patterns: seq<Matcher>, parse: DateParser): (r: Option<int>)
    ensures r.None? <==> forall k :: 0 <= k < |patterns| ==> !Yields(patterns[k], text, parse)
    decreases |patterns|
  {
    if |patterns| == 0 then None
    else if Yields(patterns[0], text, parse) then Some(Seconds(parse(patterns[0](text).value).value))
    else ParseExpiration(text, patterns[1..], parse)
  }

  /** The result is that of the first pattern, in list order, that yields; None when none does. */
  lemma {:induction false} ParseExpirationFirstMatch(text: string, patterns: seq<Matcher>, parse: DateParser)
    ensures ParseExpiration(text, patterns, parse).None? <==>
            forall k :: 0 <= k < |patterns| ==> !Yields(patterns[k], text, parse)
    ensures ParseExpiration(text, patterns, parse).Some? ==>
            exists k :: 0 <= k < |patterns| && Yields(patterns[k], text, parse) &&
              (forall j :: 0 <= j < k ==> !Yields(patterns[j], text, parse)) &&
              ParseExpiration(text, patterns, parse).value == Seconds(parse(patterns[k](text).value).value)
    decreases |patterns|
  {
    if |patterns| > 0 && !Yields(patterns[0], text, parse) {
      var rest := patterns[1..];
      ParseExpirationFirstMatch(text, rest, parse);
      assert forall k :: 0 <= k < |rest| ==> rest[k] == patterns[k + 1];
      if ParseExpiration(text, rest, parse).Some? {
        var k :| 0 <= k < |rest| && Yields(rest[k], text, parse) &&
          (forall j :: 0 <= j < k ==> !Yields(rest[j], text, parse)) &&
          ParseExpiration(text, rest, parse).value == Seconds(parse(rest[k](text).value).value);
        assert forall j :: 0 <= j < k + 1 ==> !Yields(patterns[j], text, parse) by {
          forall j | 0 <= j < k + 1 ensures !Yields(patterns[j], text, parse) {
            if j > 0 { assert patterns[j] == rest[j - 1]; }
          }
        }
      } else {
        forall k | 0 <= k < |patterns| ensures !Yields(patterns[k], text, parse) {
          if k > 0 { assert patterns[k] == rest[k - 1]; }
        }
      }
    }
  }

  // ---------------------------------------------------------------------------
  // Domain splitting and the probe
  // ---------------------------------------------------------------------------

  datatype DomainParts = DomainParts(keyword: string, tld: string)

  /** Splits at the last '.': the TLD keeps its dot; a name with no dot has an empty TLD. */
  function ParseDomain(domain: string): (r: DomainParts)
    ensures '.' in domain ==>
              r.keyword + r.tld == domain && |r.tld| >= 1 && r.tld[0] == '.' && '.' !in r.tld[1..]
    ensures '.' !in domain ==> r == DomainParts(domain, "")
  {
    var i := LastIndexOf(domain, '.');
    if i == -1 then DomainParts(domain, "")
    else
      var r := DomainParts(domain[..i], "." + domain[i + 1..]);
      assert domain == domain[..i] + [domain[i]] + domain[i + 1..];
      assert r.tld[1..] == domain[i + 1..];
      r
  }

  /** What the WHOIS executor produced: its output, or a rejection. */
  datatype WhoisOutcome = Output(text: string) | Failed

  /** Queries one domain and classifies the answer; a failed query fails open, as available. */
  function CheckDomain(domain: string, executor: string -> WhoisOutcome,
                       patterns: seq<Matcher>, parse: DateParser): (r: DomainResult)
    ensures DomainParts(r.keyword, r.tld) == ParseDomain(domain)
    ensures executor(domain).Failed? ==> r.available && r.expiresAt == None
    ensures executor(domain).Output? ==> r.available == !IsRegistered(executor(domain).text)
    ensures r.available ==> r.expiresAt == None
    ensures !r.available ==> r.expiresAt == ParseExpiration(executor(domain).text, patterns, parse)
  {
    var parts := ParseDomain(domain);
    match executor(domain)
    case Output(text) =>
      var available := !IsRegistered(text);
      var expiresAt := if available then None else ParseExpiration(text, patterns, parse);
      DomainResult(parts.keyword, parts.tld, available, expiresAt)
    case Failed =>
      DomainResult(parts.keyword, parts.tld, true, None)
  }
}
