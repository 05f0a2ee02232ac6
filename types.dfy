/** The records the program passes between its parts. */
module Types {
  import opened Wrappers

  /** The verdict for one domain; `expiresAt` is the registry expiry in seconds since the epoch. */
  datatype DomainResult = DomainResult(keyword: string, tld: string, available: bool, expiresAt: Option<int>)

  /** One entry of the JSON report. */
  datatype JsonOutput = JsonOutput(domain: string, available: bool)

  /** The verdict of argument validation; `error` is set exactly when `valid` is false. */
  datatype ValidationResult = ValidationResult(valid: bool, error: Option<string>)

  /** What refreshing the TLD list reports: how many entries were written, and where. */
  datatype UpdateResult = UpdateResult(count: nat, file: string)

  /** A cache row as handed back to callers; `checkedAt` is in milliseconds. */
  datatype CachedResult = CachedResult(domain: string, available: bool, checkedAt: int, expiresAt: Option<int>)
}
