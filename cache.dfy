/**
 * The result cache: one table keyed by domain, reached through a module-wide
 * handle that `InitCache` opens and `CloseCache` drops, or through a handle
 * passed explicitly. SQLite is replaced by a map; the clock reading is a
 * parameter (`now`, in milliseconds since the epoch).
 */
module Cache {
  import opened Wrappers
  import opened Types

  /** One row of the `cache` table: `available` is 0 or 1, `checkedAt` is in
      milliseconds and `expiresAt` (may be NULL) in seconds. */
  datatype Row = Row(available: int, checkedAt: int, expiresAt: Option<int>)

  /** The row `saveResult` writes at time `now`. */
  function SavedRow(available: bool, now: int, expiresAt: Option<int>): Row {
    Row(if available then 1 else 0, now, expiresAt)
  }

  /** `if (result.expires_at)`: the registry expiry is set and not zero. */
  predicate HasRegistryExpiry(row: Row) {
    row.expiresAt.Some? && row.expiresAt.value != 0
  }

  /** The read-time freshness test: the registry expiry governs when it is known,
      the caller's TTL otherwise. Both boundaries are inclusive. */
  predicate IsFresh(row: Row, ttlMs: int, now: int) {
    if HasRegistryExpiry(row) then !(now > row.expiresAt.value * 1000)
    else !(now - row.checkedAt > ttlMs)
  }

  /** The lookup `getCachedResult` performs on a table. */
  function Lookup(table: map<string, Row>, domain: string, ttlMs: int, now: int): (r: Option<CachedResult>)
    ensures domain !in table ==> r == None
    ensures domain in table ==> (r.Some? <==> IsFresh(table[domain], ttlMs, now))
    ensures r.Some? ==> r.value.domain == domain && r.value.available == (table[domain].available == 1) &&
                        r.value.checkedAt == table[domain].checkedAt && r.value.expiresAt == table[domain].expiresAt
  {
    if domain !in table then None
    else
      var row := table[domain];
      if !IsFresh(row, ttlMs, now) then None
      else Some(CachedResult(domain, row.available == 1, row.checkedAt, row.expiresAt))
  }

  /** A known registry expiry decides freshness alone: the TTL plays no part. */
  lemma ExpiryIgnoresTtl(row: Row, ttl1: int, ttl2: int, now: int)
    requires HasRegistryExpiry(row)
    ensures IsFresh(row, ttl1, now) == IsFresh(row, ttl2, now)
    ensures IsFresh(row, ttl1, now) <==> now <= row.expiresAt.value * 1000
  {
  }

  /** Without a registry expiry (NULL or 0) the row is fresh while its age is within the TTL. */
  lemma TtlGovernsOtherwise(row: Row, ttlMs: int, now: int)
    requires !HasRegistryExpiry(row)
    ensures IsFresh(row, ttlMs, now) <==> now - row.checkedAt <= ttlMs
  {
  }

  /** A save followed at once by a lookup returns what was saved, unless the saved
      registry expiry already lies in the past. */
  lemma SaveThenLookup(table: map<string, Row>, domain: string, available: bool, expiresAt: Option<int>,
                       now: int, ttlMs: int)
    requires ttlMs >= 0
    requires expiresAt.None? || expiresAt.value == 0 || now <= expiresAt.value * 1000
    ensures Lookup(table[domain := SavedRow(available, now, expiresAt)], domain, ttlMs, now) ==
            Some(CachedResult(domain, available, now, expiresAt))
  {
  }

  /** Saving one domain leaves the lookup of every other domain as it was. */
  lemma SaveKeepsOthers(table: map<string, Row>, domain: string, other: string, row: Row, ttlMs: int, now: int)
    requires other != domain
    ensures Lookup(table[domain := row], other, ttlMs, now) == Lookup(table, other, ttlMs, now)
  {
  }

  /** Of two saves of the same domain the later one wins: every lookup after
      both saves answers as if only the later save had been made. */
  lemma LaterSaveWins(table: map<string, Row>, domain: string,
                      first: bool, firstAt: int, firstExpiry: Option<int>,
                      second: bool, secondAt: int, secondExpiry: Option<int>,
                      asked: string, ttlMs: int, now: int)
    ensures var saved := table[domain := SavedRow(first, firstAt, firstExpiry)];
      Lookup(saved[domain := SavedRow(second, secondAt, secondExpiry)], asked, ttlMs, now) ==
      Lookup(table[domain := SavedRow(second, secondAt, secondExpiry)], asked, ttlMs, now)
  {
    var saved := table[domain := SavedRow(first, firstAt, firstExpiry)];
    assert saved[domain := SavedRow(second, secondAt, secondExpiry)] ==
           table[domain := SavedRow(second, secondAt, secondExpiry)];
  }

  /** A cleared table finds nothing. */
  lemma ClearedFindsNothing(domain: string, ttlMs: int, now: int)
    ensures Lookup(map[], domain, ttlMs, now) == None
  {
  }

  /** 60 days in milliseconds. */
  function DefaultTtlMs(): (ms: int)
    ensures ms == 5184000000
  {
    60 * 24 * 60 * 60 * 1000
  }

  function HoursToMs(hours: int): (ms: int)
    ensures ms == hours * 3600000
    ensures hours == 1440 ==> ms == DefaultTtlMs()
  {
    hours * 60 * 60 * 1000
  }

  /** `${HOME}/.tldhunt/cache.db` */
  function DefaultCachePath(home: string): (path: string)
    ensures |home| <= |path| && path[..|home|] == home && path[|home|..] == "/.tldhunt/cache.db"
  {
    home + "/.tldhunt/cache.db"
  }

  /** An open database file holding the `cache` table. */
  class Database {
    const path: string
    var table: map<string, Row>
    var isOpen: bool

    /** Opening the file at `path` finds the rows stored there by earlier runs. */
    constructor (path: string, stored: map<string, Row>)
      ensures this.path == path && table == stored && isOpen
    {
      this.path := path;
      table := stored;
      isOpen := true;
    }

    method Close()
      modifies this
      ensures !isOpen && table == old(table)
    {
      isOpen := false;
    }
  }

  /** The module-wide handle `db`. */
  class CacheModule {
    var db: Database?

    ghost predicate Valid()
      reads this, db
    {
      db != null ==> db.isOpen
    }

    constructor ()
      ensures Valid() && db == null
    {
      db := null;
    }

    /** `database ?? db` */
    function Handle(database: Database?): Database?
      reads this
    {
      if database != null then database else db
    }

    /** Returns the open handle if there is one; otherwise opens the file at
        `customPath`, or at the default path under `home`, and keeps the handle. */
    method InitCache(customPath: Option<string>, home: string, stored: map<string, Row>) returns (h: Database)
      requires Valid()
      modifies this
      ensures Valid() && db == h
      ensures old(db) != null ==> h == old(db) && unchanged(h)
      ensures old(db) == null ==> fresh(h) && h.path == customPath.GetOr(DefaultCachePath(home)) &&
                                  h.table == stored && h.isOpen
    {
      var path := customPath.GetOr(DefaultCachePath(home));
      if db != null {
        return db;
      }
      h := new Database(path, stored);
      db := h;
    }

    /** The cached verdict for `domain`, or None when there is no handle, no row, or the row is stale. */
    method GetCachedResult(domain: string, ttlMs: int, database: Database?, now: int) returns (r: Option<CachedResult>)
      requires Valid() && (database != null ==> database.isOpen)
      ensures Handle(database) == null ==> r == None
      ensures Handle(database) != null ==> r == Lookup(Handle(database).table, domain, ttlMs, now)
    {
      var h := if database != null then database else db;
      if h == null {
        return None;
      }
      if domain !in h.table {
        return None;
      }
      var row := h.table[domain];
      if HasRegistryExpiry(row) {
        if now > row.expiresAt.value * 1000 {
          return None;
        }
      } else {
        var age := now - row.checkedAt;
        if age > ttlMs {
          return None;
        }
      }
      r := Some(CachedResult(domain, row.available == 1, row.checkedAt, row.expiresAt));
    }

    /** INSERT OR REPLACE of the row for `domain`, stamped with `now`; nothing without a handle. */
    method SaveResult(domain: string, available: bool, expiresAt: Option<int>, database: Database?, now: int)
      requires Valid() && (database != null ==> database.isOpen)
      modifies (if Handle(database) != null then {Handle(database)} else {})`table
      ensures Valid()
      ensures Handle(database) != null ==> Handle(database).isOpen == old(Handle(database).isOpen)
      ensures Handle(database) != null ==>
                Handle(database).table == old(Handle(database).table)[domain := SavedRow(available, now, expiresAt)]
    {
      var h := if database != null then database else db;
      if h == null {
        return;
      }
      h.table := h.table[domain := SavedRow(available, now, expiresAt)];
    }

    /** Deletes every row and returns how many there were; 0 without a handle. */
    method ClearCache(database: Database?) returns (changes: nat)
      requires Valid() && (database != null ==> database.isOpen)
      modifies (if Handle(database) != null then {Handle(database)} else {})`table
      ensures Valid()
      ensures Handle(database) != null ==> Handle(database).isOpen == old(Handle(database).isOpen)
      ensures Handle(database) == null ==> changes == 0
      ensures Handle(database) != null ==> changes == |old(Handle(database).table)| && Handle(database).table == map[]
    {
      var h := if database != null then database else db;
      if h == null {
        return 0;
      }
      changes := |h.table|;
      h.table := map[];
    }

    /** Closes and forgets an open handle; does nothing when there is none. */
    method CloseCache()
      requires Valid()
      modifies this, db
      ensures Valid() && db == null
      ensures old(db) != null ==> !old(db).isOpen && old(db).table == old(db.table)
    {
      if db != null {
        db.Close();
        db := null;
      }
    }
  }
}
