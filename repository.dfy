/**
 * The `countries` table and the queries of repository/country.go, on an in-memory
 * sequence of rows in storage order. Read-only queries are functions over the rows; the
 * operations that change the table are methods of `CountryStore`.
 */
module Repository {
  import opened Wrappers
  import opened Text
  import opened Models
  import opened Ordering

  /** The table's state: its rows in storage order and the next auto-increment id. */
  datatype Table = Table(rows: seq<Country>, nextId: nat)

  /** The rows are kept in primary-key order: ids increase along the rows (so they are
      distinct) and all lie below the auto-increment counter. */
  predicate TableValid(t: Table) {
    && (forall i :: 0 <= i < |t.rows| ==> t.rows[i].id < t.nextId)
    && (forall i, j :: 0 <= i < j < |t.rows| ==> t.rows[i].id < t.rows[j].id)
  }

  /** Some row carries `id`. */
  predicate HasId(rows: seq<Country>, id: nat) {
    exists i :: 0 <= i < |rows| && rows[i].id == id
  }

  /** `WHERE LOWER(name) = key ... First(...)`: a row whose lower-cased name is `key`, or
      none when no row has it; `FirstMatch` shows it is the first such row. */
  function FindByLowerName(rows: seq<Country>, key: string): (r: Option<Country>)
    ensures r.None? <==> forall i :: 0 <= i < |rows| ==> ToLower(rows[i].name) != key
    ensures r.Some? ==> r.value in rows && ToLower(r.value.name) == key
  {
    if |rows| == 0 then None
    else if ToLower(rows[0].name) == key then Some(rows[0])
    else
      var r := FindByLowerName(rows[1..], key);
      assert forall i :: 1 <= i < |rows| ==> rows[i] == rows[1..][i - 1];
      r
  }

  /** The row `FindByLowerName` returns is the first match in storage order. */
  lemma {:induction false} FirstMatch(rows: seq<Country>, key: string)
    requires FindByLowerName(rows, key).Some?
    ensures exists i :: 0 <= i < |rows| && rows[i] == FindByLowerName(rows, key).value
                        && forall j :: 0 <= j < i ==> ToLower(rows[j].name) != key
  {
    if ToLower(rows[0].name) != key {
      var rest := rows[1..];
      FirstMatch(rest, key);
      var k :| 0 <= k < |rest| && rest[k] == FindByLowerName(rest, key).value
               && forall j :: 0 <= j < k ==> ToLower(rest[j].name) != key;
      assert rows[k + 1] == rest[k];
      forall j | 0 < j < k + 1 ensures ToLower(rows[j].name) != key {
        assert rows[j] == rest[j - 1];
      }
    }
  }

  /** `GetCountryByName`: the first row whose name matches `name` ignoring case, or
      GORM's record-not-found error; `dbFault` is the error the database reports, if the
      query fails. */
  function GetCountryByName(rows: seq<Country>, name: string, dbFault: Option<string>): (r: Result<Country, Error>)
    ensures r.Ok? ==> r.value in rows && ToLower(r.value.name) == ToLower(name)
    ensures r.Err? <==> dbFault.Some? || forall i :: 0 <= i < |rows| ==> ToLower(rows[i].name) != ToLower(name)
    ensures dbFault.Some? ==> r == Err(Plain(dbFault.value))
    ensures dbFault.None? && r.Err? ==> r.error == Plain(RecordNotFound)
  {
    if dbFault.Some? then Err(Plain(dbFault.value))
    else
      match FindByLowerName(rows, ToLower(name))
      case None => Err(Plain(RecordNotFound))
      case Some(c) => Ok(c)
  }

  /** The row `GetCountryByName` returns precedes every other match. */
  lemma GetCountryByNameFirst(rows: seq<Country>, name: string, dbFault: Option<string>)
    requires GetCountryByName(rows, name, dbFault).Ok?
    ensures exists i :: 0 <= i < |rows| && rows[i] == GetCountryByName(rows, name, dbFault).value
                        && forall j :: 0 <= j < i ==> ToLower(rows[j].name) != ToLower(name)
  {
    FirstMatch(rows, ToLower(name));
  }

  /** In a valid table the row `GetCountryByName` returns has the lowest id of all the
      matches: it is the row `First`, which orders by primary key, picks. */
  lemma GetCountryByNameLowestId(t: Table, name: string, dbFault: Option<string>)
    requires TableValid(t) && GetCountryByName(t.rows, name, dbFault).Ok?
    ensures forall i :: 0 <= i < |t.rows| && ToLower(t.rows[i].name) == ToLower(name) ==>
      GetCountryByName(t.rows, name, dbFault).value.id <= t.rows[i].id
  {
    GetCountryByNameFirst(t.rows, name, dbFault);
    var k :| 0 <= k < |t.rows| && t.rows[k] == GetCountryByName(t.rows, name, dbFault).value
             && forall j :: 0 <= j < k ==> ToLower(t.rows[j].name) != ToLower(name);
    forall i | 0 <= i < |t.rows| && ToLower(t.rows[i].name) == ToLower(name)
      ensures t.rows[k].id <= t.rows[i].id
    {
      if i > k {
        assert t.rows[k].id < t.rows[i].id;
      }
    }
  }

  /** GORM `Updates` with a struct, run at instant `at`: only the non-zero fields of
      `data` are written (an empty string, a zero number and a nil pointer leave the column
      as it was), and the id is never written. `LastRefreshedAt` carries GORM's
      `autoUpdateTime` tag, so it gets the instant of the update, whatever `data` holds. */
  function ApplyUpdates(row: Country, data: Country, at: int): (r: Country) {
    row.(
      name := if data.name != "" then data.name else row.name,
      capital := if data.capital != "" then data.capital else row.capital,
      region := if data.region != "" then data.region else row.region,
      population := if data.population != 0 then data.population else row.population,
      currencyCode := if data.currencyCode.Some? then data.currencyCode else row.currencyCode,
      exchangeRate := if data.exchangeRate.Some? then data.exchangeRate else row.exchangeRate,
      estimatedGdp := if data.estimatedGdp.Some? then data.estimatedGdp else row.estimatedGdp,
      flagUrl := if data.flagUrl != "" then data.flagUrl else row.flagUrl,
      lastRefreshedAt := at
    )
  }

  /** `UPDATE ... WHERE id = ?` at instant `at`: every row carrying `id` gets `data` applied. */
  function UpdateRows(rows: seq<Country>, id: nat, data: Country, at: int): (r: seq<Country>)
    ensures |r| == |rows|
    ensures forall i :: 0 <= i < |rows| ==> r[i] == if rows[i].id == id then ApplyUpdates(rows[i], data, at) else rows[i]
  {
    seq(|rows|, i requires 0 <= i < |rows| => if rows[i].id == id then ApplyUpdates(rows[i], data, at) else rows[i])
  }

  /** The `WHERE` conditions the repository's filtering queries use. */
  datatype RowFilter =
    | NameIsNot(key: string)                       // rows a delete-by-name keeps
    | ListFilter(region: string, currency: string) // the listing's optional filters
    | HasGdp                                       // `estimated_gdp IS NOT NULL`

  /** Whether row `c` passes `f`. The table's collation ignores case, so the listing's
      `region = ?` and `currency_code = ?` compare lower-cased text; a NULL code equals
      nothing. */
  predicate Passes(f: RowFilter, c: Country) {
    match f
    case NameIsNot(key) => ToLower(c.name) != key
    case ListFilter(region, currency) =>
      && (IsBlank(region) || ToLower(c.region) == ToLower(region))
      && (IsBlank(currency) || (c.currencyCode.Some? && ToLower(c.currencyCode.value) == ToLower(currency)))
    case HasGdp => c.estimatedGdp.Some?
  }

  /** The rows that pass `f`, in storage order: each passing row keeps its multiplicity
      and each other row is gone. */
  function Keep(rows: seq<Country>, f: RowFilter): (r: seq<Country>)
    ensures forall x :: multiset(r)[x] == if Passes(f, x) then multiset(rows)[x] else 0
    ensures (forall i :: 0 <= i < |rows| ==> Passes(f, rows[i])) ==> r == rows
  {
    if |rows| == 0 then []
    else
      assert rows == [rows[0]] + rows[1..];
      if Passes(f, rows[0]) then [rows[0]] + Keep(rows[1..], f) else Keep(rows[1..], f)
  }

  /** `GetAllCountriesWithFilters`: a permutation of the rows that pass the region and
      currency filters, sorted under the order `sort` selects. */
  function GetAllCountriesWithFilters(rows: seq<Country>, region: string, currency: string, sort: string): (r: seq<Country>)
    ensures Sorted(OrderFor(sort), r)
    ensures forall x :: multiset(r)[x] == if Passes(ListFilter(region, currency), x) then multiset(rows)[x] else 0
  {
    var kept := Keep(rows, ListFilter(region, currency));
    SortRowsCorrect(OrderFor(sort), kept);
    SortRows(OrderFor(sort), kept)
  }

  /** `MAX(last_refreshed_at)`: NULL on an empty table. */
  function MaxRefreshed(rows: seq<Country>): (m: Option<int>)
    ensures m.None? <==> |rows| == 0
    ensures m.Some? ==> exists i :: 0 <= i < |rows| && rows[i].lastRefreshedAt == m.value
    ensures m.Some? ==> forall i :: 0 <= i < |rows| ==> rows[i].lastRefreshedAt <= m.value
  {
    if |rows| == 0 then None
    else
      match MaxRefreshed(rows[1..])
      case None => Some(rows[0].lastRefreshedAt)
      case Some(m) =>
        assert forall i :: 1 <= i < |rows| ==> rows[i] == rows[1..][i - 1];
        Some(if rows[0].lastRefreshedAt < m then m else rows[0].lastRefreshedAt)
  }

  /** The two numbers `GetStats` returns. */
  datatype Stats = Stats(count: nat, lastRefreshedAt: string)

  /** `GetStats`: the row count and the latest refresh instant, formatted by `format`
      (RFC 3339 in the source, never empty), or "" when the table is empty. */
  function GetStats(rows: seq<Country>, format: int -> string): (s: Stats)
    requires forall t :: format(t) != ""
    ensures s.count == |rows|
    ensures s.lastRefreshedAt == "" <==> |rows| == 0
    ensures |rows| > 0 ==> exists i :: 0 <= i < |rows| && s.lastRefreshedAt == format(rows[i].lastRefreshedAt)
                                        && forall j :: 0 <= j < |rows| ==> rows[j].lastRefreshedAt <= rows[i].lastRefreshedAt
  {
    match MaxRefreshed(rows)
    case None => Stats(|rows|, "")
    case Some(m) => Stats(|rows|, format(m))
  }

  /** `GetTopCountriesByGDP(limit)`: rows with a GDP, highest first, at most `limit` of them
      (a negative limit sets none). No row left out has a higher GDP than the last one
      returned, and when fewer than `limit` come back, none is left out. */
  function GetTopCountriesByGdp(rows: seq<Country>, limit: int): (r: seq<Country>)
    ensures limit >= 0 ==> |r| <= limit
    ensures forall i :: 0 <= i < |r| ==> r[i].estimatedGdp.Some?
    ensures Sorted(GdpDesc, r)
    ensures forall x :: multiset(r)[x] <= multiset(rows)[x]
    ensures |r| > 0 ==> forall x :: x in rows && x.estimatedGdp.Some? && x !in r ==>
      x.estimatedGdp.value <= r[|r| - 1].estimatedGdp.value
    ensures limit < 0 || |r| < limit ==> forall x :: x in rows && x.estimatedGdp.Some? ==> x in r
  {
    TopPrefix(rows, limit);
    TopRows(rows, limit)
  }

  /** The rows with a GDP sorted by descending GDP, cut to `limit` when that is not negative. */
  function TopRows(rows: seq<Country>, limit: int): (r: seq<Country>) {
    var s := SortRows(GdpDesc, Keep(rows, HasGdp));
    if 0 <= limit < |s| then s[..limit] else s
  }

  /** What a prefix of the sorted rows with a GDP inherits. */
  lemma TopPrefix(rows: seq<Country>, limit: int)
    ensures var r := TopRows(rows, limit);
      limit >= 0 ==> |r| <= limit
    ensures var r := TopRows(rows, limit);
      forall i :: 0 <= i < |r| ==> r[i].estimatedGdp.Some?
    ensures var r := TopRows(rows, limit);
      Sorted(GdpDesc, r)
    ensures var r := TopRows(rows, limit);
      forall x :: multiset(r)[x] <= multiset(rows)[x]
    ensures var r := TopRows(rows, limit);
      |r| > 0 ==> forall x :: x in rows && x.estimatedGdp.Some? && x !in r ==>
      x.estimatedGdp.value <= r[|r| - 1].estimatedGdp.value
    ensures var r := TopRows(rows, limit);
      limit < 0 || |r| < limit ==> forall x :: x in rows && x.estimatedGdp.Some? ==> x in r
  {
    var s := SortRows(GdpDesc, Keep(rows, HasGdp));
    SortRowsCorrect(GdpDesc, Keep(rows, HasGdp));
    var m := if 0 <= limit < |s| then limit else |s|;
    assert TopRows(rows, limit) == s[..m];
    SortedPrefix(rows, s, m);
  }

  /** The first `m` rows of a sorted permutation of the rows with a GDP. */
  lemma SortedPrefix(rows: seq<Country>, s: seq<Country>, m: nat)
    requires multiset(s) == multiset(Keep(rows, HasGdp)) && Sorted(GdpDesc, s) && m <= |s|
    ensures forall i :: 0 <= i < m ==> s[..m][i].estimatedGdp.Some?
    ensures Sorted(GdpDesc, s[..m])
    ensures forall x :: multiset(s[..m])[x] <= multiset(rows)[x]
    ensures m > 0 ==> forall x :: x in rows && x.estimatedGdp.Some? && x !in s[..m] ==>
      x.estimatedGdp.value <= s[..m][m - 1].estimatedGdp.value
    ensures m == |s| ==> forall x :: x in rows && x.estimatedGdp.Some? ==> x in s[..m]
  {
    KeptRowsPass(rows, HasGdp, s);
    PrefixOfSorted(GdpDesc, s, m);
    PrefixMultiset(s, m);
    KeptRowsIn(rows, HasGdp, s);
    if m > 0 {
      OmittedNotHigher(s, m);
    }
    if m == |s| {
      assert s[..m] == s;
    }
  }

  /** Every passing row of the table appears in a permutation of the kept rows. */
  lemma KeptRowsIn(rows: seq<Country>, f: RowFilter, s: seq<Country>)
    requires multiset(s) == multiset(Keep(rows, f))
    ensures forall x :: x in rows && Passes(f, x) ==> x in s
  {
    forall x | x in rows && Passes(f, x) ensures x in s {
      assert multiset(rows)[x] > 0;
      assert x in multiset(s);
    }
  }

  /** A prefix never holds more copies of a row than the whole. */
  lemma PrefixMultiset(s: seq<Country>, k: nat)
    requires k <= |s|
    ensures forall x :: multiset(s[..k])[x] <= multiset(s)[x]
  {
    assert s == s[..k] + s[k..];
    assert multiset(s) == multiset(s[..k]) + multiset(s[k..]);
  }

  /** In a sequence sorted by descending GDP, a row past the first `k` has no higher GDP
      than the `k`-th. */
  lemma OmittedNotHigher(s: seq<Country>, k: nat)
    requires Sorted(GdpDesc, s) && 0 < k <= |s|
    requires forall i :: 0 <= i < |s| ==> s[i].estimatedGdp.Some?
    ensures forall x :: x in s && x !in s[..k] ==> x.estimatedGdp.value <= s[k - 1].estimatedGdp.value
  {
    forall x | x in s && x !in s[..k] ensures x.estimatedGdp.value <= s[k - 1].estimatedGdp.value {
      var j :| 0 <= j < |s| && s[j] == x;
      assert InOrder(GdpDesc, s[k - 1], s[j]);
    }
  }

  /** A permutation of the kept rows holds only rows that pass and never more copies of a
      row than the table has. */
  lemma KeptRowsPass(rows: seq<Country>, f: RowFilter, s: seq<Country>)
    requires multiset(s) == multiset(Keep(rows, f))
    ensures forall i :: 0 <= i < |s| ==> Passes(f, s[i])
    ensures forall x :: multiset(s)[x] <= multiset(rows)[x]
  {
    forall i | 0 <= i < |s| ensures Passes(f, s[i]) {
      assert s[i] in multiset(s);
    }
  }

  /** A prefix of a sorted sequence is sorted. */
  lemma PrefixOfSorted(o: Order, s: seq<Country>, k: nat)
    requires Sorted(o, s) && k <= |s|
    ensures Sorted(o, s[..k])
  {
    forall i, j | 0 <= i < j < k ensures InOrder(o, s[..k][i], s[..k][j]) {
      assert s[..k][i] == s[i] && s[..k][j] == s[j];
    }
  }

  /** The table as an object the source's methods update in place. */
  class CountryStore {
    var rows: seq<Country>
    var nextId: nat

    predicate Valid()
      reads this
    {
      TableValid(Table(rows, nextId))
    }

    function Snapshot(): (t: Table)
      reads this
    {
      Table(rows, nextId)
    }

    /** The table `AutoMigrate` creates on a fresh database: empty, and MySQL's
        auto-increment starts at 1. */
    constructor ()
      ensures Valid() && rows == [] && nextId == 1
    {
      rows := [];
      nextId := 1;
    }

    /** `CreateNewCountry` (and the pass's `tx.Create`): stores `c` under the next
        auto-increment id, so the table grows by exactly that row; when the database
        reports `dbFault` instead, nothing changes and that error is returned. */
    method CreateNewCountry(c: Country, dbFault: Option<string>) returns (res: Result<Country, Error>)
      requires Valid()
      modifies this
      ensures Valid()
      ensures dbFault.Some? ==> res == Err(Plain(dbFault.value)) && rows == old(rows) && nextId == old(nextId)
      ensures dbFault.None? ==> res == Ok(c.(id := old(nextId)))
                                && rows == old(rows) + [c.(id := old(nextId))] && nextId == old(nextId) + 1
    {
      if dbFault.Some? {
        return Err(Plain(dbFault.value));
      }
      var created := c.(id := nextId);
      rows := rows + [created];
      nextId := nextId + 1;
      res := Ok(created);
    }

    /** GORM `Updates(data)` at instant `at` on the row with `id`; reports how many rows
        it matched. */
    method Updates(id: nat, data: Country, at: int) returns (affected: nat)
      requires Valid()
      modifies this
      ensures Valid()
      ensures rows == UpdateRows(old(rows), id, data, at) && nextId == old(nextId)
      ensures affected == if HasId(old(rows), id) then 1 else 0
    {
      affected := if HasId(rows, id) then 1 else 0;
      rows := UpdateRows(rows, id, data, at);
    }

    /** `UpdateCountry` at instant `at`: the database's error `dbFault`, if it reports one,
        with nothing changed; otherwise applies `data` to the row with `id`, or reports
        GORM's record-not-found error and changes nothing when no row has that id. */
    method UpdateCountry(id: nat, data: Country, at: int, dbFault: Option<string>) returns (err: Option<Error>)
      requires Valid()
      modifies this
      ensures Valid() && nextId == old(nextId)
      ensures dbFault.Some? ==> err == Some(Plain(dbFault.value)) && rows == old(rows)
      ensures dbFault.None? ==> (err.None? <==> HasId(old(rows), id))
      ensures dbFault.None? && err.Some? ==> err.value == Plain(RecordNotFound) && rows == old(rows)
      ensures err.None? ==> rows == UpdateRows(old(rows), id, data, at)
    {
      if dbFault.Some? {
        return Some(Plain(dbFault.value));
      }
      var affected := Updates(id, data, at);
      if affected == 0 {
        err := Some(Plain(RecordNotFound));
      } else {
        err := None;
      }
    }

    /** `DeleteCountryByName`: removes every row whose lower-cased name is the lower-cased
        `name` and keeps every other row; no error when nothing matched. `dbFault` is the
        error the database reports, if it fails. */
    method DeleteCountryByName(name: string, dbFault: Option<string>) returns (err: Option<Error>)
      requires Valid()
      modifies this
      ensures Valid() && nextId == old(nextId)
      ensures dbFault.Some? ==> err == Some(Plain(dbFault.value)) && rows == old(rows)
      ensures dbFault.None? ==> err.None? && rows == Keep(old(rows), NameIsNot(ToLower(name)))
    {
      if dbFault.Some? {
        return Some(Plain(dbFault.value));
      }
      KeepPreservesValid(Table(rows, nextId), NameIsNot(ToLower(name)));
      rows := Keep(rows, NameIsNot(ToLower(name)));
      err := None;
    }

    /** Rolls the table back to a snapshot taken before a transaction. */
    method Rollback(t: Table)
      requires TableValid(t)
      modifies this
      ensures Valid() && Snapshot() == t
    {
      rows, nextId := t.rows, t.nextId;
    }
  }

  /** Filtering a valid table leaves a valid table. */
  lemma {:induction false} KeepPreservesValid(t: Table, f: RowFilter)
    requires TableValid(t)
    ensures TableValid(Table(Keep(t.rows, f), t.nextId))
    decreases |t.rows|
  {
    if |t.rows| > 0 {
      var rest := Table(t.rows[1..], t.nextId);
      KeepPreservesValid(rest, f);
      if Passes(f, t.rows[0]) {
        var tail := Keep(rest.rows, f);
        forall k | 0 <= k < |rest.rows| ensures rest.rows[k].id > t.rows[0].id {
          assert rest.rows[k] == t.rows[k + 1];
        }
        KeptIdsAbove(rest.rows, f, t.rows[0].id);
        PrependValid(t.rows[0], tail, t.nextId);
      }
    }
  }

  /** Every row `Keep` returns is a row of its input. */
  lemma KeptRowFrom(rows: seq<Country>, f: RowFilter, j: nat)
    requires j < |Keep(rows, f)|
    ensures Keep(rows, f)[j] in rows
  {
    assert Keep(rows, f)[j] in multiset(Keep(rows, f));
  }

  /** Rows kept from rows whose ids exceed `lo` have ids exceeding `lo`. */
  lemma KeptIdsAbove(rows: seq<Country>, f: RowFilter, lo: nat)
    requires forall k :: 0 <= k < |rows| ==> rows[k].id > lo
    ensures forall j :: 0 <= j < |Keep(rows, f)| ==> Keep(rows, f)[j].id > lo
  {
    forall j | 0 <= j < |Keep(rows, f)| ensures Keep(rows, f)[j].id > lo {
      KeptRowFrom(rows, f, j);
    }
  }

  lemma PrependValid(c: Country, tail: seq<Country>, nextId: nat)
    requires TableValid(Table(tail, nextId)) && c.id < nextId
    requires forall j :: 0 <= j < |tail| ==> tail[j].id > c.id
    ensures TableValid(Table([c] + tail, nextId))
  {
    var r := [c] + tail;
    forall i, j | 0 <= i < j < |r| ensures r[i].id < r[j].id {
      assert r[j] == tail[j - 1];
      if i > 0 {
        assert r[i] == tail[i - 1];
      }
    }
  }
}
