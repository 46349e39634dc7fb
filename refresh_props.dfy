/**
 * What the refresh pass of services/services.go guarantees, stated on `Step` and `Run`:
 * one row per lower-cased name, every batch country refreshed no earlier than the pass's
 * start (inserted rows carry exactly that instant, updated ones their update's), rows
 * updated in place, validation on the insert path only, the first error ending the pass,
 * and a repeated pass adding no rows.
 */
module RefreshProps {
  import opened Wrappers
  import opened Text
  import opened Models
  import opened Clients
  import opened Currency
  import opened Repository
  import opened Services

  /** Some row's lower-cased name is `key`. */
  predicate HasName(rows: seq<Country>, key: string) {
    exists i :: 0 <= i < |rows| && ToLower(rows[i].name) == key
  }

  /** Some row's lower-cased name is `key` and it was last refreshed at instant `now` or
      later. */
  predicate RefreshedSince(rows: seq<Country>, key: string, now: int) {
    exists i :: 0 <= i < |rows| && ToLower(rows[i].name) == key && rows[i].lastRefreshedAt >= now
  }

  /** At most one row per lower-cased name. */
  predicate NamesUnique(rows: seq<Country>) {
    forall i, j :: 0 <= i < j < |rows| ==> ToLower(rows[i].name) != ToLower(rows[j].name)
  }

  /** The record the k-th country of a pass writes. */
  function RecordOf(c: RawCountry, k: nat, env: PassEnv): (record: Country) {
    BuildRecord(c, Derive(c, env.rates, env.rng(k)), env.now)
  }

  /** With distinct ids, an update by the id of row `j` rewrites row `j` and nothing else. */
  lemma UpdateOneRow(rows: seq<Country>, j: nat, data: Country, at: int)
    requires j < |rows| && forall a, b :: 0 <= a < b < |rows| ==> rows[a].id != rows[b].id
    ensures UpdateRows(rows, rows[j].id, data, at) == rows[j := ApplyUpdates(rows[j], data, at)]
  {
    var r := UpdateRows(rows, rows[j].id, data, at);
    forall i | 0 <= i < |rows| ensures r[i] == rows[j := ApplyUpdates(rows[j], data, at)][i] {
      if i < j {
        assert rows[i].id != rows[j].id;
      } else if i > j {
        assert rows[j].id != rows[i].id;
      }
    }
  }

  /** A successful step either appends the country's record under the next id, when no
      row has the country's lower-cased name, or rewrites in place a row that has it. */
  lemma StepOk(t: Table, c: RawCountry, k: nat, env: PassEnv)
    requires TableValid(t) && Step(t, c, k, env).Ok?
    ensures k !in env.faults
    ensures !HasName(t.rows, ToLower(c.name)) ==>
      Step(t, c, k, env).value == Table(t.rows + [RecordOf(c, k, env).(id := t.nextId)], t.nextId + 1)
    ensures HasName(t.rows, ToLower(c.name)) ==>
      exists j :: 0 <= j < |t.rows| && ToLower(t.rows[j].name) == ToLower(c.name)
        && Step(t, c, k, env).value
           == Table(t.rows[j := ApplyUpdates(t.rows[j], RecordOf(c, k, env), UpdateInstant(env, k))], t.nextId)
  {
    var v := Derive(c, env.rates, env.rng(k));
    assert Step(t, c, k, env) == Upsert(t, c, v, k, env);
    var found := FindByLowerName(t.rows, ToLower(c.name));
    if found.Some? {
      var j :| 0 <= j < |t.rows| && t.rows[j] == found.value;
      UpdateOneRow(t.rows, j, RecordOf(c, k, env), UpdateInstant(env, k));
    }
  }

  /** Merging a record whose lower-cased name is the row's keeps that lower-cased name and
      the row's id, and stamps the instant of the update. */
  lemma ApplyKeepsName(row: Country, data: Country, at: int)
    requires ToLower(row.name) == ToLower(data.name)
    ensures var m := ApplyUpdates(row, data, at);
      ToLower(m.name) == ToLower(data.name) && m.id == row.id && m.lastRefreshedAt == at
  {
  }

  /** What a step that appends `x` under the next id keeps and establishes. */
  lemma AppendFacts(t: Table, x: Country, now: int)
    requires TableValid(t)
    ensures var r := Table(t.rows + [x.(id := t.nextId)], t.nextId + 1);
      && TableValid(r)
      && (NamesUnique(t.rows) && !HasName(t.rows, ToLower(x.name)) ==> NamesUnique(r.rows))
      && (x.lastRefreshedAt >= now ==> RefreshedSince(r.rows, ToLower(x.name), now))
      && (forall key :: RefreshedSince(t.rows, key, now) ==> RefreshedSince(r.rows, key, now))
      && (forall key :: HasName(t.rows, key) ==> HasName(r.rows, key))
      && (forall i :: 0 <= i < |t.rows| ==> r.rows[i] == t.rows[i])
  {
    var r := Table(t.rows + [x.(id := t.nextId)], t.nextId + 1);
    assert forall i :: 0 <= i < |t.rows| ==> r.rows[i] == t.rows[i];
    assert r.rows[|t.rows|] == x.(id := t.nextId);
    forall key | RefreshedSince(t.rows, key, now) ensures RefreshedSince(r.rows, key, now) {
      var i :| 0 <= i < |t.rows| && ToLower(t.rows[i].name) == key && t.rows[i].lastRefreshedAt >= now;
      assert r.rows[i] == t.rows[i];
    }
    forall key | HasName(t.rows, key) ensures HasName(r.rows, key) {
      var i :| 0 <= i < |t.rows| && ToLower(t.rows[i].name) == key;
      assert r.rows[i] == t.rows[i];
    }
  }

  /** What a step that rewrites row `j` with a row of the same id and lower-cased name
      keeps and establishes. */
  lemma RewriteFacts(t: Table, j: nat, x: Country, now: int)
    requires TableValid(t) && j < |t.rows|
    requires x.id == t.rows[j].id && ToLower(x.name) == ToLower(t.rows[j].name)
    ensures var r := Table(t.rows[j := x], t.nextId);
      && TableValid(r)
      && (NamesUnique(t.rows) ==> NamesUnique(r.rows))
      && (x.lastRefreshedAt >= now ==> RefreshedSince(r.rows, ToLower(x.name), now))
      && (x.lastRefreshedAt >= now ==> forall key :: RefreshedSince(t.rows, key, now) ==> RefreshedSince(r.rows, key, now))
      && (forall key :: HasName(t.rows, key) ==> HasName(r.rows, key))
      && (forall i :: 0 <= i < |t.rows| ==> r.rows[i].id == t.rows[i].id)
      && (forall i :: 0 <= i < |t.rows| && i != j ==> r.rows[i] == t.rows[i])
  {
    var r := Table(t.rows[j := x], t.nextId);
    assert forall i :: 0 <= i < |t.rows| ==> r.rows[i].id == t.rows[i].id && ToLower(r.rows[i].name) == ToLower(t.rows[i].name);
    if x.lastRefreshedAt >= now {
      forall key | RefreshedSince(t.rows, key, now) ensures RefreshedSince(r.rows, key, now) {
        var i :| 0 <= i < |t.rows| && ToLower(t.rows[i].name) == key && t.rows[i].lastRefreshedAt >= now;
        assert ToLower(r.rows[i].name) == key && r.rows[i].lastRefreshedAt >= now;
      }
    }
    forall key | HasName(t.rows, key) ensures HasName(r.rows, key) {
      var i :| 0 <= i < |t.rows| && ToLower(t.rows[i].name) == key;
      assert ToLower(r.rows[i].name) == key;
    }
  }

  /** A successful step keeps the table valid and its lower-cased names unique, leaves the
      country's lower-cased name refreshed no earlier than the pass's start, keeps every
      such refresh and every name
      that was there, keeps every existing row at its position with its id, leaves rows of
      other lower-cased names untouched and adds a row only for a new name. */
  lemma StepFacts(t: Table, c: RawCountry, k: nat, env: PassEnv, r: Table)
    requires TableValid(t) && Step(t, c, k, env) == Ok(r)
    ensures TableValid(r)
    ensures NamesUnique(t.rows) ==> NamesUnique(r.rows)
    ensures RefreshedSince(r.rows, ToLower(c.name), env.now)
    ensures forall key :: RefreshedSince(t.rows, key, env.now) ==> RefreshedSince(r.rows, key, env.now)
    ensures forall key :: HasName(t.rows, key) ==> HasName(r.rows, key)
    ensures |r.rows| == if HasName(t.rows, ToLower(c.name)) then |t.rows| else |t.rows| + 1
    ensures forall i :: 0 <= i < |t.rows| ==> r.rows[i].id == t.rows[i].id
    ensures forall i :: 0 <= i < |t.rows| && ToLower(t.rows[i].name) != ToLower(c.name) ==> r.rows[i] == t.rows[i]
  {
    StepOk(t, c, k, env);
    var rec := RecordOf(c, k, env);
    if HasName(t.rows, ToLower(c.name)) {
      var j :| 0 <= j < |t.rows| && ToLower(t.rows[j].name) == ToLower(c.name)
               && r == Table(t.rows[j := ApplyUpdates(t.rows[j], rec, UpdateInstant(env, k))], t.nextId);
      ApplyKeepsName(t.rows[j], rec, UpdateInstant(env, k));
      RewriteFacts(t, j, ApplyUpdates(t.rows[j], rec, UpdateInstant(env, k)), env.now);
    } else {
      AppendFacts(t, rec, env.now);
    }
  }

  /** A country whose lower-cased name already has a row is never validated: barring a
      database error it updates that row, whatever its name, population or currency, and
      the row count and the id counter stay as they were. */
  lemma ExistingRowNotValidated(t: Table, c: RawCountry, k: nat, env: PassEnv)
    requires HasName(t.rows, ToLower(c.name)) && k !in env.faults
    ensures Step(t, c, k, env).Ok?
    ensures |Step(t, c, k, env).value.rows| == |t.rows| && Step(t, c, k, env).value.nextId == t.nextId
  {
    var v := Derive(c, env.rates, env.rng(k));
    assert Step(t, c, k, env) == Upsert(t, c, v, k, env);
  }

  /** A country whose lower-cased name has no row, and whose lookup succeeds, fails with
      the "Validation failed" error carrying exactly the failing fields if and only if
      some field fails. */
  lemma NewRowValidated(t: Table, c: RawCountry, k: nat, env: PassEnv)
    requires !HasName(t.rows, ToLower(c.name)) && !(k in env.faults && env.faults[k].FindFault?)
    ensures var details := Validate(c, Derive(c, env.rates, env.rng(k)).currencyCode);
      Step(t, c, k, env) == Err(Validation(ValidationFailed, details)) <==> |details| > 0
  {
    var v := Derive(c, env.rates, env.rng(k));
    assert Step(t, c, k, env) == Upsert(t, c, v, k, env);
    assert Upsert(t, c, v, k, env) == Insert(t, c, v, k, env);
  }

  /** `key` is the lower-cased name of one of the first `n` countries of the batch. */
  predicate InBatch(batch: seq<RawCountry>, n: nat, key: string) {
    exists j :: 0 <= j < n && j < |batch| && ToLower(batch[j].name) == key
  }

  /** What holds of the working table `w` a run from `t` reaches after `i` countries. */
  ghost predicate Reached(t: Table, batch: seq<RawCountry>, now: int, i: nat, w: Table) {
    && TableValid(w) && NamesUnique(w.rows)
    && (forall j :: 0 <= j < i && j < |batch| ==> RefreshedSince(w.rows, ToLower(batch[j].name), now))
    && (forall key :: HasName(t.rows, key) ==> HasName(w.rows, key))
    && |t.rows| <= |w.rows| <= |t.rows| + i
    && (forall x :: 0 <= x < |t.rows| ==> w.rows[x].id == t.rows[x].id)
    && (forall x :: 0 <= x < |t.rows| && !InBatch(batch, i, ToLower(t.rows[x].name)) ==> w.rows[x] == t.rows[x])
  }

  /** One successful step carries `Reached` from one country to the next. */
  lemma ReachedStep(t: Table, batch: seq<RawCountry>, env: PassEnv, i: nat, w: Table)
    requires i < |batch| && Reached(t, batch, env.now, i, w) && Step(w, batch[i], i, env).Ok?
    ensures Reached(t, batch, env.now, i + 1, Step(w, batch[i], i, env).value)
  {
    var r := Step(w, batch[i], i, env).value;
    StepFacts(w, batch[i], i, env, r);
    forall x | 0 <= x < |t.rows| && !InBatch(batch, i + 1, ToLower(t.rows[x].name))
      ensures r.rows[x] == t.rows[x]
    {
      assert !InBatch(batch, i, ToLower(t.rows[x].name));
      assert ToLower(batch[i].name) != ToLower(t.rows[x].name);
    }
  }

  /** A successful run keeps the table valid and its lower-cased names unique, even when
      the batch repeats a name in another case; it leaves every country of the batch
      refreshed no earlier than the pass's start; it keeps every name that was there and every row at its
      position with its id, leaves every row whose lower-cased name is not in the batch
      exactly as it was, and adds at most one row per country. */
  lemma RunFacts(t: Table, batch: seq<RawCountry>, n: nat, env: PassEnv)
    requires n <= |batch| && TableValid(t) && NamesUnique(t.rows) && Run(t, batch, n, env).Ok?
    ensures Reached(t, batch, env.now, n, Run(t, batch, n, env).value)
  {
    var p := (i: nat, w: Table) => Reached(t, batch, env.now, i, w);
    forall i: nat, w: Table | i < |batch| && p(i, w) && StepOf(env)(w, batch[i], i).Ok?
      ensures p(i + 1, StepOf(env)(w, batch[i], i).value)
    {
      ReachedStep(t, batch, env, i, w);
    }
    FoldInduction(StepOf(env), p, t, batch, n);
  }

  /** Runs over two batches that agree on their first `n` countries agree up to `n`. */
  lemma {:induction false} FoldDependsOnPrefix(step: StepFn, t: Table, b1: seq<RawCountry>, b2: seq<RawCountry>, n: nat)
    requires n <= |b1| && n <= |b2| && b1[..n] == b2[..n]
    ensures Fold(step, t, b1, n) == Fold(step, t, b2, n)
  {
    if n > 0 {
      assert b1[..n - 1] == b1[..n][..n - 1] && b2[..n - 1] == b2[..n][..n - 1];
      assert b1[n - 1] == b1[..n][n - 1] && b2[n - 1] == b2[..n][n - 1];
      FoldDependsOnPrefix(step, t, b1, b2, n - 1);
    }
  }

  /** The first error ends the pass: once the first `n` countries fail, the pass returns
      that error and the table as it was, whatever countries follow them. */
  lemma FirstErrorWins(t: Table, batch: seq<RawCountry>, n: nat, env: PassEnv)
    requires n <= |batch| && Run(t, batch, n, env).Err?
    ensures forall rest :: RefreshPass(t, Some(batch[..n] + rest), Some(env.rates), env.now, env.rng, env.lag, env.faults)
                           == Outcome(Err(Run(t, batch, n, env).error), t)
  {
    forall rest ensures RefreshPass(t, Some(batch[..n] + rest), Some(env.rates), env.now, env.rng, env.lag, env.faults)
                        == Outcome(Err(Run(t, batch, n, env).error), t)
    {
      var other := batch[..n] + rest;
      assert other[..n] == batch[..n];
      assert env == PassEnv(env.rates, env.now, env.rng, env.lag, env.faults);
      FoldDependsOnPrefix(StepOf(env), t, batch, other, n);
      FailureIsFinal(StepOf(env), t, other, n, |other|);
    }
  }

  /** A run over countries whose lower-cased names all have rows adds no row. */
  lemma RunOverKnownNames(t: Table, batch: seq<RawCountry>, n: nat, env: PassEnv)
    requires n <= |batch| && TableValid(t) && Run(t, batch, n, env).Ok?
    requires forall j :: 0 <= j < |batch| ==> HasName(t.rows, ToLower(batch[j].name))
    ensures |Run(t, batch, n, env).value.rows| == |t.rows|
  {
    var p := (i: nat, w: Table) =>
      TableValid(w) && |w.rows| == |t.rows| && forall key :: HasName(t.rows, key) ==> HasName(w.rows, key);
    forall i: nat, w: Table | i < |batch| && p(i, w) && StepOf(env)(w, batch[i], i).Ok?
      ensures p(i + 1, StepOf(env)(w, batch[i], i).value)
    {
      StepFacts(w, batch[i], i, env, StepOf(env)(w, batch[i], i).value);
    }
    FoldInduction(StepOf(env), p, t, batch, n);
  }

  /** Refreshing again with the same countries adds no row: after a committed pass every
      country's lower-cased name has a row, so a second committed pass only updates. */
  lemma SecondPassAddsNoRows(t: Table, batch: seq<RawCountry>, env1: PassEnv, env2: PassEnv)
    requires TableValid(t) && NamesUnique(t.rows)
    requires Run(t, batch, |batch|, env1).Ok?
    requires Run(Run(t, batch, |batch|, env1).value, batch, |batch|, env2).Ok?
    ensures |Run(Run(t, batch, |batch|, env1).value, batch, |batch|, env2).value.rows|
            == |Run(t, batch, |batch|, env1).value.rows|
  {
    var t1 := Run(t, batch, |batch|, env1).value;
    RunFacts(t, batch, |batch|, env1);
    forall j | 0 <= j < |batch| ensures HasName(t1.rows, ToLower(batch[j].name)) {
      assert RefreshedSince(t1.rows, ToLower(batch[j].name), env1.now);
    }
    RunOverKnownNames(t1, batch, |batch|, env2);
  }

  /** No two countries of the batch share a lower-cased name. */
  predicate BatchNamesDistinct(batch: seq<RawCountry>) {
    forall i, j :: 0 <= i < j < |batch| ==> ToLower(batch[i].name) != ToLower(batch[j].name)
  }

  /** `a` and `b` agree in every column but `LastRefreshedAt`. */
  predicate SameApartFromStamp(a: Country, b: Country) {
    a == b.(lastRefreshedAt := a.lastRefreshedAt)
  }

  /** Merging `data` into `row` leaves `row` as it is, stamp aside. */
  predicate Absorbs(row: Country, data: Country) {
    ApplyUpdates(row, data, row.lastRefreshedAt) == row
  }

  /** The merge reads neither the row's stamp nor the record's. */
  lemma MergeIgnoresStamps(r1: Country, r2: Country, d1: Country, d2: Country, at: int)
    requires SameApartFromStamp(r1, r2) && SameApartFromStamp(d1, d2)
    ensures ApplyUpdates(r1, d1, at) == ApplyUpdates(r2, d2, at)
  {
  }

  /** A row that absorbs a record changes only its stamp when the record is merged in. */
  lemma AbsorbedMerge(row: Country, data: Country, at: int)
    requires Absorbs(row, data)
    ensures SameApartFromStamp(ApplyUpdates(row, data, at), row)
  {
  }

  /** Merging a record twice is merging it once: the merged row absorbs the record. */
  lemma MergeTwice(row: Country, data: Country, at: int)
    ensures Absorbs(ApplyUpdates(row, data, at), data)
  {
  }

  /** A row inserted from a record absorbs that record. */
  lemma InsertedAbsorbs(data: Country, id: nat)
    ensures Absorbs(data.(id := id), data)
  {
  }

  /** Every row whose lower-cased name is that of one of the first `i` countries of the
      batch absorbs that country's record. */
  predicate Settled(w: Table, batch: seq<RawCountry>, env: PassEnv, i: nat) {
    forall x, j :: 0 <= x < |w.rows| && 0 <= j < i && j < |batch| && ToLower(w.rows[x].name) == ToLower(batch[j].name)
      ==> Absorbs(w.rows[x], RecordOf(batch[j], j, env))
  }

  /** A successful step over a batch with distinct names carries `Settled` to the next
      country: the row it writes absorbs its record, and it touches no other row. */
  lemma SettledStep(w: Table, batch: seq<RawCountry>, env: PassEnv, i: nat)
    requires i < |batch| && TableValid(w) && NamesUnique(w.rows) && BatchNamesDistinct(batch)
    requires Settled(w, batch, env, i) && Step(w, batch[i], i, env).Ok?
    ensures Settled(Step(w, batch[i], i, env).value, batch, env, i + 1)
  {
    var r := Step(w, batch[i], i, env).value;
    var c := batch[i];
    var rec := RecordOf(c, i, env);
    StepOk(w, c, i, env);
    if HasName(w.rows, ToLower(c.name)) {
      var at := UpdateInstant(env, i);
      var j0 :| 0 <= j0 < |w.rows| && ToLower(w.rows[j0].name) == ToLower(c.name)
                && r == Table(w.rows[j0 := ApplyUpdates(w.rows[j0], rec, at)], w.nextId);
      ApplyKeepsName(w.rows[j0], rec, at);
      MergeTwice(w.rows[j0], rec, at);
      forall x, j | 0 <= x < |r.rows| && 0 <= j < i + 1 && j < |batch| && ToLower(r.rows[x].name) == ToLower(batch[j].name)
        ensures Absorbs(r.rows[x], RecordOf(batch[j], j, env))
      {
        if x == j0 {
          assert j == i;
        } else {
          assert r.rows[x] == w.rows[x];
          assert j < i;
        }
      }
    } else {
      InsertedAbsorbs(rec, w.nextId);
      forall x, j | 0 <= x < |r.rows| && 0 <= j < i + 1 && j < |batch| && ToLower(r.rows[x].name) == ToLower(batch[j].name)
        ensures Absorbs(r.rows[x], RecordOf(batch[j], j, env))
      {
        if x < |w.rows| {
          assert r.rows[x] == w.rows[x];
          assert j < i;
        } else {
          assert r.rows[x] == rec.(id := w.nextId);
          assert j == i;
        }
      }
    }
  }

  /** After a successful run over a batch with distinct names, every row of a batch
      country absorbs that country's record. */
  lemma FirstPassSettles(t: Table, batch: seq<RawCountry>, env: PassEnv)
    requires TableValid(t) && NamesUnique(t.rows) && BatchNamesDistinct(batch)
    requires Run(t, batch, |batch|, env).Ok?
    ensures Settled(Run(t, batch, |batch|, env).value, batch, env, |batch|)
  {
    var p := (i: nat, w: Table) => TableValid(w) && NamesUnique(w.rows) && Settled(w, batch, env, i);
    forall i: nat, w: Table | i < |batch| && p(i, w) && StepOf(env)(w, batch[i], i).Ok?
      ensures p(i + 1, StepOf(env)(w, batch[i], i).value)
    {
      StepFacts(w, batch[i], i, env, StepOf(env)(w, batch[i], i).value);
      SettledStep(w, batch, env, i);
    }
    FoldInduction(StepOf(env), p, t, batch, |batch|);
  }

  /** `w` is `t1` with at most its stamps changed. */
  predicate StampsOnly(w: Table, t1: Table) {
    && |w.rows| == |t1.rows| && w.nextId == t1.nextId
    && forall x :: 0 <= x < |t1.rows| ==> SameApartFromStamp(w.rows[x], t1.rows[x])
  }

  /** Rewriting one row of `w` with a row that differs from `t1`'s only in its stamp keeps
      `w` within `t1`'s stamps. */
  lemma RewriteStampsOnly(w: Table, t1: Table, j: nat, m: Country)
    requires StampsOnly(w, t1) && j < |w.rows| && SameApartFromStamp(m, t1.rows[j])
    ensures StampsOnly(Table(w.rows[j := m], w.nextId), t1)
  {
  }

  /** One country of the re-run: its row has a name, the step merges the country's record
      into it, and the row absorbed the first pass's record, so only its stamp changes. */
  lemma RerunStep(t1: Table, batch: seq<RawCountry>, env1: PassEnv, env2: PassEnv, i: nat, w: Table)
    requires i < |batch| && TableValid(t1) && Settled(t1, batch, env1, |batch|)
    requires HasName(t1.rows, ToLower(batch[i].name))
    requires env2.rates == env1.rates && env2.rng == env1.rng && env2.faults == map[]
    requires StampsOnly(w, t1)
    ensures Step(w, batch[i], i, env2).Ok? && StampsOnly(Step(w, batch[i], i, env2).value, t1)
  {
    var c := batch[i];
    assert TableValid(w) by {
      assert forall x :: 0 <= x < |w.rows| ==> w.rows[x].id == t1.rows[x].id;
    }
    var x0 :| 0 <= x0 < |t1.rows| && ToLower(t1.rows[x0].name) == ToLower(c.name);
    assert ToLower(w.rows[x0].name) == ToLower(c.name);
    ExistingRowNotValidated(w, c, i, env2);
    StepOk(w, c, i, env2);
    var at := UpdateInstant(env2, i);
    var rec2 := RecordOf(c, i, env2);
    var rec1 := RecordOf(c, i, env1);
    var r := Step(w, c, i, env2).value;
    var j0 :| 0 <= j0 < |w.rows| && ToLower(w.rows[j0].name) == ToLower(c.name)
              && r == Table(w.rows[j0 := ApplyUpdates(w.rows[j0], rec2, at)], w.nextId);
    assert SameApartFromStamp(w.rows[j0], t1.rows[j0]);
    assert w.rows[j0].name == t1.rows[j0].name;
    assert Absorbs(t1.rows[j0], rec1);
    MergeIgnoresStamps(w.rows[j0], t1.rows[j0], rec2, rec1, at);
    AbsorbedMerge(t1.rows[j0], rec1, at);
    RewriteStampsOnly(w, t1, j0, ApplyUpdates(w.rows[j0], rec2, at));
  }

  /** Re-running a batch over a table it has settled, with the same rates and draws and no
      database error, succeeds and changes no column but the stamps. */
  lemma RerunChangesOnlyStamps(t1: Table, batch: seq<RawCountry>, env1: PassEnv, env2: PassEnv)
    requires TableValid(t1) && Settled(t1, batch, env1, |batch|)
    requires forall j :: 0 <= j < |batch| ==> HasName(t1.rows, ToLower(batch[j].name))
    requires env2.rates == env1.rates && env2.rng == env1.rng && env2.faults == map[]
    ensures Run(t1, batch, |batch|, env2).Ok? && StampsOnly(Run(t1, batch, |batch|, env2).value, t1)
  {
    var p := (i: nat, w: Table) => StampsOnly(w, t1);
    forall i: nat, w: Table | i < |batch| && p(i, w)
      ensures StepOf(env2)(w, batch[i], i).Ok? && p(i + 1, StepOf(env2)(w, batch[i], i).value)
    {
      RerunStep(t1, batch, env1, env2, i, w);
    }
    FoldSucceeds(StepOf(env2), p, t1, batch, |batch|);
  }

  /** Refreshing a second time with the same countries, the same rate table and the same
      draws, and no database error, commits and changes no column but `LastRefreshedAt`:
      every merge of the second pass writes back what the first pass stored. Stated for a
      batch whose lower-cased names are distinct. */
  lemma SecondPassChangesOnlyStamps(t: Table, batch: seq<RawCountry>, rates: map<string, real>, rng: nat -> Draw,
                                    now1: int, lag1: nat -> nat, now2: int, lag2: nat -> nat)
    requires TableValid(t) && NamesUnique(t.rows) && BatchNamesDistinct(batch)
    requires RefreshPass(t, Some(batch), Some(rates), now1, rng, lag1, map[]).result.Ok?
    ensures var t1 := RefreshPass(t, Some(batch), Some(rates), now1, rng, lag1, map[]).table;
      var o2 := RefreshPass(t1, Some(batch), Some(rates), now2, rng, lag2, map[]);
      && o2.result.Ok?
      && |o2.table.rows| == |t1.rows| && o2.table.nextId == t1.nextId
      && forall x :: 0 <= x < |t1.rows| ==> SameApartFromStamp(o2.table.rows[x], t1.rows[x])
  {
    var env1 := PassEnv(rates, now1, rng, lag1, map[]);
    var env2 := PassEnv(rates, now2, rng, lag2, map[]);
    var t1 := Run(t, batch, |batch|, env1).value;
    RunFacts(t, batch, |batch|, env1);
    FirstPassSettles(t, batch, env1);
    forall j | 0 <= j < |batch| ensures HasName(t1.rows, ToLower(batch[j].name)) {
      assert RefreshedSince(t1.rows, ToLower(batch[j].name), env1.now);
    }
    RerunChangesOnlyStamps(t1, batch, env1, env2);
  }

  /** A committed pass over a valid table leaves at most one row per lower-cased name,
      every fetched country refreshed no earlier than the pass's start. */
  lemma CommittedPass(t: Table, countries: seq<RawCountry>, rates: map<string, real>, now: int,
                      rng: nat -> Draw, lag: nat -> nat, faults: map<nat, Fault>)
    requires TableValid(t) && NamesUnique(t.rows)
    requires RefreshPass(t, Some(countries), Some(rates), now, rng, lag, faults).result.Ok?
    ensures var o := RefreshPass(t, Some(countries), Some(rates), now, rng, lag, faults);
      && TableValid(o.table) && NamesUnique(o.table.rows)
      && forall j :: 0 <= j < |countries| ==> RefreshedSince(o.table.rows, ToLower(countries[j].name), now)
  {
    RunFacts(t, countries, |countries|, PassEnv(rates, now, rng, lag, faults));
  }
}
