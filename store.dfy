/** The `errors` table as the schema at server.js lines 11-15 declares it:
    rows with an AUTOINCREMENT integer key, an opaque error value and a
    timestamp, appended one at a time and selected by an inclusive time range. */
module Store {
  import opened Wrappers

  /** A point in time; only its total order is used. */
  type Time = int

  /** The value bound into the `error` column; the model never looks inside it. */
  type Payload(==, !new)

  datatype Record = Record(id: int, error: Payload, timestamp: Time)

  /** The table's rows in storage order and the id AUTOINCREMENT hands out next. */
  datatype Table = Table(rows: seq<Record>, nextId: int)

  /** The first id AUTOINCREMENT assigns in a new table. */
  const FirstId: int := 1

  /** Ids strictly increase in storage order (so they are distinct). */
  ghost predicate IdsIncreasing(rows: seq<Record>)
  {
    forall i, j :: 0 <= i < j < |rows| ==> rows[i].id < rows[j].id
  }

  /** The table rules: ids are positive, increase along the rows and are all
      below the next id to be assigned. */
  ghost predicate Valid(t: Table)
  {
    && FirstId <= t.nextId
    && IdsIncreasing(t.rows)
    && (forall i :: 0 <= i < |t.rows| ==> FirstId <= t.rows[i].id < t.nextId)
  }

  /** A freshly created `errors` table. */
  function EmptyTable(): (t: Table)
    ensures Valid(t) && t.rows == []
  {
    Table([], FirstId)
  }

  /** `CREATE TABLE IF NOT EXISTS errors (...)`: the database holds the table
      (`Some`) or not (`None`); an existing table is kept with all its rows. */
  function CreateTableIfNotExists(db: Option<Table>): (after: Option<Table>)
    ensures after.Some?
    ensures db.Some? ==> after == db
    ensures db.None? ==> after.value.rows == [] && Valid(after.value)
  {
    if db.Some? then db else Some(EmptyTable())
  }

  /** Running the schema step a second time changes nothing. */
  lemma CreateTableIdempotent(db: Option<Table>)
    ensures CreateTableIfNotExists(CreateTableIfNotExists(db)) == CreateTableIfNotExists(db)
  {
  }

  /** `INSERT INTO errors (error) VALUES (?)`: one row is appended with the next
      id and the server's current time as its default timestamp. */
  function Insert(t: Table, error: Payload, now: Time): (t': Table)
    ensures |t'.rows| == |t.rows| + 1 && t'.rows[..|t.rows|] == t.rows
    ensures t'.rows[|t.rows|].error == error && t'.rows[|t.rows|].timestamp == now
    ensures Valid(t) ==> Valid(t')
    ensures Valid(t) ==> forall i :: 0 <= i < |t.rows| ==> t.rows[i].id < t'.rows[|t.rows|].id
  {
    Table(t.rows + [Record(t.nextId, error, now)], t.nextId + 1)
  }

  /** `SELECT * FROM errors WHERE timestamp BETWEEN lo AND hi`: the rows whose
      timestamp lies in the closed interval [lo, hi], in storage order. */
  function Between(rows: seq<Record>, lo: Time, hi: Time): (selected: seq<Record>)
    ensures |selected| <= |rows|
  {
    if rows == [] then []
    else
      var rest := Between(rows[1..], lo, hi);
      if lo <= rows[0].timestamp <= hi then [rows[0]] + rest else rest
  }

  /** The range filter is inclusive at both ends: a row is selected exactly when
      it is stored and lo <= timestamp <= hi. */
  lemma {:induction false} BetweenSelects(rows: seq<Record>, lo: Time, hi: Time)
    ensures forall r :: r in Between(rows, lo, hi) <==> r in rows && lo <= r.timestamp <= hi
    decreases |rows|
  {
    if rows != [] {
      BetweenSelects(rows[1..], lo, hi);
      assert rows == [rows[0]] + rows[1..];
    }
  }

  /** Selected rows keep their storage order, so their ids still increase. */
  lemma {:induction false} BetweenKeepsOrder(rows: seq<Record>, lo: Time, hi: Time)
    requires IdsIncreasing(rows)
    ensures IdsIncreasing(Between(rows, lo, hi))
    decreases |rows|
  {
    if rows != [] {
      BetweenKeepsOrder(rows[1..], lo, hi);
      BetweenSelects(rows[1..], lo, hi);
      var rest := Between(rows[1..], lo, hi);
      if lo <= rows[0].timestamp <= hi {
        var s := [rows[0]] + rest;
        forall j | 0 < j < |s| ensures rows[0].id < s[j].id {
          assert s[j] == rest[j - 1] && rest[j - 1] in rows[1..];
        }
      }
    }
  }

  /** Selecting over two stretches of rows is selecting over each in turn. */
  lemma {:induction false} BetweenAppend(a: seq<Record>, b: seq<Record>, lo: Time, hi: Time)
    ensures Between(a + b, lo, hi) == Between(a, lo, hi) + Between(b, lo, hi)
    decreases |a|
  {
    if a != [] {
      BetweenAppend(a[1..], b, lo, hi);
      assert (a + b)[0] == a[0] && (a + b)[1..] == a[1..] + b;
      var rest := Between(a[1..], lo, hi);
      if lo <= a[0].timestamp <= hi {
        assert Between(a + b, lo, hi) == [a[0]] + (rest + Between(b, lo, hi));
        assert [a[0]] + (rest + Between(b, lo, hi)) == ([a[0]] + rest) + Between(b, lo, hi);
      }
    } else {
      assert a + b == b;
    }
  }

  /** An empty interval (lo after hi) selects nothing. */
  lemma EmptyInterval(rows: seq<Record>, lo: Time, hi: Time)
    requires hi < lo
    ensures Between(rows, lo, hi) == []
  {
  }

  /** After an insert, a range query returns what it returned before, followed
      by the new row exactly when its timestamp lies in the interval. */
  lemma QueryAfterInsert(t: Table, error: Payload, now: Time, lo: Time, hi: Time)
    ensures Between(Insert(t, error, now).rows, lo, hi)
         == Between(t.rows, lo, hi) + (if lo <= now <= hi then [Record(t.nextId, error, now)] else [])
  {
    var added := [Record(t.nextId, error, now)];
    BetweenAppend(t.rows, added, lo, hi);
    assert added[1..] == [];
  }

  /** Successive successful inserts, one per payload with its arrival time. */
  function InsertAll(t: Table, batch: seq<(Payload, Time)>): (t': Table)
    decreases |batch|
  {
    if batch == [] then t
    else InsertAll(Insert(t, batch[0].0, batch[0].1), batch[1..])
  }

  /** N successive inserts add exactly N rows, leave the earlier rows alone and
      hand out N consecutive fresh ids, each larger than every earlier id. */
  lemma {:induction false} InsertAllFreshIds(t: Table, batch: seq<(Payload, Time)>)
    requires Valid(t)
    ensures var t' := InsertAll(t, batch);
      && Valid(t')
      && |t'.rows| == |t.rows| + |batch|
      && t'.rows[..|t.rows|] == t.rows
      && t'.nextId == t.nextId + |batch|
      && forall k :: 0 <= k < |batch| ==>
           t'.rows[|t.rows| + k] == Record(t.nextId + k, batch[k].0, batch[k].1)
    decreases |batch|
  {
    if batch != [] {
      var t1 := Insert(t, batch[0].0, batch[0].1);
      InsertAllFreshIds(t1, batch[1..]);
      var t' := InsertAll(t, batch);
      assert t' == InsertAll(t1, batch[1..]);
      assert t'.rows[..|t1.rows|] == t1.rows;
      assert t'.rows[..|t.rows|] == t1.rows[..|t.rows|];
      forall k | 0 <= k < |batch|
        ensures t'.rows[|t.rows| + k] == Record(t.nextId + k, batch[k].0, batch[k].1)
      {
        if k > 0 {
          assert batch[1..][k - 1] == batch[k];
          assert t'.rows[|t1.rows| + (k - 1)] == Record(t1.nextId + (k - 1), batch[k].0, batch[k].1);
        } else {
          assert t'.rows[|t.rows|] == t1.rows[|t.rows|];
        }
      }
    }
  }
}
