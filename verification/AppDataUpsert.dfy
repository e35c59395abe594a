/** Upserting application data of hosts in one statement, and row by row when a host
    has gone, against a table that refers to the hosts. */
module AppDataUpsert {
  import opened Common

  datatype Key = Key(org: int, host: int)

  /** A row to write: its key and its other columns. */
  datatype Row = Row(key: Key, cols: map<string, int>)

  type Table = map<Key, map<string, int>>

  datatype Fault = HostGone | RowTwice

  /** ON CONFLICT DO UPDATE: the columns of the statement replace the stored ones. */
  function Written(t: Table, r: Row): map<string, int> {
    if r.key in t then t[r.key] + r.cols else r.cols
  }

  function UpsertOne(t: Table, r: Row): Table {
    t[r.key := Written(t, r)]
  }

  /** One at a time, passing over the rows whose host is gone. */
  function UpsertEach(t: Table, rows: seq<Row>, hosts: set<Key>): Table {
    if rows == [] then t
    else
      var last := rows[|rows| - 1];
      var before := UpsertEach(t, rows[..|rows| - 1], hosts);
      if last.key in hosts then UpsertOne(before, last) else before
  }

  function IdsOf(rows: seq<Row>, hosts: set<Key>): seq<int> {
    if rows == [] then []
    else IdsOf(rows[..|rows| - 1], hosts) + if rows[|rows| - 1].key in hosts then [rows[|rows| - 1].key.host] else []
  }

  /** All rows of a statement have the columns of its first. */
  predicate SameColumns(rows: seq<Row>) {
    forall i :: 0 <= i < |rows| ==> rows[i].cols.Keys == rows[0].cols.Keys
  }

  predicate DistinctKeys(rows: seq<Row>) {
    forall i, j :: 0 <= i < j < |rows| ==> rows[i].key != rows[j].key
  }

  function KeysOf(rows: seq<Row>): set<Key> {
    set r | r in rows :: r.key
  }

  /* ---------- one statement ---------- */

  /** The effect of one statement: each of its rows meets the table as it was when the
      statement began. */
  ghost predicate StatementEffect(t: Table, rows: seq<Row>, after: Table) {
    && after.Keys == t.Keys + KeysOf(rows)
    && (forall k :: k in t && k !in KeysOf(rows) ==> k in after && after[k] == t[k])
    && (forall r :: r in rows ==> r.key in after && after[r.key] == Written(t, r))
  }

  /* ---------- one row more ---------- */

  lemma KeysSnoc(rows: seq<Row>, r: Row)
    ensures KeysOf(rows + [r]) == KeysOf(rows) + {r.key}
    ensures DistinctKeys(rows + [r]) <==> DistinctKeys(rows) && r.key !in KeysOf(rows)
  {
    assert (rows + [r])[|rows|] == r;
    forall i | 0 <= i < |rows| ensures rows[i].key in KeysOf(rows) && (rows + [r])[i] == rows[i] {
    }
    if r.key in KeysOf(rows) {
      var s :| s in rows && s.key == r.key;
      var i :| 0 <= i < |rows| && rows[i] == s;
      assert (rows + [r])[i].key == (rows + [r])[|rows|].key;
    }
  }

  lemma EachSnoc(t: Table, rows: seq<Row>, r: Row, hosts: set<Key>)
    ensures UpsertEach(t, rows + [r], hosts)
         == if r.key in hosts then UpsertOne(UpsertEach(t, rows, hosts), r) else UpsertEach(t, rows, hosts)
    ensures IdsOf(rows + [r], hosts) == IdsOf(rows, hosts) + if r.key in hosts then [r.key.host] else []
  {
    assert (rows + [r])[..|rows|] == rows;
  }

  lemma KeyListed(rows: seq<Row>, s: Row)
    requires s in rows
    ensures s.key in KeysOf(rows)
  {}

  lemma EffectSnoc(t: Table, rows: seq<Row>, r: Row, after: Table)
    requires StatementEffect(t, rows, after) && r.key !in KeysOf(rows)
    ensures StatementEffect(t, rows + [r], after[r.key := Written(t, r)])
  {
    hide KeysOf, Written, DistinctKeys;
    KeysSnoc(rows, r);
    var u := after[r.key := Written(t, r)];
    assert u.Keys == after.Keys + {r.key};
    forall s | s in rows + [r] ensures s.key in u && u[s.key] == Written(t, s) {
      if s != r {
        KeyListed(rows, s);
      }
    }
  }

  lemma EmptyStatement(t: Table, hosts: set<Key>)
    ensures StatementEffect(t, [], t) && DistinctKeys([]) && KeysOf([]) == {} && IdsOf([], hosts) == []
  {
  }

  lemma StillTwice(rows: seq<Row>, n: nat)
    requires n <= |rows| && !DistinctKeys(rows[..n])
    ensures !DistinctKeys(rows)
  {
  }

  /** The effect of a statement of one row. */
  lemma OneRow(t: Table, r: Row, after: Table)
    ensures KeysOf([r]) == {r.key} && DistinctKeys([r])
    ensures StatementEffect(t, [r], after) ==> after == UpsertOne(t, r)
  {
    assert r in [r];
    if StatementEffect(t, [r], after) {
      assert StatementEffect(t, [r], UpsertOne(t, r));
      EffectIsUnique(t, [r], after, UpsertOne(t, r));
    }
  }

  /** A statement that names no key twice does what its rows do one at a time. */
  lemma {:induction false} StatementIsEach(t: Table, rows: seq<Row>, hosts: set<Key>)
    requires DistinctKeys(rows) && KeysOf(rows) <= hosts
    ensures StatementEffect(t, rows, UpsertEach(t, rows, hosts))
  {
    if rows != [] {
      var init, last := rows[..|rows| - 1], rows[|rows| - 1];
      assert rows == init + [last];
      KeysSnoc(init, last);
      StatementIsEach(t, init, hosts);
      EachSnoc(t, init, last, hosts);
      EffectSnoc(t, init, last, UpsertEach(t, init, hosts));
    }
  }

  /** The effect of a statement is determined by its rows. */
  lemma EffectIsUnique(t: Table, rows: seq<Row>, a: Table, b: Table)
    requires StatementEffect(t, rows, a) && StatementEffect(t, rows, b)
    ensures a == b
  {
    forall k | k in a ensures k in b && a[k] == b[k] {
      if k in KeysOf(rows) {
        var r :| r in rows && r.key == k;
      }
    }
  }

  /** The rows whose host exists. */
  function Live(rows: seq<Row>, hosts: set<Key>): seq<Row> {
    if rows == [] then []
    else Live(rows[..|rows| - 1], hosts) + if rows[|rows| - 1].key in hosts then [rows[|rows| - 1]] else []
  }

  lemma {:induction false} LiveRows(rows: seq<Row>, hosts: set<Key>)
    ensures KeysOf(Live(rows, hosts)) == KeysOf(rows) * hosts
    ensures DistinctKeys(rows) ==> DistinctKeys(Live(rows, hosts))
  {
    if rows != [] {
      var init, last := rows[..|rows| - 1], rows[|rows| - 1];
      assert rows == init + [last];
      hide KeysOf, DistinctKeys;
      LiveRows(init, hosts);
      KeysSnoc(init, last);
      KeysSnoc(Live(init, hosts), last);
      if last.key in hosts {
        assert Live(rows, hosts) == Live(init, hosts) + [last];
        assert KeysOf(Live(rows, hosts)) == KeysOf(rows) * hosts;
      } else {
        assert Live(rows, hosts) == Live(init, hosts);
        assert KeysOf(Live(rows, hosts)) == KeysOf(rows) * hosts;
      }
    } else {
      EmptyStatement(map[], hosts);
    }
  }

  /** Passing over the rows of hosts that have gone is the one statement that leaves
      them out. */
  lemma {:induction false} EachIsLiveStatement(t: Table, rows: seq<Row>, hosts: set<Key>)
    requires DistinctKeys(rows)
    ensures StatementEffect(t, Live(rows, hosts), UpsertEach(t, rows, hosts))
  {
    if rows != [] {
      var init, last := rows[..|rows| - 1], rows[|rows| - 1];
      assert rows == init + [last];
      KeysSnoc(init, last);
      EachIsLiveStatement(t, init, hosts);
      LiveRows(init, hosts);
      EachSnoc(t, init, last, hosts);
      if last.key in hosts {
        EffectSnoc(t, Live(init, hosts), last, UpsertEach(t, init, hosts));
        assert UpsertOne(UpsertEach(t, init, hosts), last) == UpsertEach(t, init, hosts)[last.key := Written(t, last)];
      }
    }
  }

  /* ---------- the effect, column by column ---------- */

  /** A row was written over what was stored under its key: its columns have its values,
      and the others are as they were. */
  ghost predicate WrittenOver(r: Row, before: Table, after: Table) {
    && r.key in after
    && (forall c :: c in r.cols ==> c in after[r.key] && after[r.key][c] == r.cols[c])
    && (forall c :: c !in r.cols ==> (c in after[r.key] <==> r.key in before && c in before[r.key]))
    && (r.key in before ==> forall c :: c in before[r.key] && c !in r.cols ==> after[r.key][c] == before[r.key][c])
  }

  /** Every row whose host exists was written, and nothing else has changed. */
  ghost predicate Upserted(rows: seq<Row>, hosts: set<Key>, before: Table, after: Table) {
    && (forall r :: r in rows && r.key in hosts ==> WrittenOver(r, before, after))
    && (forall k :: (forall r :: r in rows && r.key in hosts ==> r.key != k) ==>
          (k in after <==> k in before) && (k in before && k in after ==> after[k] == before[k]))
  }

  lemma {:induction false} LiveElements(rows: seq<Row>, hosts: set<Key>)
    ensures forall r :: r in Live(rows, hosts) <==> r in rows && r.key in hosts
  {
    if rows != [] {
      LiveElements(rows[..|rows| - 1], hosts);
      assert rows == rows[..|rows| - 1] + [rows[|rows| - 1]];
    }
  }

  lemma {:induction false} AllLive(rows: seq<Row>, hosts: set<Key>)
    requires KeysOf(rows) <= hosts
    ensures Live(rows, hosts) == rows
  {
    if rows != [] {
      var init, last := rows[..|rows| - 1], rows[|rows| - 1];
      assert rows == init + [last];
      KeysSnoc(init, last);
      AllLive(init, hosts);
    }
  }

  lemma StatementUpserts(t: Table, rows: seq<Row>, hosts: set<Key>, after: Table)
    requires StatementEffect(t, Live(rows, hosts), after)
    ensures Upserted(rows, hosts, t, after)
  {
    LiveElements(rows, hosts);
    hide Live;
  }

  /** Where no key comes twice, that is what writing the rows one at a time does. */
  lemma EachUpserts(t: Table, rows: seq<Row>, hosts: set<Key>)
    requires DistinctKeys(rows)
    ensures Upserted(rows, hosts, t, UpsertEach(t, rows, hosts))
  {
    EachIsLiveStatement(t, rows, hosts);
    StatementUpserts(t, rows, hosts, UpsertEach(t, rows, hosts));
  }

  /** The ids returned are those of the rows whose host exists, in their order. */
  lemma {:induction false} IdsJoin(a: seq<Row>, b: seq<Row>, hosts: set<Key>)
    ensures IdsOf(a + b, hosts) == IdsOf(a, hosts) + IdsOf(b, hosts)
    ensures |b| == 1 ==> IdsOf(b, hosts) == if b[0].key in hosts then [b[0].key.host] else []
  {
    if b == [] {
      assert a + b == a;
    } else {
      var init, last := b[..|b| - 1], b[|b| - 1];
      assert a + b == (a + init) + [last] && b == init + [last];
      IdsJoin(a, init, hosts);
      EachSnoc(map[], a + init, last, hosts);
      EachSnoc(map[], init, last, hosts);
    }
  }

  lemma {:induction false} IdsAre(rows: seq<Row>, hosts: set<Key>)
    ensures forall x :: x in IdsOf(rows, hosts) <==> exists r :: r in rows && r.key in hosts && r.key.host == x
    ensures (forall r :: r in rows ==> r.key in hosts) ==>
              |IdsOf(rows, hosts)| == |rows| && forall i :: 0 <= i < |rows| ==> IdsOf(rows, hosts)[i] == rows[i].key.host
  {
    if rows != [] {
      var init, last := rows[..|rows| - 1], rows[|rows| - 1];
      assert rows == init + [last];
      IdsAre(init, hosts);
      assert forall r :: r in rows <==> r in init || r == last;
    }
  }

  lemma EachSays(t: Table, rows: seq<Row>, hosts: set<Key>)
    ensures DistinctKeys(rows) ==> Upserted(rows, hosts, t, UpsertEach(t, rows, hosts))
    ensures forall x :: x in IdsOf(rows, hosts) <==> exists r :: r in rows && r.key in hosts && r.key.host == x
  {
    IdsAre(rows, hosts);
    if DistinctKeys(rows) {
      EachUpserts(t, rows, hosts);
    }
  }

  /* ---------- the program ---------- */

  class Database {
    var hosts: set<Key>
    var table: Table

    constructor (hosts: set<Key>, table: Table)
      ensures this.hosts == hosts && this.table == table
    {
      this.hosts, this.table := hosts, table;
    }

    /** One INSERT ... ON CONFLICT DO UPDATE ... RETURNING, in a savepoint. */
    method Execute(rows: seq<Row>) returns (r: Result<seq<int>, Fault>)
      requires SameColumns(rows)
      modifies this`table
      ensures r.Ok? <==> DistinctKeys(rows) && KeysOf(rows) <= hosts
      ensures r == Err(RowTwice) <==> !DistinctKeys(rows)
      ensures r.Ok? ==> StatementEffect(old(table), rows, table) && r.value == IdsOf(rows, hosts)
      ensures r.Err? ==> table == old(table)
      // column by column
      ensures r.Ok? ==> Upserted(rows, hosts, old(table), table)
    {
      hide Upserted;
      hide StatementEffect, DistinctKeys, KeysOf;
      var t := table;
      var ids := [];
      EmptyStatement(t, hosts);
      for i := 0 to |rows|
        invariant table == old(table)
        invariant DistinctKeys(rows[..i]) && StatementEffect(table, rows[..i], t)
        invariant KeysOf(rows[..i]) <= hosts ==> ids == IdsOf(rows[..i], hosts)
      {
        assert rows[..i + 1] == rows[..i] + [rows[i]];
        KeysSnoc(rows[..i], rows[i]);
        EachSnoc(table, rows[..i], rows[i], hosts);
        if rows[i].key in KeysOf(rows[..i]) {
          StillTwice(rows, i + 1);
          return Err(RowTwice);
        }
        EffectSnoc(table, rows[..i], rows[i], t);
        t := t[rows[i].key := Written(table, rows[i])];
        ids := ids + [rows[i].key.host];
      }
      assert rows[..|rows|] == rows;
      // foreign keys are looked at when the statement ends
      if !(KeysOf(rows) <= hosts) {
        return Err(HostGone);
      }
      AllLive(rows, hosts);
      StatementUpserts(table, rows, hosts, t);
      table := t;
      r := Ok(ids);
    }

    method UpsertIndividually(rows: seq<Row>) returns (ids: seq<int>)
      modifies this`table
      ensures table == UpsertEach(old(table), rows, hosts) && ids == IdsOf(rows, hosts)
      ensures DistinctKeys(rows) ==> Upserted(rows, hosts, old(table), table)
      ensures forall x :: x in ids <==> exists r :: r in rows && r.key in hosts && r.key.host == x
    {
      hide Upserted;
      hide StatementEffect, DistinctKeys, KeysOf, UpsertOne;
      ids := [];
      for i := 0 to |rows|
        invariant table == UpsertEach(old(table), rows[..i], hosts) && ids == IdsOf(rows[..i], hosts)
      {
        assert rows[..i + 1] == rows[..i] + [rows[i]];
        EachSnoc(old(table), rows[..i], rows[i], hosts);
        EachSnoc(old(table), [], rows[i], hosts);
        assert [] + [rows[i]] == [rows[i]];
        ghost var before := table;
        var r := Execute([rows[i]]);
        OneRow(before, rows[i], table);
        if r.Ok? {
          ids := ids + r.value;
        }
      }
      assert rows[..|rows|] == rows;
      EachSays(old(table), rows, hosts);
    }

    /** On both paths the rows of the hosts that exist are written as if one at a time,
        and their ids returned in order; it fails exactly when a key comes twice. */
    method Upsert(rows: seq<Row>) returns (r: Result<seq<int>, Fault>)
      requires SameColumns(rows)
      modifies this`table
      ensures r.Ok? <==> DistinctKeys(rows)
      ensures r.Ok? ==> table == UpsertEach(old(table), rows, hosts) && r.value == IdsOf(rows, hosts)
      ensures r.Err? ==> r == Err(RowTwice) && table == old(table)
      // column by column: the new values are stored, and nothing else changes
      ensures r.Ok? <==> forall i, j :: 0 <= i < j < |rows| ==> rows[i].key != rows[j].key
      ensures r.Ok? ==> Upserted(rows, hosts, old(table), table)
      ensures r.Ok? ==> forall x :: x in r.value <==> exists s :: s in rows && s.key in hosts && s.key.host == x
    {
      hide Upserted, StatementEffect;
      EachSays(table, rows, hosts);
      if rows == [] {
        return Ok([]);
      }
      ghost var before := table;
      r := Execute(rows);
      match r {
        case Err(HostGone) =>
          var ids := UpsertIndividually(rows);
          r := Ok(ids);
        case Err(RowTwice) =>
        case Ok(_) =>
          StatementIsEach(before, rows, hosts);
          EffectIsUnique(before, rows, table, UpsertEach(before, rows, hosts));
      }
    }
  }
}
