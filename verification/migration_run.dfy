/** The generated migration run against a schema: the queries are answered
    from the database itself, the statements are executed with SQLite's
    schema rules, and the result is compared with the model. */
module MigrationRun {
  import opened Wrappers
  import opened Models
  import opened SeqDiff
  import opened Sqlite
  import opened Migration

  // ---------------------------------------------------------------------
  // Running each kind of statement list
  // ---------------------------------------------------------------------

  lemma RunCons(db: Db, s: Statement, ss: seq<Statement>)
    ensures Run(db, [s] + ss) == match Exec(db, s) case None => None case Some(d) => Run(d, ss)
  {
    assert ([s] + ss)[0] == s;
    assert ([s] + ss)[1..] == ss;
  }

  lemma AddAllCons(t: string, cs: seq<RoomColumn>)
    requires |cs| > 0
    ensures AddAll(t, cs) == [AddColumn(t, cs[0])] + AddAll(t, cs[1..])
  {
    assert forall k :: 0 < k < |cs| ==> cs[1..][k - 1] == cs[k];
  }

  /** The schema after adding column `c` to table `t`. */
  function WithColumn(db: Db, t: string, c: RoomColumn): Db
    requires t in db.tables
  {
    db.(tables := db.tables[t := db.tables[t] + [c.name]])
  }

  /** Running the ADD COLUMNs of `cs` is adding the first column and then
      running the rest. */
  lemma RunAddAllHead(db: Db, t: string, cs: seq<RoomColumn>)
    requires t in db.tables && |cs| > 0
    requires Addable(cs[0]) && cs[0].name !in db.tables[t]
    ensures Run(db, AddAll(t, cs)) == Run(WithColumn(db, t, cs[0]), AddAll(t, cs[1..]))
  {
    AddAllCons(t, cs);
    assert Exec(db, AddColumn(t, cs[0])) == Some(WithColumn(db, t, cs[0]));
    RunCons(db, AddColumn(t, cs[0]), AddAll(t, cs[1..]));
  }

  /** After the first column is added, the rest are still absent, addable
      and distinct. */
  lemma RunAddAllTail(db: Db, t: string, cs: seq<RoomColumn>)
    requires t in db.tables && |cs| > 0
    requires forall k :: 0 <= k < |cs| ==> Addable(cs[k]) && cs[k].name !in db.tables[t]
    requires Distinct(ColumnNames(cs))
    ensures var d := WithColumn(db, t, cs[0]);
      && (forall k :: 0 <= k < |cs[1..]| ==> Addable(cs[1..][k]) && cs[1..][k].name !in d.tables[t])
      && Distinct(ColumnNames(cs[1..]))
  {
    var rest := cs[1..];
    var d := WithColumn(db, t, cs[0]);
    assert ColumnNames(rest) == ColumnNames(cs)[1..];
    DistinctTail(ColumnNames(cs));
    forall k | 0 <= k < |rest| ensures Addable(rest[k]) && rest[k].name !in d.tables[t] {
      assert rest[k] == cs[k + 1];
      assert ColumnNames(cs)[0] != ColumnNames(cs)[k + 1];
    }
  }

  /** Appending the rest's names after the first one's is appending all
      the names. */
  lemma AddedNamesCompose(db: Db, t: string, cs: seq<RoomColumn>)
    requires t in db.tables && |cs| > 0
    ensures var d := WithColumn(db, t, cs[0]);
      d.(tables := d.tables[t := d.tables[t] + ColumnNames(cs[1..])])
      == db.(tables := db.tables[t := db.tables[t] + ColumnNames(cs)])
  {
    var d := WithColumn(db, t, cs[0]);
    var before := db.tables[t];
    var names := ColumnNames(cs[1..]);
    assert ColumnNames(cs) == [cs[0].name] + names;
    AppendAssoc(before, [cs[0].name], names);
    var grown := before + ColumnNames(cs);
    assert d.tables[t] + names == grown;
    UpdateTwice(db.tables, t, before + [cs[0].name], grown);
  }

  lemma UpdateTwice<K, V>(m: map<K, V>, k: K, a: V, b: V)
    ensures m[k := a][k := b] == m[k := b]
  {
  }

  /** Adding columns that are absent, addable and distinct appends their
      names to the table, in order, and changes nothing else. */
  lemma {:induction false} RunAddAll(db: Db, t: string, cs: seq<RoomColumn>)
    requires t in db.tables
    requires forall k :: 0 <= k < |cs| ==> Addable(cs[k]) && cs[k].name !in db.tables[t]
    requires Distinct(ColumnNames(cs))
    ensures Run(db, AddAll(t, cs)) == Some(db.(tables := db.tables[t := db.tables[t] + ColumnNames(cs)]))
    decreases |cs|
  {
    if |cs| == 0 {
      assert db.tables[t] + ColumnNames(cs) == db.tables[t];
      assert db.tables[t := db.tables[t]] == db.tables;
    } else {
      RunAddAllHead(db, t, cs);
      RunAddAllTail(db, t, cs);
      RunAddAll(WithColumn(db, t, cs[0]), t, cs[1..]);
      AddedNamesCompose(db, t, cs);
    }
  }

  /** The duplicate-row deletions change no schema, provided every unique
      index names columns of the table. */
  lemma {:induction false} RunDedups(db: Db, t: string, idxs: seq<RoomIndex>)
    requires t in db.tables
    requires forall i :: 0 <= i < |idxs| && idxs[i].isUnique ==>
      |idxs[i].columns| > 0 && AllIn(idxs[i].columns, db.tables[t])
    ensures Run(db, Dedups(t, idxs)) == Some(db)
    decreases |idxs|
  {
    if |idxs| > 0 {
      var head := if idxs[0].isUnique then [DeleteDuplicates(t, idxs[0].columns)] else [];
      assert Dedups(t, idxs) == head + Dedups(t, idxs[1..]);
      RunAppend(db, head, Dedups(t, idxs[1..]));
      if idxs[0].isUnique {
        RunCons(db, DeleteDuplicates(t, idxs[0].columns), []);
        assert head == [DeleteDuplicates(t, idxs[0].columns)] + [];
      }
      assert Run(db, head) == Some(db);
      forall i | 0 <= i < |idxs[1..]| && idxs[1..][i].isUnique
        ensures |idxs[1..][i].columns| > 0 && AllIn(idxs[1..][i].columns, db.tables[t])
      {
        assert idxs[1..][i] == idxs[i + 1];
      }
      RunDedups(db, t, idxs[1..]);
    }
  }

  /** The catalog entries CREATE INDEX adds for `ixs` on table `t`. */
  function Entries(t: string, ixs: seq<RoomIndex>): (r: seq<IndexEntry>)
    ensures |r| == |ixs|
    ensures forall k :: 0 <= k < |ixs| ==> r[k] == (ixs[k].name, t)
  {
    seq(|ixs|, k requires 0 <= k < |ixs| => (ixs[k].name, t))
  }

  lemma CreateAllCons(t: string, ixs: seq<RoomIndex>)
    requires |ixs| > 0
    ensures CreateAll(t, ixs) == [CreateIndex(t, ixs[0])] + CreateAll(t, ixs[1..])
    ensures Entries(t, ixs) == [(ixs[0].name, t)] + Entries(t, ixs[1..])
  {
    var a, b := CreateAll(t, ixs), [CreateIndex(t, ixs[0])] + CreateAll(t, ixs[1..]);
    var e, f := Entries(t, ixs), [(ixs[0].name, t)] + Entries(t, ixs[1..]);
    forall k | 0 < k < |ixs| ensures a[k] == b[k] && e[k] == f[k] {
      assert ixs[1..][k - 1] == ixs[k];
    }
    assert a == b && e == f;
  }

  lemma AppendAssoc<T>(a: seq<T>, b: seq<T>, c: seq<T>)
    ensures (a + b) + c == a + (b + c)
  {
  }

  lemma NotNamedAfterAppend(es: seq<IndexEntry>, e: IndexEntry, n: string)
    requires !NamedIn(n, es) && n != e.0
    ensures !NamedIn(n, es + [e])
  {
    forall i | 0 <= i < |es| + 1 ensures (es + [e])[i].0 != n {
      if i < |es| {
        assert (es + [e])[i] == es[i];
      }
    }
  }

  /** The catalog after creating index `x` on table `t`. */
  function WithIndex(db: Db, t: string, x: RoomIndex): Db
  {
    db.(indices := db.indices + [(x.name, t)])
  }

  /** Running the CREATE INDEXes of `ixs` is creating the first index and
      then running the rest. */
  lemma RunCreateAllHead(db: Db, t: string, ixs: seq<RoomIndex>)
    requires t in db.tables && |ixs| > 0
    requires |ixs[0].columns| > 0 && AllIn(ixs[0].columns, db.tables[t]) && !NamedIn(ixs[0].name, db.indices)
    ensures Run(db, CreateAll(t, ixs)) == Run(WithIndex(db, t, ixs[0]), CreateAll(t, ixs[1..]))
  {
    CreateAllCons(t, ixs);
    assert Exec(db, CreateIndex(t, ixs[0])) == Some(WithIndex(db, t, ixs[0]));
    RunCons(db, CreateIndex(t, ixs[0]), CreateAll(t, ixs[1..]));
  }

  /** After the first index is created, the rest still have new, distinct
      names over columns of the table. */
  lemma RunCreateAllTail(db: Db, t: string, ixs: seq<RoomIndex>)
    requires t in db.tables && |ixs| > 0
    requires forall k :: 0 <= k < |ixs| ==>
      |ixs[k].columns| > 0 && AllIn(ixs[k].columns, db.tables[t]) && !NamedIn(ixs[k].name, db.indices)
    requires Distinct(IndexNames(ixs))
    ensures var d := WithIndex(db, t, ixs[0]);
      && t in d.tables
      && (forall k :: 0 <= k < |ixs[1..]| ==>
           |ixs[1..][k].columns| > 0 && AllIn(ixs[1..][k].columns, d.tables[t])
           && !NamedIn(ixs[1..][k].name, d.indices))
      && Distinct(IndexNames(ixs[1..]))
  {
    var rest := ixs[1..];
    var d := WithIndex(db, t, ixs[0]);
    assert IndexNames(rest) == IndexNames(ixs)[1..];
    DistinctTail(IndexNames(ixs));
    forall k | 0 <= k < |rest|
      ensures |rest[k].columns| > 0 && AllIn(rest[k].columns, d.tables[t]) && !NamedIn(rest[k].name, d.indices)
    {
      assert rest[k] == ixs[k + 1];
      assert IndexNames(ixs)[0] != IndexNames(ixs)[k + 1];
      NotNamedAfterAppend(db.indices, (ixs[0].name, t), rest[k].name);
    }
  }

  /** Appending the rest's entries after the first one's is appending all
      the entries. */
  lemma EntriesCompose(db: Db, t: string, ixs: seq<RoomIndex>)
    requires |ixs| > 0
    ensures var d := WithIndex(db, t, ixs[0]);
      d.(indices := d.indices + Entries(t, ixs[1..])) == db.(indices := db.indices + Entries(t, ixs))
  {
    var e := (ixs[0].name, t);
    var tail := Entries(t, ixs[1..]);
    CreateAllCons(t, ixs);
    AppendAssoc(db.indices, [e], tail);
  }

  /** Creating indices whose names are new, distinct, and whose columns
      are columns of the table appends one catalog entry each, in order. */
  lemma {:induction false} RunCreateAll(db: Db, t: string, ixs: seq<RoomIndex>)
    requires t in db.tables
    requires forall k :: 0 <= k < |ixs| ==>
      |ixs[k].columns| > 0 && AllIn(ixs[k].columns, db.tables[t]) && !NamedIn(ixs[k].name, db.indices)
    requires Distinct(IndexNames(ixs))
    ensures Run(db, CreateAll(t, ixs)) == Some(db.(indices := db.indices + Entries(t, ixs)))
    decreases |ixs|
  {
    if |ixs| == 0 {
      assert db.indices + Entries(t, ixs) == db.indices;
    } else {
      RunCreateAllHead(db, t, ixs);
      RunCreateAllTail(db, t, ixs);
      RunCreateAll(WithIndex(db, t, ixs[0]), t, ixs[1..]);
      EntriesCompose(db, t, ixs);
    }
  }

  /** The drops remove every catalog entry named by a non-automatic name in
      `names`, keep the others in order, and touch no table. */
  lemma {:induction false} RunDropStale(db: Db, names: seq<string>)
    ensures Run(db, DropStale(names)).Some?
    ensures var r := Run(db, DropStale(names)).value;
      && r.tables == db.tables
      && Subseq(r.indices, db.indices)
      && (forall e :: e in r.indices <==> e in db.indices && !(e.0 in names && !IsAutoIndex(e.0)))
    decreases |names|
  {
    if |names| == 0 {
      SubseqRefl(db.indices);
    } else {
      var n := names[0];
      var head := if IsAutoIndex(n) then [] else [DropIndexIfExists(n)];
      assert DropStale(names) == head + DropStale(names[1..]);
      RunAppend(db, head, DropStale(names[1..]));
      var d := if IsAutoIndex(n) then db else db.(indices := DropNamed(db.indices, n));
      if !IsAutoIndex(n) {
        RunCons(db, DropIndexIfExists(n), []);
        assert head == [DropIndexIfExists(n)] + [];
      } else {
        SubseqRefl(db.indices);
      }
      assert Run(db, head) == Some(d);
      assert Subseq(d.indices, db.indices);
      RunDropStale(d, names[1..]);
      var r := Run(d, DropStale(names[1..])).value;
      SubseqTrans(r.indices, d.indices, db.indices);
      assert forall x :: x in names <==> x == n || x in names[1..];
    }
  }

  // ---------------------------------------------------------------------
  // The queries, the preconditions, and the table pass
  // ---------------------------------------------------------------------

  /** What the generated class's queries read from the database for table
      `t`: whether it exists, its columns, and its index names. */
  function Observe(db: Db, t: string): (r: Snapshot)
    ensures r.tableExists <==> t in db.tables
    ensures t in db.tables ==> r.columns == db.tables[t]
    ensures forall n :: n in r.indices <==> (n, t) in db.indices
  {
    Snapshot(t in db.tables, if t in db.tables then db.tables[t] else [], IndicesOn(db.indices, t))
  }

  /** A model on which the generated statements succeed as the schema
      here executes them: valid column definitions, every column addable to
      an existing table, distinct names, indices over model columns, and
      names SQLite reads as written. */
  predicate WellFormed(m: RoomModel)
  {
    && ValidDefinitions(m.columns)
    && (forall i :: 0 <= i < |m.columns| ==> Addable(m.columns[i]))
    && UniqueModelNames(m)
    && (forall i :: 0 <= i < |m.indices| ==>
          |m.indices[i].columns| > 0 && AllIn(m.indices[i].columns, ColumnNames(m.columns)))
    && PlainModelNames(m)
  }

  /** No two model columns differ only in case, which SQLite would take
      for one column, and the columns of every unique index, which the
      duplicate-row deletion writes unquoted after GROUP BY, read as names. */
  predicate PlainModelNames(m: RoomModel)
  {
    && CaseDistinct(set c | c in ColumnNames(m.columns))
    && (forall i, j :: 0 <= i < |m.indices| && m.indices[i].isUnique && 0 <= j < |m.indices[i].columns|
          ==> Bare(m.indices[i].columns[j]))
  }

  /** The names of the catalog's indices. */
  function IndexNameSet(es: seq<IndexEntry>): (r: set<string>)
    ensures forall n :: n in r <==> NamedIn(n, es)
  {
    set e | e in es :: e.0
  }

  /** A database on which SQLite's name lookups, which ignore case, find
      what the exact lookups of the schema here find, and whose indices the
      index pass may drop can be named unquoted: the table names (with the
      model's table and the shadow) differ beyond case, so do the live and
      the model columns of the table, and so do all index names, live or
      model; no index is named like a table; and every index of the table
      that the model does not declare and SQLite did not create reads as a
      name. */
  predicate CaseSafe(m: RoomModel, suffix: Suffix, db: Db)
  {
    var tables := db.tables.Keys + {m.tableName, ShadowName(m.tableName, suffix)};
    var indices := IndexNameSet(db.indices) + (set n | n in IndexNames(m.indices));
    && CaseDistinct(tables)
    && CaseDistinct(indices)
    && (m.tableName in db.tables ==>
          CaseDistinct((set c | c in db.tables[m.tableName]) + (set c | c in ColumnNames(m.columns))))
    && (forall a, b :: a in tables && b in indices ==> Fold(a) != Fold(b))
    && (forall k :: 0 <= k < |db.indices| && db.indices[k].1 == m.tableName
          && db.indices[k].0 !in IndexNames(m.indices) && !IsAutoIndex(db.indices[k].0)
          ==> Bare(db.indices[k].0))
  }

  /** No index of another table carries a model index's name. */
  predicate OwnIndexNames(m: RoomModel, es: seq<IndexEntry>)
  {
    forall i, k :: 0 <= i < |m.indices| && 0 <= k < |es| && es[k].0 == m.indices[i].name ==>
      es[k].1 == m.tableName
  }

  /** A database the migration can run on: consistent, without a table of
      the shadow name, not using the model's index names elsewhere, and
      with names SQLite reads as the schema here does. */
  predicate Fits(m: RoomModel, suffix: Suffix, db: Db)
  {
    && Consistent(db)
    && ShadowName(m.tableName, suffix) !in db.tables
    && OwnIndexNames(m, db.indices)
    && CaseSafe(m, suffix, db)
  }

  /** The table exists with columns the model does not declare, so the
      table pass copies it into a fresh table. */
  predicate Rebuilt(m: RoomModel, db: Db)
  {
    m.tableName in db.tables
    && exists i :: 0 <= i < |db.tables[m.tableName]| && db.tables[m.tableName][i] !in ColumnNames(m.columns)
  }

  /** `r` has table `t` with exactly the model's column names, and every other
      table as in `db`. */
  ghost predicate TableReached(m: RoomModel, db: Db, r: Db)
  {
    && m.tableName in r.tables
    && (forall x :: x in r.tables[m.tableName] <==> x in ColumnNames(m.columns))
    && (forall u :: u != m.tableName ==> (u in r.tables <==> u in db.tables))
    && (forall u :: u != m.tableName && u in db.tables ==> r.tables[u] == db.tables[u])
  }

  lemma RetargetAbsent(es: seq<IndexEntry>, a: string, b: string)
    requires forall i :: 0 <= i < |es| ==> es[i].1 != a
    ensures Retarget(es, a, b) == es
  {
  }

  /** A missing table is created with the model's column names. */
  lemma RunFresh(m: RoomModel, suffix: Suffix, db: Db)
    requires WellFormed(m) && Fits(m, suffix, db)
    requires m.tableName !in db.tables
    ensures var r := Run(db, TablePass(m, suffix, Observe(db, m.tableName)));
      && r.Some? && TableReached(m, db, r.value)
      && (forall e :: e in r.value.indices <==> e in db.indices)
  {
    var t := m.tableName;
    var d1 := RemoveTable(db, t);
    var d2 := d1.(tables := d1.tables[t := ColumnNames(m.columns)]);
    assert TablePass(m, suffix, Observe(db, t)) == [DropTableIfExists(t)] + [CreateTableIfNotExists(t, m.columns)];
    RunCons(db, DropTableIfExists(t), [CreateTableIfNotExists(t, m.columns)]);
    RunCons(d1, CreateTableIfNotExists(t, m.columns), []);
    assert Run(db, TablePass(m, suffix, Observe(db, t))) == Some(d2);
    NoIndicesOnMissing(db, t);
  }

  /** A table that does not exist has no index to drop. */
  lemma NoIndicesOnMissing(db: Db, t: string)
    requires Consistent(db) && t !in db.tables
    ensures forall e :: e in DropIndicesOn(db.indices, t) <==> e in db.indices
  {
    forall e | e in db.indices ensures e.1 != t {
      var k :| 0 <= k < |db.indices| && db.indices[k] == e;
      assert e.1 in db.tables;
    }
  }

  /** On an existing table, the table pass is the ADD COLUMNs of the
      missing model columns, then the rebuild if the table has columns the
      model does not declare. */
  lemma TablePassOnExisting(m: RoomModel, suffix: Suffix, db: Db)
    requires UniqueModelNames(m) && Consistent(db) && m.tableName in db.tables
    ensures TablePass(m, suffix, Observe(db, m.tableName)) ==
      AddAll(m.tableName, MissingColumns(m.columns, db.tables[m.tableName]))
      + (if Rebuilt(m, db) then Rebuild(m, suffix) else [])
  {
    var live := db.tables[m.tableName];
    assert Observe(db, m.tableName) == Snapshot(true, live, IndicesOn(db.indices, m.tableName));
    AddColumnsPlan(m, suffix, live);
  }

  /** The missing columns of a well-formed model can all be added, one
      after the other. */
  lemma MissingColumnsAddable(m: RoomModel, live: seq<string>)
    requires WellFormed(m)
    ensures var cs := MissingColumns(m.columns, live);
      && (forall k :: 0 <= k < |cs| ==> Addable(cs[k]) && cs[k].name !in live)
      && Distinct(ColumnNames(cs))
  {
    var cs := MissingColumns(m.columns, live);
    AbsentDistinct(ColumnNames(m.columns), live);
    forall k | 0 <= k < |cs| ensures Addable(cs[k]) && cs[k].name !in live {
      assert cs[k] in cs;
      var i :| 0 <= i < |m.columns| && m.columns[i] == cs[k];
    }
  }

  /** The live columns followed by the missing ones hold every live and
      every model column, and nothing else. */
  lemma GrownColumns(m: RoomModel, live: seq<string>)
    ensures var grown := live + ColumnNames(MissingColumns(m.columns, live));
      && (forall x :: x in grown <==> x in live || x in ColumnNames(m.columns))
      && AllIn(ColumnNames(m.columns), grown)
  {
    var names := ColumnNames(m.columns);
    var added := ColumnNames(MissingColumns(m.columns, live));
    assert forall x :: x in added <==> x in names && x !in live;
  }

  /** Giving the table exactly the model's column names reaches the model,
      whatever the catalog. */
  lemma ReachedWith(m: RoomModel, db: Db, cols: seq<string>, es: seq<IndexEntry>)
    requires forall x :: x in cols <==> x in ColumnNames(m.columns)
    ensures TableReached(m, db, Db(db.tables[m.tableName := cols], es))
  {
  }

  /** With no stale column, the missing columns are appended and the
      table's indices stay. */
  lemma RunAddOnly(m: RoomModel, suffix: Suffix, db: Db)
    requires WellFormed(m) && Fits(m, suffix, db)
    requires m.tableName in db.tables && !Rebuilt(m, db)
    ensures var r := Run(db, TablePass(m, suffix, Observe(db, m.tableName)));
      && r.Some? && TableReached(m, db, r.value)
      && r.value.indices == db.indices
  {
    var t := m.tableName;
    var live := db.tables[t];
    var names := ColumnNames(m.columns);
    var cs := MissingColumns(m.columns, live);
    TablePassOnExisting(m, suffix, db);
    assert TablePass(m, suffix, Observe(db, t)) == AddAll(t, cs);
    MissingColumnsAddable(m, live);
    RunAddAll(db, t, cs);
    var grown := live + ColumnNames(cs);
    GrownColumns(m, live);
    forall x | x in live ensures x in names {
      var i :| 0 <= i < |live| && live[i] == x;
    }
    ReachedWith(m, db, grown, db.indices);
  }

  lemma AllInSelf(xs: seq<string>)
    ensures AllIn(xs, xs)
  {
    forall i | 0 <= i < |xs| ensures xs[i] in xs {
    }
  }

  /** The schema after the shadow table is created and filled. */
  function WithShadow(m: RoomModel, suffix: Suffix, d: Db): Db
  {
    d.(tables := d.tables[ShadowName(m.tableName, suffix) := ColumnNames(m.columns)])
  }

  /** Creating the shadow table and copying the rows into it succeed and
      add just the shadow table. */
  lemma RunShadowCopy(m: RoomModel, suffix: Suffix, d: Db)
    requires ValidDefinitions(m.columns)
    requires m.tableName in d.tables && ShadowName(m.tableName, suffix) !in d.tables
    requires AllIn(ColumnNames(m.columns), d.tables[m.tableName])
    ensures Run(d, Rebuild(m, suffix)) ==
      Run(WithShadow(m, suffix, d), [DropTable(m.tableName), RenameTable(ShadowName(m.tableName, suffix), m.tableName)])
  {
    var t := m.tableName;
    var shadow := ShadowName(t, suffix);
    var names := ColumnNames(m.columns);
    var s1 := CreateTable(shadow, m.columns);
    var s2 := CopyRows(shadow, t, m.columns);
    var rest := [DropTable(t), RenameTable(shadow, t)];
    var d1 := WithShadow(m, suffix, d);
    assert Rebuild(m, suffix) == [s1] + ([s2] + rest);
    assert Exec(d, s1) == Some(d1);
    assert d1.tables[shadow] == names && d1.tables[t] == d.tables[t];
    AllInSelf(names);
    assert Exec(d1, s2) == Some(d1);
    RunCons(d, s1, [s2] + rest);
    RunCons(d1, s2, rest);
  }

  /** Dropping the table and renaming the shadow table to it. */
  lemma RunSwap(t: string, shadow: string, d1: Db)
    requires t in d1.tables && shadow in d1.tables && t != shadow
    ensures var d3 := RemoveTable(d1, t);
      Run(d1, [DropTable(t), RenameTable(shadow, t)]) ==
      Some(Db((d3.tables - {shadow})[t := d1.tables[shadow]], Retarget(d3.indices, shadow, t)))
  {
    var d3 := RemoveTable(d1, t);
    assert Exec(d1, DropTable(t)) == Some(d3);
    RunCons(d1, DropTable(t), [RenameTable(shadow, t)]);
    assert [DropTable(t), RenameTable(shadow, t)][1..] == [RenameTable(shadow, t)];
    RunCons(d3, RenameTable(shadow, t), []);
    assert [RenameTable(shadow, t)] == [RenameTable(shadow, t)] + [];
  }

  /** The four rebuild statements replace the table's columns by the
      model's, drop the table's indices, and leave everything else. */
  lemma RunRebuild(m: RoomModel, suffix: Suffix, d: Db)
    requires ValidDefinitions(m.columns)
    requires m.tableName in d.tables && ShadowName(m.tableName, suffix) !in d.tables
    requires AllIn(ColumnNames(m.columns), d.tables[m.tableName])
    requires forall i :: 0 <= i < |d.indices| ==> d.indices[i].1 in d.tables
    ensures Run(d, Rebuild(m, suffix)) ==
      Some(Db(d.tables[m.tableName := ColumnNames(m.columns)], DropIndicesOn(d.indices, m.tableName)))
  {
    var t := m.tableName;
    var shadow := ShadowName(t, suffix);
    var names := ColumnNames(m.columns);
    var d1 := WithShadow(m, suffix, d);
    RunShadowCopy(m, suffix, d);
    assert d1.tables[shadow] == names;
    RunSwap(t, shadow, d1);
    SwapState(d, t, shadow, names);
  }

  /** Adding the shadow table, dropping the table and renaming the shadow
      table to it leaves the table with the new columns and without its
      indices. */
  lemma SwapState(d: Db, t: string, shadow: string, names: seq<string>)
    requires t in d.tables && shadow !in d.tables && t != shadow
    requires forall i :: 0 <= i < |d.indices| ==> d.indices[i].1 in d.tables
    ensures var d3 := RemoveTable(d.(tables := d.tables[shadow := names]), t);
      Db((d3.tables - {shadow})[t := names], Retarget(d3.indices, shadow, t))
      == Db(d.tables[t := names], DropIndicesOn(d.indices, t))
  {
    var d1 := d.(tables := d.tables[shadow := names]);
    var d3 := RemoveTable(d1, t);
    assert d3.tables == d.tables[shadow := names] - {t};
    assert d3.indices == DropIndicesOn(d.indices, t);
    ReplaceViaShadow(d.tables, t, shadow, names);
    NoShadowIndices(d, t, shadow);
  }

  /** Adding `b`, removing `a`, then moving `b` to `a` only replaces `a`. */
  lemma ReplaceViaShadow<V>(m: map<string, V>, a: string, b: string, v: V)
    requires b !in m && a != b
    ensures ((m[b := v] - {a}) - {b})[a := v] == m[a := v]
  {
  }

  /** No index survives on the shadow table, so the rename retargets none. */
  lemma NoShadowIndices(d: Db, t: string, shadow: string)
    requires shadow !in d.tables
    requires forall i :: 0 <= i < |d.indices| ==> d.indices[i].1 in d.tables
    ensures Retarget(DropIndicesOn(d.indices, t), shadow, t) == DropIndicesOn(d.indices, t)
  {
    var es := DropIndicesOn(d.indices, t);
    forall i | 0 <= i < |es| ensures es[i].1 != shadow {
      assert es[i] in d.indices;
      var k :| 0 <= k < |d.indices| && d.indices[k] == es[i];
    }
    RetargetAbsent(es, shadow, t);
  }

  /** With a stale column, the missing columns are appended and then the
      table is rebuilt: it ends with exactly the model's column names and
      without indices. */
  lemma RunRebuildCase(m: RoomModel, suffix: Suffix, db: Db)
    requires WellFormed(m) && Fits(m, suffix, db)
    requires Rebuilt(m, db)
    ensures var r := Run(db, TablePass(m, suffix, Observe(db, m.tableName)));
      && r.Some? && TableReached(m, db, r.value)
      && (forall e :: e in r.value.indices <==> e in db.indices && e.1 != m.tableName)
  {
    var t := m.tableName;
    var live := db.tables[t];
    var names := ColumnNames(m.columns);
    var cs := MissingColumns(m.columns, live);
    TablePassOnExisting(m, suffix, db);
    RunAppend(db, AddAll(t, cs), Rebuild(m, suffix));
    MissingColumnsAddable(m, live);
    RunAddAll(db, t, cs);
    var grown := live + ColumnNames(cs);
    var d := db.(tables := db.tables[t := grown]);
    GrownColumns(m, live);
    assert d.indices == db.indices;
    RunRebuild(m, suffix, d);
    UpdateTwice(db.tables, t, grown, names);
    var r := Db(db.tables[t := names], DropIndicesOn(db.indices, t));
    assert Run(db, TablePass(m, suffix, Observe(db, t))) == Some(r);
    ReachedWith(m, db, names, r.indices);
  }

  /** The table pass: afterwards the table has exactly the model's column names,
      other tables are untouched, and the catalog keeps every index except
      those of a rebuilt table. */
  lemma RunTablePass(m: RoomModel, suffix: Suffix, db: Db)
    requires WellFormed(m) && Fits(m, suffix, db)
    ensures var r := Run(db, TablePass(m, suffix, Observe(db, m.tableName)));
      && r.Some? && TableReached(m, db, r.value)
      && (forall e :: e in r.value.indices <==> e in db.indices && (e.1 != m.tableName || !Rebuilt(m, db)))
  {
    var t := m.tableName;
    if t !in db.tables {
      RunFresh(m, suffix, db);
    } else if Rebuilt(m, db) {
      RunRebuildCase(m, suffix, db);
    } else {
      RunAddOnly(m, suffix, db);
    }
  }

  // ---------------------------------------------------------------------
  // The index pass
  // ---------------------------------------------------------------------

  /** In a catalog with unique names, a name determines its entry. */
  lemma SameName(es: seq<IndexEntry>, a: IndexEntry, b: IndexEntry)
    requires UniqueNames(es) && a in es && b in es && a.0 == b.0
    ensures a == b
  {
    var i :| 0 <= i < |es| && es[i] == a;
    var j :| 0 <= j < |es| && es[j] == b;
    assert i == j;
  }

  /** The statements of the index pass before the drops. */
  function CreatePhase(m: RoomModel, live: seq<string>): seq<Statement>
  {
    if exists i :: 0 <= i < |m.indices| && m.indices[i].name !in live
    then Dedups(m.tableName, m.indices) + CreateAll(m.tableName, MissingIndices(m.indices, live))
    else []
  }

  /** Every model index's columns are columns of a table holding all the
      model's columns. */
  lemma IndexColumnsPresent(m: RoomModel, cols: seq<string>, i: nat)
    requires WellFormed(m) && i < |m.indices|
    requires AllIn(ColumnNames(m.columns), cols)
    ensures |m.indices[i].columns| > 0 && AllIn(m.indices[i].columns, cols)
  {
    var names := ColumnNames(m.columns);
    var ic := m.indices[i].columns;
    forall j | 0 <= j < |ic| ensures ic[j] in cols {
      assert ic[j] in names;
      var k :| 0 <= k < |names| && names[k] == ic[j];
    }
  }

  /** A model index that is not on the table is nowhere in the catalog. */
  lemma MissingIsUnnamed(m: RoomModel, d: Db, x: RoomIndex)
    requires OwnIndexNames(m, d.indices)
    requires x in m.indices && x.name !in IndicesOn(d.indices, m.tableName)
    ensures !NamedIn(x.name, d.indices)
  {
    var i :| 0 <= i < |m.indices| && m.indices[i] == x;
    forall q | 0 <= q < |d.indices| ensures d.indices[q].0 != x.name {
      if d.indices[q].1 == m.tableName {
        assert d.indices[q] in d.indices;
      }
    }
  }

  lemma RunCreateAllMissing(m: RoomModel, d: Db)
    requires WellFormed(m) && m.tableName in d.tables
    requires AllIn(ColumnNames(m.columns), d.tables[m.tableName])
    requires OwnIndexNames(m, d.indices)
    ensures var ixs := MissingIndices(m.indices, IndicesOn(d.indices, m.tableName));
      Run(d, CreateAll(m.tableName, ixs)) == Some(d.(indices := d.indices + Entries(m.tableName, ixs)))
  {
    var t := m.tableName;
    var live := IndicesOn(d.indices, t);
    var ixs := MissingIndices(m.indices, live);
    AbsentDistinct(IndexNames(m.indices), live);
    MissingIndicesNames(m.indices, live);
    forall k | 0 <= k < |ixs|
      ensures |ixs[k].columns| > 0 && AllIn(ixs[k].columns, d.tables[t]) && !NamedIn(ixs[k].name, d.indices)
    {
      assert ixs[k] in ixs;
      var i :| 0 <= i < |m.indices| && m.indices[i] == ixs[k];
      IndexColumnsPresent(m, d.tables[t], i);
      MissingIsUnnamed(m, d, ixs[k]);
    }
    RunCreateAll(d, t, ixs);
  }

  /** The deletions change nothing and the missing indices are appended to
      the catalog. */
  lemma RunCreatePhase(m: RoomModel, d: Db)
    requires WellFormed(m) && m.tableName in d.tables
    requires AllIn(ColumnNames(m.columns), d.tables[m.tableName])
    requires OwnIndexNames(m, d.indices)
    ensures var live := IndicesOn(d.indices, m.tableName);
      Run(d, CreatePhase(m, live)) ==
        Some(d.(indices := d.indices + Entries(m.tableName, MissingIndices(m.indices, live))))
  {
    var t := m.tableName;
    var live := IndicesOn(d.indices, t);
    var ixs := MissingIndices(m.indices, live);
    if exists i :: 0 <= i < |m.indices| && m.indices[i].name !in live {
      RunAppend(d, Dedups(t, m.indices), CreateAll(t, ixs));
      forall i | 0 <= i < |m.indices| && m.indices[i].isUnique
        ensures |m.indices[i].columns| > 0 && AllIn(m.indices[i].columns, d.tables[t])
      {
        IndexColumnsPresent(m, d.tables[t], i);
      }
      RunDedups(d, t, m.indices);
      RunCreateAllMissing(m, d);
    } else {
      MissingIndicesNone(m.indices, live);
      assert d.indices + Entries(t, ixs) == d.indices;
    }
  }

  lemma EntriesMember(t: string, ixs: seq<RoomIndex>, e: IndexEntry)
    ensures e in Entries(t, ixs) <==> e.1 == t && e.0 in IndexNames(ixs)
  {
    if e.1 == t && e.0 in IndexNames(ixs) {
      var k :| 0 <= k < |ixs| && IndexNames(ixs)[k] == e.0;
      assert Entries(t, ixs)[k] == e;
    }
  }

  /** What the catalog holds after the index pass: the entries it held,
      except stale non-automatic indices of the table, and an entry on the
      table for every model index. */
  predicate AfterIndexPass(m: RoomModel, d: Db, e: IndexEntry)
  {
    || (e in d.indices && !(e.1 == m.tableName && e.0 !in IndexNames(m.indices) && !IsAutoIndex(e.0)))
    || (e.1 == m.tableName && e.0 in IndexNames(m.indices))
  }

  lemma IndexPassMember(m: RoomModel, d: Db, e: IndexEntry)
    requires WellFormed(m) && Consistent(d)
    ensures var live := IndicesOn(d.indices, m.tableName);
      var added := Entries(m.tableName, MissingIndices(m.indices, live));
      var stale := Diff(IndexNames(m.indices), live).1;
      (e in d.indices + added && !(e.0 in stale && !IsAutoIndex(e.0))) <==> AfterIndexPass(m, d, e)
  {
    var t := m.tableName;
    var names := IndexNames(m.indices);
    var live := IndicesOn(d.indices, t);
    var ixs := MissingIndices(m.indices, live);
    IndicesOnDistinct(d.indices, t);
    StaleIsUnknown(names, live, e.0);
    EntriesMember(t, ixs, e);
    MissingIndicesNames(m.indices, live);
    assert e.0 in IndexNames(ixs) <==> e.0 in names && e.0 !in live;
    if e in d.indices && (e.0, t) in d.indices {
      SameName(d.indices, e, (e.0, t));
    }
  }

  /** The catalog after the deletions and the CREATE INDEXes of the index
      pass. */
  function WithMissingIndices(m: RoomModel, d: Db): Db
  {
    d.(indices := d.indices
       + Entries(m.tableName, MissingIndices(m.indices, IndicesOn(d.indices, m.tableName))))
  }

  /** The index pass runs as its create phase and then its drops. */
  lemma RunIndexPassPhases(m: RoomModel, d: Db)
    requires WellFormed(m) && m.tableName in d.tables
    requires AllIn(ColumnNames(m.columns), d.tables[m.tableName])
    requires OwnIndexNames(m, d.indices)
    ensures var live := IndicesOn(d.indices, m.tableName);
      Run(d, AddIndexes(m, live)) ==
      Run(WithMissingIndices(m, d), DropStale(Diff(IndexNames(m.indices), live).1))
  {
    var live := IndicesOn(d.indices, m.tableName);
    var creates := CreatePhase(m, live);
    var drops := DropStale(Diff(IndexNames(m.indices), live).1);
    assert AddIndexes(m, live) == creates + drops by {
      AddIndexesPlanDistinct(m, live);
    }
    assert Run(d, creates) == Some(WithMissingIndices(m, d)) by {
      RunCreatePhase(m, d);
    }
    RunAppend(d, creates, drops);
  }

  /** The index pass: tables are untouched, and the catalog ends as
      AfterIndexPass describes. */
  lemma RunIndexPass(m: RoomModel, d: Db)
    requires WellFormed(m) && Consistent(d) && m.tableName in d.tables
    requires AllIn(ColumnNames(m.columns), d.tables[m.tableName])
    requires OwnIndexNames(m, d.indices)
    ensures var r := Run(d, AddIndexes(m, IndicesOn(d.indices, m.tableName)));
      && r.Some? && r.value.tables == d.tables
      && (forall e :: e in r.value.indices <==> AfterIndexPass(m, d, e))
  {
    var live := IndicesOn(d.indices, m.tableName);
    var stale := Diff(IndexNames(m.indices), live).1;
    var d2 := WithMissingIndices(m, d);
    RunIndexPassPhases(m, d);
    RunDropStale(d2, stale);
    var r := Run(d2, DropStale(stale)).value;
    forall e ensures e in r.indices <==> AfterIndexPass(m, d, e) {
      IndexPassMember(m, d, e);
    }
  }

  // ---------------------------------------------------------------------
  // The whole migration
  // ---------------------------------------------------------------------

  /** `migrate(database)`: the table pass on what the queries read, then,
      when the model has indices, the index pass on the index names read
      after the table pass. None where SQLite raises. */
  function Migrate(m: RoomModel, suffix: Suffix, db: Db): Option<Db>
  {
    match Run(db, TablePass(m, suffix, Observe(db, m.tableName)))
    case None => None
    case Some(d) =>
      if |m.indices| > 0 then Run(d, AddIndexes(m, IndicesOn(d.indices, m.tableName))) else Some(d)
  }

  /** The catalog after the migration, for the table and for the rest. */
  ghost predicate IndicesReached(m: RoomModel, db: Db, r: Db)
  {
    && (forall n :: (n, m.tableName) in r.indices <==>
          n in IndexNames(m.indices)
          || ((n, m.tableName) in db.indices && !Rebuilt(m, db) && (IsAutoIndex(n) || |m.indices| == 0)))
    && (forall e: IndexEntry :: e.1 != m.tableName ==> (e in r.indices <==> e in db.indices))
  }

  lemma OwnIndexNamesKept(m: RoomModel, es: seq<IndexEntry>, es': seq<IndexEntry>)
    requires OwnIndexNames(m, es)
    requires forall e :: e in es' ==> e in es
    ensures OwnIndexNames(m, es')
  {
    forall i, k | 0 <= i < |m.indices| && 0 <= k < |es'| && es'[k].0 == m.indices[i].name
      ensures es'[k].1 == m.tableName
    {
      assert es'[k] in es';
      var q :| 0 <= q < |es| && es[q] == es'[k];
    }
  }

  /** The state after the table pass, and the facts the index pass needs. */
  lemma TablePassState(m: RoomModel, suffix: Suffix, db: Db)
    requires WellFormed(m) && Fits(m, suffix, db)
    ensures var d := Run(db, TablePass(m, suffix, Observe(db, m.tableName)));
      && d.Some? && Consistent(d.value) && TableReached(m, db, d.value)
      && AllIn(ColumnNames(m.columns), d.value.tables[m.tableName])
      && OwnIndexNames(m, d.value.indices)
      && (forall e :: e in d.value.indices <==> e in db.indices && (e.1 != m.tableName || !Rebuilt(m, db)))
  {
    var ss := TablePass(m, suffix, Observe(db, m.tableName));
    RunTablePass(m, suffix, db);
    RunConsistent(db, ss);
    var d := Run(db, ss).value;
    OwnIndexNamesKept(m, db.indices, d.indices);
  }

  /** The migration succeeds on every database it fits, and leaves the
      table with exactly the model's column names, every model index on the
      table, no other index on it except SQLite's own (or, when the model
      declares no index, the ones a table kept without rebuild had), and
      every other table and index as it was. */
  lemma MigrateReachesModel(m: RoomModel, suffix: Suffix, db: Db)
    requires WellFormed(m) && Fits(m, suffix, db)
    ensures Migrate(m, suffix, db).Some?
    ensures var r := Migrate(m, suffix, db).value;
      && Consistent(r)
      && TableReached(m, db, r)
      && IndicesReached(m, db, r)
  {
    var t := m.tableName;
    TablePassState(m, suffix, db);
    var d := Run(db, TablePass(m, suffix, Observe(db, t))).value;
    if |m.indices| > 0 {
      var ss := AddIndexes(m, IndicesOn(d.indices, t));
      RunIndexPass(m, d);
      RunConsistent(d, ss);
      var r := Run(d, ss).value;
      IndexPassCatalog(m, db, d, r);
    }
  }

  /** The catalog after the index pass, in terms of the catalog before the
      table pass. */
  lemma IndexPassCatalog(m: RoomModel, db: Db, d: Db, r: Db)
    requires |m.indices| > 0
    requires forall e :: e in d.indices <==> e in db.indices && (e.1 != m.tableName || !Rebuilt(m, db))
    requires forall e :: e in r.indices <==> AfterIndexPass(m, d, e)
    ensures IndicesReached(m, db, r)
  {
    var t := m.tableName;
    forall n ensures (n, t) in r.indices <==>
      n in IndexNames(m.indices) || ((n, t) in db.indices && !Rebuilt(m, db) && IsAutoIndex(n))
    {
      assert (n, t) in r.indices <==> AfterIndexPass(m, d, (n, t));
    }
    forall e: IndexEntry | e.1 != t ensures e in r.indices <==> e in db.indices {
      assert e in r.indices <==> AfterIndexPass(m, d, e);
    }
  }

  /** Idempotence: run again on its own result, the migration executes no
      statement and changes nothing. */
  lemma MigrateIdempotent(m: RoomModel, suffix: Suffix, db: Db)
    requires WellFormed(m) && Fits(m, suffix, db)
    ensures Migrate(m, suffix, db).Some?
    ensures var r := Migrate(m, suffix, db).value;
      && TablePass(m, suffix, Observe(r, m.tableName)) == []
      && (|m.indices| > 0 ==> AddIndexes(m, IndicesOn(r.indices, m.tableName)) == [])
      && Migrate(m, suffix, r) == Some(r)
  {
    MigrateReachesModel(m, suffix, db);
    var r := Migrate(m, suffix, db).value;
    TablePassIdle(m, suffix, db, r);
    if |m.indices| > 0 {
      IndexPassIdle(m, db, r);
    }
  }

  /** On a table that has exactly the model's column names, the table pass
      executes nothing. */
  lemma TablePassIdle(m: RoomModel, suffix: Suffix, db: Db, r: Db)
    requires WellFormed(m) && Consistent(r) && TableReached(m, db, r)
    ensures TablePass(m, suffix, Observe(r, m.tableName)) == []
  {
    var t := m.tableName;
    DistinctSameMembers(r.tables[t], ColumnNames(m.columns));
    AddColumnsEmpty(m, suffix, r.tables[t]);
    assert Observe(r, t).tableExists && Observe(r, t).columns == r.tables[t];
  }

  /** On a catalog holding every model index on the table, and no other
      index on it but SQLite's own, the index pass executes nothing. */
  lemma IndexPassIdle(m: RoomModel, db: Db, r: Db)
    requires WellFormed(m) && Consistent(r) && IndicesReached(m, db, r) && |m.indices| > 0
    ensures AddIndexes(m, IndicesOn(r.indices, m.tableName)) == []
  {
    var t := m.tableName;
    var live := IndicesOn(r.indices, t);
    IndicesOnDistinct(r.indices, t);
    forall i | 0 <= i < |m.indices| ensures m.indices[i].name in live {
      assert IndexNames(m.indices)[i] == m.indices[i].name;
    }
    AddIndexesEmpty(m, live);
  }

  // ---------------------------------------------------------------------
  // The existence query compares the table name exactly
  // ---------------------------------------------------------------------

  /** The tables SQLite keeps on `DROP TABLE IF EXISTS t`: every table
      whose name is not `t` up to case. */
  function KeptOnDropNoCase(tables: map<string, seq<string>>, t: string): (r: map<string, seq<string>>)
    ensures forall k :: k in r <==> k in tables && Fold(k) != Fold(t)
  {
    map k | k in tables && Fold(k) != Fold(t) :: tables[k]
  }

  /** The generated existence query compares the table name exactly, while
      SQLite's DROP TABLE ignores case: with a live table "Users" and the
      model table "users", the query reads no table, `createTable` runs,
      and its DROP TABLE IF EXISTS removes "Users" with all its rows. */
  lemma ExistsQueryMissesOtherCase(m: RoomModel, suffix: Suffix)
    requires m.tableName == "users"
    ensures var db := Db(map["Users" := ["id"]], []);
      && "Users" in db.tables
      && !Observe(db, m.tableName).tableExists
      && TablePass(m, suffix, Observe(db, m.tableName))[0] == DropTableIfExists("users")
      && "Users" !in KeptOnDropNoCase(db.tables, "users")
  {
    assert Fold("Users") == "users";
    assert Fold("users") == "users";
  }

  /** The existence query as intended: some table has the model's table
      name up to case. */
  predicate TableFoundNoCase(db: Db, t: string)
  {
    NamedNoCase(t, db.tables.Keys)
  }

  /** With the intended query, `createTable` runs only when its DROP TABLE
      IF EXISTS removes nothing: the query finds a table exactly when that
      drop would remove one. */
  lemma FoundNoCaseIffDropRemoves(db: Db, t: string)
    ensures TableFoundNoCase(db, t) <==> KeptOnDropNoCase(db.tables, t) != db.tables
  {
    if TableFoundNoCase(db, t) {
      var k :| k in db.tables.Keys && Fold(k) == Fold(t);
      assert k !in KeptOnDropNoCase(db.tables, t);
    } else {
      assert KeptOnDropNoCase(db.tables, t) == db.tables;
    }
  }

  lemma CaseDistinctSubset(a: set<string>, b: set<string>)
    requires a <= b && CaseDistinct(b)
    ensures CaseDistinct(a)
  {
  }

  /** On a database the migration fits, the intended query and the
      generated one give the same answer, so the rest of the model, which
      uses the generated one, holds for both. */
  lemma ExistsQueriesAgree(m: RoomModel, suffix: Suffix, db: Db)
    requires Fits(m, suffix, db)
    ensures TableFoundNoCase(db, m.tableName) <==> Observe(db, m.tableName).tableExists
  {
    var t := m.tableName;
    CaseDistinctSubset(db.tables.Keys + {t}, db.tables.Keys + {t, ShadowName(t, suffix)});
    NoCaseAgrees(t, db.tables.Keys);
  }
}
