/** The behaviour of the generated migration class: its constructor's
    `tableMeta` map, and the statements its `migrate`, `createTable`,
    `addColumns` and `addIndexes` methods execute for a given state of the
    database. The state is read by three queries (does the table exist, its
    `pragma table_info` column names, its index names in `sqlite_master`);
    here their answers are a Snapshot, or are read off a schema `Db`. */
module Migration {
  import opened Wrappers
  import opened Text
  import opened Models
  import opened SeqDiff
  import opened Sqlite
  import Ddl

  // ---------------------------------------------------------------------
  // tableMeta: sequential puts into a hash map
  // ---------------------------------------------------------------------

  /** The map left by putting `entries` in order: a later put of the same
      key replaces the earlier value. */
  function Assoc<V>(entries: seq<(string, V)>): (m: map<string, V>)
    ensures m.Keys == KeySet(entries)
  {
    if |entries| == 0 then map[]
    else
      var init := entries[..|entries| - 1];
      var last := entries[|entries| - 1];
      assert forall i :: 0 <= i < |init| ==> init[i] == entries[i];
      Assoc(init)[last.0 := last.1]
  }

  function KeySet<V>(entries: seq<(string, V)>): set<string>
  {
    set i | 0 <= i < |entries| :: entries[i].0
  }

  /** The value of a key is the one of its last put. */
  lemma {:induction false} AssocLastPut<V>(entries: seq<(string, V)>, i: nat)
    requires i < |entries|
    requires forall j :: i < j < |entries| ==> entries[j].0 != entries[i].0
    ensures entries[i].0 in Assoc(entries)
    ensures Assoc(entries)[entries[i].0] == entries[i].1
    decreases |entries|
  {
    if i < |entries| - 1 {
      var init := entries[..|entries| - 1];
      AssocLastPut(init, i);
    }
  }

  /** Every value in the map was put under its key. */
  lemma {:induction false} AssocValueWasPut<V>(entries: seq<(string, V)>, k: string)
    requires k in Assoc(entries)
    ensures exists i :: 0 <= i < |entries| && entries[i] == (k, Assoc(entries)[k])
    decreases |entries|
  {
    var last := entries[|entries| - 1];
    if last.0 != k {
      var init := entries[..|entries| - 1];
      AssocValueWasPut(init, k);
      var i :| 0 <= i < |init| && init[i] == (k, Assoc(init)[k]);
      assert entries[i] == init[i];
    } else {
      assert entries[|entries| - 1] == (k, Assoc(entries)[k]);
    }
  }

  lemma KeySetAppend<V>(a: seq<(string, V)>, b: seq<(string, V)>)
    ensures KeySet(a + b) == KeySet(a) + KeySet(b)
  {
    var e := a + b;
    forall k | k in KeySet(e) ensures k in KeySet(a) + KeySet(b) {
      var i :| 0 <= i < |e| && e[i].0 == k;
      if i < |a| {
        assert e[i] == a[i];
      } else {
        assert e[i] == b[i - |a|];
      }
    }
    forall k | k in KeySet(a) + KeySet(b) ensures k in KeySet(e) {
      if k in KeySet(a) {
        var i :| 0 <= i < |a| && a[i].0 == k;
        assert e[i] == a[i];
      } else {
        var i :| 0 <= i < |b| && b[i].0 == k;
        assert e[|a| + i] == b[i];
      }
    }
  }

  function ColumnEntries(m: RoomModel): (r: seq<(string, Statement)>)
    ensures |r| == |m.columns|
    ensures forall i :: 0 <= i < |r| ==> r[i] == (m.columns[i].name, AddColumn(m.tableName, m.columns[i]))
  {
    seq(|m.columns|, i requires 0 <= i < |m.columns| =>
      (m.columns[i].name, AddColumn(m.tableName, m.columns[i])))
  }

  function IndexEntries(m: RoomModel): (r: seq<(string, Statement)>)
    ensures |r| == |m.indices|
    ensures forall i :: 0 <= i < |r| ==> r[i] == (m.indices[i].name, CreateIndex(m.tableName, m.indices[i]))
  {
    seq(|m.indices|, i requires 0 <= i < |m.indices| =>
      (m.indices[i].name, CreateIndex(m.tableName, m.indices[i])))
  }

  /** The generated constructor's `tableMeta`, as statements: every
      column's ADD COLUMN, then every index's CREATE INDEX, under its name. */
  function Meta(m: RoomModel): map<string, Statement>
  {
    Assoc(ColumnEntries(m) + IndexEntries(m))
  }

  /** `tableMeta` as the SQL text the constructor stores. */
  function TableMeta(m: RoomModel): map<string, string>
  {
    map k | k in Meta(m) :: Render(Meta(m)[k])
  }

  /** The map holds a fragment for every column name and every index name,
      and for nothing else. */
  lemma MetaKeys(m: RoomModel)
    ensures Meta(m).Keys == TableMeta(m).Keys
    ensures forall k :: k in Meta(m) <==> k in ColumnNames(m.columns) || k in IndexNames(m.indices)
  {
    var ce, ie := ColumnEntries(m), IndexEntries(m);
    KeySetAppend(ce, ie);
    forall k ensures k in KeySet(ce) <==> k in ColumnNames(m.columns) {
      if k in ColumnNames(m.columns) {
        var i :| 0 <= i < |m.columns| && ColumnNames(m.columns)[i] == k;
        assert ce[i].0 == k;
      }
    }
    forall k ensures k in KeySet(ie) <==> k in IndexNames(m.indices) {
      if k in IndexNames(m.indices) {
        var i :| 0 <= i < |m.indices| && IndexNames(m.indices)[i] == k;
        assert ie[i].0 == k;
      }
    }
  }

  /** Under an index's name the map holds the CREATE INDEX statement of the
      last index of that name, whatever columns share the name. */
  lemma MetaIndexEntry(m: RoomModel, i: nat)
    requires i < |m.indices|
    requires forall j :: i < j < |m.indices| ==> m.indices[j].name != m.indices[i].name
    ensures m.indices[i].name in Meta(m)
    ensures Meta(m)[m.indices[i].name] == CreateIndex(m.tableName, m.indices[i])
    ensures TableMeta(m)[m.indices[i].name] == Ddl.CreateIndex(m.indices[i], m.tableName)
  {
    var ce, ie := ColumnEntries(m), IndexEntries(m);
    var e := ce + ie;
    var k := |ce| + i;
    assert e[k] == ie[i];
    forall j | k < j < |e| ensures e[j].0 != e[k].0 {
      assert e[j] == ie[j - |ce|];
    }
    AssocLastPut(e, k);
  }

  /** Under a column's name the map holds the ADD COLUMN statement of the
      last column of that name, provided no index has the name too. */
  lemma MetaColumnEntry(m: RoomModel, i: nat)
    requires i < |m.columns|
    requires forall j :: i < j < |m.columns| ==> m.columns[j].name != m.columns[i].name
    requires m.columns[i].name !in IndexNames(m.indices)
    ensures m.columns[i].name in Meta(m)
    ensures Meta(m)[m.columns[i].name] == AddColumn(m.tableName, m.columns[i])
    ensures TableMeta(m)[m.columns[i].name] == Ddl.AddColumn(m.tableName, m.columns[i])
  {
    var ce, ie := ColumnEntries(m), IndexEntries(m);
    var e := ce + ie;
    assert e[i] == ce[i];
    forall j | i < j < |e| ensures e[j].0 != e[i].0 {
      if j < |ce| {
        assert e[j] == ce[j];
      } else {
        assert e[j] == ie[j - |ce|];
        assert IndexNames(m.indices)[j - |ce|] == e[j].0;
      }
    }
    AssocLastPut(e, i);
  }

  /** Every stored fragment is the ADD COLUMN statement of a column or the
      CREATE INDEX statement of an index of the model. */
  lemma MetaValues(m: RoomModel, k: string)
    requires k in Meta(m)
    ensures (exists i :: 0 <= i < |m.columns| && Meta(m)[k] == AddColumn(m.tableName, m.columns[i]))
         || (exists i :: 0 <= i < |m.indices| && Meta(m)[k] == CreateIndex(m.tableName, m.indices[i]))
  {
    var ce, ie := ColumnEntries(m), IndexEntries(m);
    var e := ce + ie;
    AssocValueWasPut(e, k);
    var v := Meta(m)[k];
    var i :| 0 <= i < |e| && e[i] == (k, v);
    if i < |ce| {
      assert e[i] == ce[i];
      assert v == AddColumn(m.tableName, m.columns[i]);
    } else {
      var j := i - |ce|;
      assert e[i] == ie[j];
      assert v == CreateIndex(m.tableName, m.indices[j]);
    }
  }

  // ---------------------------------------------------------------------
  // The statements of one migration, given what the queries read
  // ---------------------------------------------------------------------

  /** The shadow-table suffix: `Random().nextInt(19999999)`, drawn once
      when the class is generated. */
  type Suffix = n: nat | n < 19999999

  function ShadowName(t: string, suffix: Suffix): (r: string)
    ensures StartsWith(r, t + "_") && r != t
  {
    ConcatPrefix(t + "_", NatToString(suffix));
    t + "_" + NatToString(suffix)
  }

  /** The answers of the generated class's queries: whether the table
      exists, its column names, and the index names the index pass reads. */
  datatype Snapshot = Snapshot(tableExists: bool, columns: seq<string>, indices: seq<string>)

  /** `createTable`. */
  function CreateTablePass(m: RoomModel): seq<Statement>
  {
    [DropTableIfExists(m.tableName), CreateTableIfNotExists(m.tableName, m.columns)]
  }

  /** The copy-and-rename that drops stale columns. */
  function Rebuild(m: RoomModel, suffix: Suffix): seq<Statement>
  {
    var shadow := ShadowName(m.tableName, suffix);
    [ CreateTable(shadow, m.columns),
      CopyRows(shadow, m.tableName, m.columns),
      DropTable(m.tableName),
      RenameTable(shadow, m.tableName) ]
  }

  /** The rebuild issues no ADD COLUMN, CREATE INDEX or DROP INDEX
      statement; its DROP TABLE removes all of the old table's indices. */
  lemma RebuildKinds(m: RoomModel, suffix: Suffix)
    ensures forall s :: s in Rebuild(m, suffix) ==>
      !s.AddColumn? && !s.CreateIndex? && !s.DropIndexIfExists?
  {
    var r := Rebuild(m, suffix);
    assert |r| == 4;
    forall s | s in r ensures !s.AddColumn? && !s.CreateIndex? && !s.DropIndexIfExists? {
      var k :| 0 <= k < 4 && r[k] == s;
    }
  }

  /** `database.execSQL(tableMeta.get(name))` for each name, in order. */
  function Lookups(meta: map<string, Statement>, names: seq<string>): (r: seq<Statement>)
    requires forall i :: 0 <= i < |names| ==> names[i] in meta
    ensures |r| == |names|
    ensures forall i :: 0 <= i < |names| ==> r[i] == meta[names[i]]
  {
    seq(|names|, i requires 0 <= i < |names| => meta[names[i]])
  }

  lemma MissingAreKeys(m: RoomModel, target: seq<string>, live: seq<string>)
    requires forall x :: x in target ==> x in ColumnNames(m.columns) || x in IndexNames(m.indices)
    ensures forall i :: 0 <= i < |Diff(target, live).0| ==> Diff(target, live).0[i] in Meta(m)
  {
    MetaKeys(m);
    forall i | 0 <= i < |Diff(target, live).0| ensures Diff(target, live).0[i] in Meta(m) {
      DiffMembership(target, live, Diff(target, live).0[i]);
    }
  }

  /** `database.execSQL(tableMeta.get(column))` for every model column not
      found live, in model order. */
  function ColumnLookupPass(m: RoomModel, live: seq<string>): seq<Statement>
  {
    MissingAreKeys(m, ColumnNames(m.columns), live);
    Lookups(Meta(m), Diff(ColumnNames(m.columns), live).0)
  }

  /** `database.execSQL(tableMeta.get(index))` for every model index not
      found live, in model order. */
  function IndexLookupPass(m: RoomModel, live: seq<string>): seq<Statement>
  {
    MissingAreKeys(m, IndexNames(m.indices), live);
    Lookups(Meta(m), Diff(IndexNames(m.indices), live).0)
  }

  /** `addColumns`: the ADD COLUMN of every model column not found live,
      then, if live columns are left over, the rebuild. */
  function AddColumns(m: RoomModel, suffix: Suffix, live: seq<string>): seq<Statement>
  {
    ColumnLookupPass(m, live)
    + (if |Diff(ColumnNames(m.columns), live).1| > 0 then Rebuild(m, suffix) else [])
  }

  /** The duplicate-row deletion issued for each unique index, in order. */
  function Dedups(t: string, idxs: seq<RoomIndex>): (r: seq<Statement>)
    ensures forall s :: s in r ==> s.DeleteDuplicates? && s.table == t
  {
    if |idxs| == 0 then []
    else (if idxs[0].isUnique then [DeleteDuplicates(t, idxs[0].columns)] else []) + Dedups(t, idxs[1..])
  }

  /** The drops of stale indices, skipping SQLite's own. */
  function DropStale(names: seq<string>): (r: seq<Statement>)
    ensures forall s :: s in r ==> s.DropIndexIfExists?
  {
    if |names| == 0 then []
    else (if IsAutoIndex(names[0]) then [] else [DropIndexIfExists(names[0])]) + DropStale(names[1..])
  }

  /** `addIndexes`: when some model index is not live, the deletions for
      every unique index and then the CREATE INDEX of every missing one;
      afterwards the drops of live indices the model does not declare. */
  function AddIndexes(m: RoomModel, live: seq<string>): seq<Statement>
  {
    var (missing, stale) := Diff(IndexNames(m.indices), live);
    (if |missing| > 0 then Dedups(m.tableName, m.indices) + IndexLookupPass(m, live) else [])
    + DropStale(stale)
  }

  /** The table half of `migrate`: `addColumns` if the table exists,
      `createTable` otherwise. */
  function TablePass(m: RoomModel, suffix: Suffix, snap: Snapshot): seq<Statement>
  {
    if snap.tableExists then AddColumns(m, suffix, snap.columns) else CreateTablePass(m)
  }

  /** `migrate`: the table pass, then `addIndexes` when the model has
      indices (the generated class has no `addIndexes` otherwise). */
  function Statements(m: RoomModel, suffix: Suffix, snap: Snapshot): seq<Statement>
  {
    TablePass(m, suffix, snap) + (if |m.indices| > 0 then AddIndexes(m, snap.indices) else [])
  }

  /** The SQL texts `migrate` passes to `execSQL`, in order. */
  function Sql(m: RoomModel, suffix: Suffix, snap: Snapshot): seq<string>
  {
    RenderAll(Statements(m, suffix, snap))
  }

  // ---------------------------------------------------------------------
  // What the statements are, stated without the diff
  // ---------------------------------------------------------------------

  /** The model columns whose names are not live, in model order. */
  function MissingColumns(cols: seq<RoomColumn>, live: seq<string>): (r: seq<RoomColumn>)
    ensures forall c :: c in r <==> c in cols && c.name !in live
    ensures ColumnNames(r) == Absent(ColumnNames(cols), live)
  {
    if |cols| == 0 then []
    else
      var rest := MissingColumns(cols[1..], live);
      assert forall c :: c in cols <==> c == cols[0] || c in cols[1..];
      assert ColumnNames(cols)[1..] == ColumnNames(cols[1..]);
      if cols[0].name in live then rest
      else
        assert ColumnNames([cols[0]] + rest) == [cols[0].name] + ColumnNames(rest);
        [cols[0]] + rest
  }

  /** Every model index is live. */
  predicate AllLive(idxs: seq<RoomIndex>, live: seq<string>)
  {
    forall i :: 0 <= i < |idxs| ==> idxs[i].name in live
  }

  /** The facts about the head and the tail of a non-empty index list the
      recursion of MissingIndices needs. */
  lemma IndicesCons(idxs: seq<RoomIndex>, live: seq<string>)
    requires |idxs| > 0
    ensures forall x :: x in idxs <==> x == idxs[0] || x in idxs[1..]
    ensures IndexNames(idxs)[0] == idxs[0].name && IndexNames(idxs)[1..] == IndexNames(idxs[1..])
    ensures AllLive(idxs, live) <==> idxs[0].name in live && AllLive(idxs[1..], live)
  {
    assert idxs == [idxs[0]] + idxs[1..];
    if idxs[0].name in live && AllLive(idxs[1..], live) {
      forall i | 0 <= i < |idxs| ensures idxs[i].name in live {
        if i > 0 {
          assert idxs[i] == idxs[1..][i - 1];
        }
      }
    }
  }

  /** The model indices whose names are not live, in model order. */
  function MissingIndices(idxs: seq<RoomIndex>, live: seq<string>): (r: seq<RoomIndex>)
    ensures forall x :: x in r <==> x in idxs && x.name !in live
  {
    if |idxs| == 0 then []
    else
      IndicesCons(idxs, live);
      (if idxs[0].name in live then [] else [idxs[0]]) + MissingIndices(idxs[1..], live)
  }

  lemma IndexNamesAppend(a: seq<RoomIndex>, b: seq<RoomIndex>)
    ensures IndexNames(a + b) == IndexNames(a) + IndexNames(b)
  {
    assert |IndexNames(a + b)| == |IndexNames(a) + IndexNames(b)|;
    forall i | 0 <= i < |a + b| ensures IndexNames(a + b)[i] == (IndexNames(a) + IndexNames(b))[i] {
      if i < |a| {
        assert (a + b)[i] == a[i];
      } else {
        assert (a + b)[i] == b[i - |a|];
      }
    }
  }

  /** The names of the missing indices are the model's index names that
      are not live, in model order. */
  lemma {:induction false} MissingIndicesNames(idxs: seq<RoomIndex>, live: seq<string>)
    ensures IndexNames(MissingIndices(idxs, live)) == Absent(IndexNames(idxs), live)
    decreases |idxs|
  {
    if |idxs| > 0 {
      IndicesCons(idxs, live);
      MissingIndicesNames(idxs[1..], live);
      var names := IndexNames(idxs);
      var rest := MissingIndices(idxs[1..], live);
      if idxs[0].name in live {
        assert MissingIndices(idxs, live) == [] + rest;
        assert [] + rest == rest;
      } else {
        assert MissingIndices(idxs, live) == [idxs[0]] + rest;
        IndexNamesAppend([idxs[0]], rest);
        assert IndexNames([idxs[0]]) == [names[0]];
      }
    }
  }

  /** Nothing is missing when every model index is live. */
  lemma {:induction false} MissingIndicesNone(idxs: seq<RoomIndex>, live: seq<string>)
    requires AllLive(idxs, live)
    ensures MissingIndices(idxs, live) == []
    decreases |idxs|
  {
    if |idxs| > 0 {
      IndicesCons(idxs, live);
      MissingIndicesNone(idxs[1..], live);
    }
  }

  function AddAll(t: string, cs: seq<RoomColumn>): (r: seq<Statement>)
    ensures |r| == |cs|
    ensures forall k :: 0 <= k < |cs| ==> r[k] == AddColumn(t, cs[k])
  {
    seq(|cs|, k requires 0 <= k < |cs| => AddColumn(t, cs[k]))
  }

  function CreateAll(t: string, ixs: seq<RoomIndex>): (r: seq<Statement>)
    ensures |r| == |ixs|
    ensures forall k :: 0 <= k < |ixs| ==> r[k] == CreateIndex(t, ixs[k])
  {
    seq(|ixs|, k requires 0 <= k < |ixs| => CreateIndex(t, ixs[k]))
  }

  /** No two columns share a name, no two indices share a name, and no
      index is named like a column. */
  predicate UniqueModelNames(m: RoomModel)
  {
    && Distinct(ColumnNames(m.columns))
    && Distinct(IndexNames(m.indices))
    && (forall i :: 0 <= i < |m.columns| ==> m.columns[i].name !in IndexNames(m.indices))
  }

  /** A looked-up fragment is an ADD COLUMN or a CREATE INDEX statement. */
  lemma LookupsKinds(m: RoomModel, names: seq<string>)
    requires forall i :: 0 <= i < |names| ==> names[i] in Meta(m)
    ensures forall s :: s in Lookups(Meta(m), names) ==> s.AddColumn? || s.CreateIndex?
  {
    forall s | s in Lookups(Meta(m), names) ensures s.AddColumn? || s.CreateIndex? {
      var k :| 0 <= k < |names| && Lookups(Meta(m), names)[k] == s;
      MetaValues(m, names[k]);
    }
  }

  lemma LookupPassKinds(m: RoomModel, live: seq<string>)
    ensures forall s :: s in ColumnLookupPass(m, live) ==> s.AddColumn? || s.CreateIndex?
    ensures forall s :: s in IndexLookupPass(m, live) ==> s.AddColumn? || s.CreateIndex?
  {
    MissingAreKeys(m, ColumnNames(m.columns), live);
    LookupsKinds(m, Diff(ColumnNames(m.columns), live).0);
    MissingAreKeys(m, IndexNames(m.indices), live);
    LookupsKinds(m, Diff(IndexNames(m.indices), live).0);
  }

  lemma ColumnLookupAt(m: RoomModel, cs: seq<RoomColumn>, k: nat)
    requires UniqueModelNames(m)
    requires k < |cs| && cs[k] in m.columns
    ensures cs[k].name in Meta(m)
    ensures Meta(m)[cs[k].name] == AddColumn(m.tableName, cs[k])
  {
    var i :| 0 <= i < |m.columns| && m.columns[i] == cs[k];
    var names := ColumnNames(m.columns);
    assert m.columns[i].name !in IndexNames(m.indices);
    forall j | i < j < |m.columns| ensures m.columns[j].name != m.columns[i].name {
      assert names[i] != names[j];
    }
    MetaColumnEntry(m, i);
  }

  /** With unique names, the lookups of the column pass are the ADD COLUMN
      statements of exactly the columns not found live, in model order. */
  lemma ColumnLookups(m: RoomModel, live: seq<string>)
    requires UniqueModelNames(m)
    ensures ColumnLookupPass(m, live) == AddAll(m.tableName, MissingColumns(m.columns, live))
  {
    var names := ColumnNames(m.columns);
    DiffMissingIsAbsent(names, live);
    MissingAreKeys(m, names, live);
    var missing := Diff(names, live).0;
    var cs := MissingColumns(m.columns, live);
    assert ColumnNames(cs) == missing;
    var l := Lookups(Meta(m), missing);
    var a := AddAll(m.tableName, cs);
    forall k | 0 <= k < |missing| ensures l[k] == a[k] {
      assert cs[k] in cs;
      ColumnLookupAt(m, cs, k);
      assert missing[k] == cs[k].name;
    }
    assert l == a;
  }

  /** The position of the last model index of the given name: the index
      whose CREATE INDEX the constructor's map keeps under that name. */
  function LastNamed(idxs: seq<RoomIndex>, n: string): (r: nat)
    requires n in IndexNames(idxs)
    ensures r < |idxs| && idxs[r].name == n
    ensures forall j :: r < j < |idxs| ==> idxs[j].name != n
    decreases |idxs|
  {
    var k := |idxs| - 1;
    if idxs[k].name == n then k
    else
      var init := idxs[..k];
      assert n in IndexNames(init) by {
        var i :| 0 <= i < |idxs| && IndexNames(idxs)[i] == n;
        assert IndexNames(init)[i] == n;
      }
      LastNamed(init, n)
  }

  lemma {:induction false} UnmatchedAreNames(m: RoomModel, live: seq<string>)
    ensures forall k :: 0 <= k < |Diff(IndexNames(m.indices), live).0| ==>
      Diff(IndexNames(m.indices), live).0[k] in IndexNames(m.indices)
  {
    var missing := Diff(IndexNames(m.indices), live).0;
    forall k | 0 <= k < |missing| ensures missing[k] in IndexNames(m.indices) {
      DiffMembership(IndexNames(m.indices), live, missing[k]);
    }
  }

  /** For each name, the last model index of that name. */
  function NamedIndices(idxs: seq<RoomIndex>, names: seq<string>): (r: seq<RoomIndex>)
    requires forall k :: 0 <= k < |names| ==> names[k] in IndexNames(idxs)
    ensures |r| == |names|
    ensures forall k :: 0 <= k < |names| ==> r[k] == idxs[LastNamed(idxs, names[k])]
  {
    seq(|names|, k requires 0 <= k < |names| => idxs[LastNamed(idxs, names[k])])
  }

  /** The model indices the index pass creates: for each model index name
      not matched live, in model order, the last model index of that name. */
  function CreatedIndices(m: RoomModel, live: seq<string>): seq<RoomIndex>
  {
    UnmatchedAreNames(m, live);
    NamedIndices(m.indices, Diff(IndexNames(m.indices), live).0)
  }

  /** With distinct names, the last index of a model index's name is that
      index. */
  lemma {:induction false} LastNamedDistinct(idxs: seq<RoomIndex>, i: nat)
    requires Distinct(IndexNames(idxs)) && i < |idxs|
    ensures idxs[i].name in IndexNames(idxs) && LastNamed(idxs, idxs[i].name) == i
  {
    var n := idxs[i].name;
    assert IndexNames(idxs)[i] == n;
    var p := LastNamed(idxs, n);
    SameNameSamePosition(idxs, i, p);
  }

  lemma SameNameSamePosition(idxs: seq<RoomIndex>, i: nat, p: nat)
    requires Distinct(IndexNames(idxs)) && i < |idxs| && p < |idxs|
    requires idxs[i].name == idxs[p].name
    ensures i == p
  {
    var names := IndexNames(idxs);
    assert names[i] == names[p];
  }

  /** Whatever the model's index names, the lookups of the index pass are
      the CREATE INDEX statements of the created indices: a name repeated
      in the model yields the statement of its last index, since that one
      was put into the map last. */
  lemma {:induction false} IndexLookups(m: RoomModel, live: seq<string>)
    ensures IndexLookupPass(m, live) == CreateAll(m.tableName, CreatedIndices(m, live))
  {
    var names := IndexNames(m.indices);
    MissingAreKeys(m, names, live);
    var missing := Diff(names, live).0;
    var ixs := CreatedIndices(m, live);
    var l := Lookups(Meta(m), missing);
    var a := CreateAll(m.tableName, ixs);
    forall k | 0 <= k < |missing| ensures l[k] == a[k] {
      MetaIndexEntry(m, LastNamed(m.indices, missing[k]));
    }
    assert l == a;
  }

  /** With distinct index names, the created indices are exactly the model
      indices not found live, in model order. */
  lemma {:induction false} CreatedIndicesDistinct(m: RoomModel, live: seq<string>)
    requires Distinct(IndexNames(m.indices))
    ensures CreatedIndices(m, live) == MissingIndices(m.indices, live)
  {
    var names := IndexNames(m.indices);
    DiffMissingIsAbsent(names, live);
    UnmatchedAreNames(m, live);
    var missing := Diff(names, live).0;
    var ixs := MissingIndices(m.indices, live);
    var created := NamedIndices(m.indices, missing);
    MissingIndicesNames(m.indices, live);
    assert |created| == |ixs|;
    forall k | 0 <= k < |missing| ensures created[k] == ixs[k] {
      assert missing[k] == IndexNames(ixs)[k];
      MissingIndexIsLast(m.indices, live, k);
    }
  }

  lemma {:induction false} MissingIndexIsLast(idxs: seq<RoomIndex>, live: seq<string>, k: nat)
    requires Distinct(IndexNames(idxs)) && k < |MissingIndices(idxs, live)|
    ensures var x := MissingIndices(idxs, live)[k];
      x.name in IndexNames(idxs) && idxs[LastNamed(idxs, x.name)] == x
  {
    var x := MissingIndices(idxs, live)[k];
    assert x in MissingIndices(idxs, live);
    var i :| 0 <= i < |idxs| && idxs[i] == x;
    LastNamedDistinct(idxs, i);
  }

  /** With distinct index names, the lookups of the index pass are the
      CREATE INDEX statements of exactly the indices not found live, in
      model order. */
  lemma {:induction false} IndexLookupsDistinct(m: RoomModel, live: seq<string>)
    requires Distinct(IndexNames(m.indices))
    ensures IndexLookupPass(m, live) == CreateAll(m.tableName, MissingIndices(m.indices, live))
  {
    IndexLookups(m, live);
    CreatedIndicesDistinct(m, live);
  }

  /** With duplicate-free live names, something is left over exactly when
      some live name is not a target name. */
  lemma StaleIffUnknownLive(target: seq<string>, live: seq<string>)
    requires Distinct(live)
    ensures |Diff(target, live).1| > 0 <==> exists i :: 0 <= i < |live| && live[i] !in target
  {
    var stale := Diff(target, live).1;
    if |stale| > 0 {
      DiffMembership(target, live, stale[0]);
      var x := stale[0];
      assert multiset(stale)[x] > 0;
      assert multiset(live)[x] > multiset(target)[x];
      assert multiset(live)[x] == 1 by {
        DistinctMultiplicity(live, x);
      }
      assert x !in target;
      var i :| 0 <= i < |live| && live[i] == x;
    }
    if exists i :: 0 <= i < |live| && live[i] !in target {
      var i :| 0 <= i < |live| && live[i] !in target;
      DiffMembership(target, live, live[i]);
    }
  }

  /** The column pass on an existing table: the ADD COLUMN statements of
      the model columns not found live, in model order, followed by the
      four-statement rebuild exactly when some live column is not in the
      model. */
  lemma AddColumnsPlan(m: RoomModel, suffix: Suffix, live: seq<string>)
    requires UniqueModelNames(m) && Distinct(live)
    ensures AddColumns(m, suffix, live) ==
      AddAll(m.tableName, MissingColumns(m.columns, live))
      + (if exists i :: 0 <= i < |live| && live[i] !in ColumnNames(m.columns)
         then Rebuild(m, suffix) else [])
  {
    ColumnLookups(m, live);
    StaleIffUnknownLive(ColumnNames(m.columns), live);
  }

  /** The unique indices get a duplicate-row deletion over their columns,
      and nothing else does. */
  lemma {:induction false} DedupsOfUnique(t: string, idxs: seq<RoomIndex>, u: string, cols: seq<string>)
    ensures DeleteDuplicates(u, cols) in Dedups(t, idxs) <==>
      u == t && exists i :: 0 <= i < |idxs| && idxs[i].isUnique && idxs[i].columns == cols
    decreases |idxs|
  {
    if |idxs| > 0 {
      DedupsOfUnique(t, idxs[1..], u, cols);
      if exists i :: 0 <= i < |idxs[1..]| && idxs[1..][i].isUnique && idxs[1..][i].columns == cols {
        var i :| 0 <= i < |idxs[1..]| && idxs[1..][i].isUnique && idxs[1..][i].columns == cols;
        assert idxs[i + 1] == idxs[1..][i];
      }
      if exists i :: 0 <= i < |idxs| && idxs[i].isUnique && idxs[i].columns == cols {
        var i :| 0 <= i < |idxs| && idxs[i].isUnique && idxs[i].columns == cols;
        if i > 0 {
          assert idxs[1..][i - 1] == idxs[i];
        }
      }
    }
  }

  /** The index pass, whatever the model's index names: unless the live
      names hold every model index name as often as the model does, the
      deletions for the unique indices and then the CREATE INDEX statements
      of the created indices; then the drops. */
  lemma {:induction false} AddIndexesPlan(m: RoomModel, live: seq<string>)
    ensures AddIndexes(m, live) ==
      (if !(multiset(IndexNames(m.indices)) <= multiset(live))
       then Dedups(m.tableName, m.indices) + CreateAll(m.tableName, CreatedIndices(m, live))
       else [])
      + DropStale(Diff(IndexNames(m.indices), live).1)
  {
    IndexLookups(m, live);
    NothingMissingIffCovered(IndexNames(m.indices), live);
  }

  /** With distinct index names: when some model index is not live, the
      deletions for the unique indices and then the CREATE INDEX statements
      of the indices not found live, in model order; then the drops. */
  lemma {:induction false} AddIndexesPlanDistinct(m: RoomModel, live: seq<string>)
    requires Distinct(IndexNames(m.indices))
    ensures AddIndexes(m, live) ==
      (if exists i :: 0 <= i < |m.indices| && m.indices[i].name !in live
       then Dedups(m.tableName, m.indices) + CreateAll(m.tableName, MissingIndices(m.indices, live))
       else [])
      + DropStale(Diff(IndexNames(m.indices), live).1)
  {
    var d := Diff(IndexNames(m.indices), live);
    IndexLookupsDistinct(m, live);
    MissingIffNotAllLive(m, live);
    assert AddIndexes(m, live) ==
      (if |d.0| > 0 then Dedups(m.tableName, m.indices) + IndexLookupPass(m, live) else [])
      + DropStale(d.1);
  }

  lemma {:induction false} DropStaleMembers(names: seq<string>, s: Statement)
    ensures s in DropStale(names) <==>
      s.DropIndexIfExists? && s.name in names && !IsAutoIndex(s.name)
    decreases |names|
  {
    if |names| > 0 {
      DropStaleMembers(names[1..], s);
      assert forall n :: n in names <==> n == names[0] || n in names[1..];
    }
  }

  /** The column pass issues no DROP INDEX statement. */
  lemma AddColumnsKinds(m: RoomModel, suffix: Suffix, live: seq<string>)
    ensures forall s :: s in AddColumns(m, suffix, live) ==> !s.DropIndexIfExists?
  {
    var adds := ColumnLookupPass(m, live);
    var rebuild := if |Diff(ColumnNames(m.columns), live).1| > 0 then Rebuild(m, suffix) else [];
    assert AddColumns(m, suffix, live) == adds + rebuild;
    LookupPassKinds(m, live);
    RebuildKinds(m, suffix);
    forall s: Statement | s in adds + rebuild ensures !s.DropIndexIfExists? {
      if s !in adds {
        assert s in rebuild;
      }
    }
  }

  /** The table pass issues no DROP INDEX statement; a rebuild's DROP TABLE
      still removes every index of the table. */
  lemma TablePassKinds(m: RoomModel, suffix: Suffix, snap: Snapshot)
    ensures forall s :: s in TablePass(m, suffix, snap) ==> !s.DropIndexIfExists?
  {
    if snap.tableExists {
      AddColumnsKinds(m, suffix, snap.columns);
    } else {
      var c := CreateTablePass(m);
      assert TablePass(m, suffix, snap) == c;
      forall s: Statement | s in c ensures !s.DropIndexIfExists? {
        assert s == c[0] || s == c[1];
      }
    }
  }

  /** Which names the migration issues a DROP INDEX for: exactly the live
      indices the model does not declare, except SQLite's own, and only
      when the model has indices at all. No DROP INDEX names an automatic
      index, whatever the live state (a rebuild's DROP TABLE still removes
      them with the table). */
  lemma DroppedIndices(m: RoomModel, suffix: Suffix, snap: Snapshot, n: string)
    requires Distinct(snap.indices)
    ensures DropIndexIfExists(n) in Statements(m, suffix, snap) <==>
      |m.indices| > 0 && n in snap.indices && n !in IndexNames(m.indices) && !IsAutoIndex(n)
  {
    var x := DropIndexIfExists(n);
    var tp := TablePass(m, suffix, snap);
    TablePassKinds(m, suffix, snap);
    assert x !in tp;
    if |m.indices| > 0 {
      var d := Diff(IndexNames(m.indices), snap.indices);
      var dedups := Dedups(m.tableName, m.indices);
      var creates := IndexLookupPass(m, snap.indices);
      var drops := DropStale(d.1);
      var first := if |d.0| > 0 then dedups + creates else [];
      assert Statements(m, suffix, snap) == tp + (first + drops);
      LookupPassKinds(m, snap.indices);
      assert x !in dedups && x !in creates;
      assert x !in first;
      DropStaleMembers(d.1, x);
      StaleIsUnknown(IndexNames(m.indices), snap.indices, n);
    } else {
      assert Statements(m, suffix, snap) == tp + [];
    }
  }

  /** With duplicate-free live names, a name is left over exactly when it is
      live and not a target name. */
  lemma StaleIsUnknown(target: seq<string>, live: seq<string>, n: string)
    requires Distinct(live)
    ensures n in Diff(target, live).1 <==> n in live && n !in target
  {
    var stale := Diff(target, live).1;
    DiffMembership(target, live, n);
    if n in stale {
      assert multiset(stale)[n] > 0;
      DistinctMultiplicity(live, n);
    }
  }

  // ---------------------------------------------------------------------
  // When nothing is executed; what is added; what text is dropped
  // ---------------------------------------------------------------------

  lemma {:induction false} DropStaleEmpty(names: seq<string>)
    ensures DropStale(names) == [] <==> forall i :: 0 <= i < |names| ==> IsAutoIndex(names[i])
    decreases |names|
  {
    if |names| > 0 {
      DropStaleEmpty(names[1..]);
      assert forall i :: 1 <= i < |names| ==> names[i] == names[1..][i - 1];
    }
  }

  /** The column pass on an existing table executes nothing exactly when
      the live columns are the model's, in any order. */
  lemma AddColumnsEmpty(m: RoomModel, suffix: Suffix, live: seq<string>)
    ensures AddColumns(m, suffix, live) == [] <==> multiset(live) == multiset(ColumnNames(m.columns))
  {
    DiffEmptyIffPermutation(ColumnNames(m.columns), live);
    assert |ColumnLookupPass(m, live)| == |Diff(ColumnNames(m.columns), live).0|;
  }

  /** With duplicate-free live names, every left-over name is one of
      SQLite's own exactly when every live name the target lacks is. */
  lemma StaleAllAuto(target: seq<string>, live: seq<string>)
    requires Distinct(live)
    ensures (forall i :: 0 <= i < |Diff(target, live).1| ==> IsAutoIndex(Diff(target, live).1[i]))
      <==> (forall n :: n in live && n !in target ==> IsAutoIndex(n))
  {
    var stale := Diff(target, live).1;
    if forall i :: 0 <= i < |stale| ==> IsAutoIndex(stale[i]) {
      forall n | n in live && n !in target ensures IsAutoIndex(n) {
        StaleIsUnknown(target, live, n);
        var i :| 0 <= i < |stale| && stale[i] == n;
      }
    }
    if forall n :: n in live && n !in target ==> IsAutoIndex(n) {
      forall i | 0 <= i < |stale| ensures IsAutoIndex(stale[i]) {
        StaleIsUnknown(target, live, stale[i]);
      }
    }
  }

  /** Every live name the target lacks is one of SQLite's own indices. */
  predicate OnlyAutoLeft(target: seq<string>, live: seq<string>)
  {
    forall n :: n in live && n !in target ==> IsAutoIndex(n)
  }

  /** With duplicate-free live names, nothing is dropped exactly when
      every live name the target lacks is one of SQLite's own. */
  lemma NoDropsIffOnlyAuto(target: seq<string>, live: seq<string>)
    requires Distinct(live)
    ensures DropStale(Diff(target, live).1) == [] <==> OnlyAutoLeft(target, live)
  {
    DropStaleEmpty(Diff(target, live).1);
    StaleAllAuto(target, live);
  }

  /** With unique index names, some model index is not live exactly when
      the diff finds one missing. */
  lemma MissingIffNotAllLive(m: RoomModel, live: seq<string>)
    requires Distinct(IndexNames(m.indices))
    ensures |Diff(IndexNames(m.indices), live).0| > 0 <==> !AllLive(m.indices, live)
  {
    var names := IndexNames(m.indices);
    var absent := Absent(names, live);
    DiffMissingIsAbsent(names, live);
    if !AllLive(m.indices, live) {
      var i :| 0 <= i < |m.indices| && m.indices[i].name !in live;
      assert names[i] in names && names[i] !in live;
      assert names[i] in absent;
    }
    if |absent| > 0 {
      var n := absent[0];
      assert n in absent;
      assert n in names && n !in live;
      var i :| 0 <= i < |names| && names[i] == n;
      assert m.indices[i].name !in live;
    }
  }

  lemma AllLiveNames(idxs: seq<RoomIndex>, live: seq<string>)
    ensures AllLive(idxs, live) <==> forall x :: x in IndexNames(idxs) ==> x in live
  {
    if AllLive(idxs, live) {
      forall x | x in IndexNames(idxs) ensures x in live {
        var i :| 0 <= i < |idxs| && IndexNames(idxs)[i] == x;
      }
    }
    if forall x :: x in IndexNames(idxs) ==> x in live {
      forall i | 0 <= i < |idxs| ensures idxs[i].name in live {
        assert IndexNames(idxs)[i] == idxs[i].name;
      }
    }
  }

  /** Against duplicate-free live names, the index pass executes nothing
      exactly when the model's index names are distinct, every model index
      is live and every other live index is one of SQLite's own. A model
      that repeats an index name therefore always executes something. */
  lemma {:induction false} AddIndexesEmpty(m: RoomModel, live: seq<string>)
    requires Distinct(live)
    ensures AddIndexes(m, live) == [] <==>
      Distinct(IndexNames(m.indices)) && AllLive(m.indices, live)
      && OnlyAutoLeft(IndexNames(m.indices), live)
  {
    var names := IndexNames(m.indices);
    var d := Diff(names, live);
    var creates := IndexLookupPass(m, live);
    var drops := DropStale(d.1);
    var first := if |d.0| > 0 then Dedups(m.tableName, m.indices) + creates else [];
    assert AddIndexes(m, live) == first + drops;
    assert |creates| == |d.0|;
    assert first == [] <==> |d.0| == 0;
    NothingMissingIffCovered(names, live);
    CoveredByDistinct(names, live);
    AllLiveNames(m.indices, live);
    NoDropsIffOnlyAuto(names, live);
    assert first + drops == [] <==> first == [] && drops == [];
  }

  /** No-op idempotence: the migration executes no statement exactly when
      the table exists with the model's column names, and, if the model has
      indices, their names are distinct, all of them are live and the only
      other live indices are SQLite's own. */
  lemma {:induction false} NoOpIffInSync(m: RoomModel, suffix: Suffix, snap: Snapshot)
    requires Distinct(snap.indices)
    ensures Statements(m, suffix, snap) == [] <==>
      snap.tableExists
      && multiset(snap.columns) == multiset(ColumnNames(m.columns))
      && (|m.indices| > 0 ==>
            Distinct(IndexNames(m.indices)) && AllLive(m.indices, snap.indices)
            && OnlyAutoLeft(IndexNames(m.indices), snap.indices))
  {
    AddColumnsEmpty(m, suffix, snap.columns);
    if |m.indices| > 0 {
      AddIndexesEmpty(m, snap.indices);
    }
  }

  /** A model that repeats an index name (an `@Index` and a
      `@ColumnInfo(index = true)` on the same column give the same name
      twice) never goes idle: whatever the live state, every migration
      issues a CREATE INDEX again. */
  lemma {:induction false} DuplicateIndexNeverIdle(m: RoomModel, suffix: Suffix, snap: Snapshot)
    requires Distinct(snap.indices) && !Distinct(IndexNames(m.indices))
    ensures exists s :: s in Statements(m, suffix, snap) && s.CreateIndex?
  {
    var names := IndexNames(m.indices);
    var d := Diff(names, snap.indices);
    NothingMissingIffCovered(names, snap.indices);
    CoveredByDistinct(names, snap.indices);
    IndexLookups(m, snap.indices);
    var creates := IndexLookupPass(m, snap.indices);
    assert creates[0] == CreateIndex(m.tableName, CreatedIndices(m, snap.indices)[0]);
    var first := Dedups(m.tableName, m.indices) + creates;
    assert AddIndexes(m, snap.indices) == first + DropStale(d.1);
    assert creates[0] in first;
    assert Statements(m, suffix, snap) == TablePass(m, suffix, snap) + AddIndexes(m, snap.indices);
  }

  /** The index pass as evidently intended: the model's index names are
      diffed once each, so a repeated name needs one live index only. */
  function AddIndexesOnce(m: RoomModel, live: seq<string>): seq<Statement>
  {
    var names := Dedup(IndexNames(m.indices));
    var (missing, stale) := Diff(names, live);
    MissingAreKeys(m, names, live);
    (if |missing| > 0 then Dedups(m.tableName, m.indices) + Lookups(Meta(m), missing) else [])
    + DropStale(stale)
  }

  /** Against duplicate-free live names, the corrected index pass executes
      nothing exactly when every model index is live and every other live
      index is one of SQLite's own, whether or not the model repeats a
      name. */
  lemma {:induction false} AddIndexesOnceEmpty(m: RoomModel, live: seq<string>)
    requires Distinct(live)
    ensures AddIndexesOnce(m, live) == [] <==>
      AllLive(m.indices, live) && OnlyAutoLeft(IndexNames(m.indices), live)
  {
    var names := IndexNames(m.indices);
    var once := Dedup(names);
    var d := Diff(once, live);
    MissingAreKeys(m, once, live);
    var creates := Lookups(Meta(m), d.0);
    var first := if |d.0| > 0 then Dedups(m.tableName, m.indices) + creates else [];
    assert AddIndexesOnce(m, live) == first + DropStale(d.1);
    assert first == [] <==> |d.0| == 0;
    NothingMissingIffCovered(once, live);
    CoveredByDistinct(once, live);
    AllLiveNames(m.indices, live);
    NoDropsIffOnlyAuto(once, live);
    assert OnlyAutoLeft(once, live) <==> OnlyAutoLeft(names, live);
  }

  /** With distinct index names the corrected pass is the generated one,
      so everything proved about the generated pass holds for it. */
  lemma {:induction false} AddIndexesOnceAgrees(m: RoomModel, live: seq<string>)
    requires Distinct(IndexNames(m.indices))
    ensures AddIndexesOnce(m, live) == AddIndexes(m, live)
  {
    DedupOfDistinct(IndexNames(m.indices));
  }

  lemma AddAllMember(t: string, cs: seq<RoomColumn>, u: string, c: RoomColumn)
    ensures AddColumn(u, c) in AddAll(t, cs) <==> u == t && c in cs
  {
    if AddColumn(u, c) in AddAll(t, cs) {
      var k :| 0 <= k < |cs| && AddAll(t, cs)[k] == AddColumn(u, c);
    }
    if u == t && c in cs {
      var k :| 0 <= k < |cs| && cs[k] == c;
      assert AddAll(t, cs)[k] == AddColumn(u, c);
    }
  }

  /** Every lookup of the index pass is a CREATE INDEX, even for a name
      that is also a column's, since the index entries are put last. */
  lemma {:induction false} IndexLookupKinds(m: RoomModel, live: seq<string>)
    ensures forall s :: s in IndexLookupPass(m, live) ==> s.CreateIndex?
  {
    IndexLookups(m, live);
    var creates := CreateAll(m.tableName, CreatedIndices(m, live));
    forall s | s in creates ensures s.CreateIndex? {
      var k :| 0 <= k < |creates| && creates[k] == s;
    }
  }

  /** The index pass adds no column. */
  lemma AddIndexesAddNoColumn(m: RoomModel, live: seq<string>)
    ensures forall s :: s in AddIndexes(m, live) ==> !s.AddColumn?
  {
    var d := Diff(IndexNames(m.indices), live);
    IndexLookupKinds(m, live);
    var dedups := Dedups(m.tableName, m.indices);
    var creates := IndexLookupPass(m, live);
    var drops := DropStale(d.1);
    var first := if |d.0| > 0 then dedups + creates else [];
    assert AddIndexes(m, live) == first + drops;
    forall s: Statement | s in first + drops ensures !s.AddColumn? {
      if s in drops {
      } else if s in dedups {
      } else {
        assert s in creates;
      }
    }
  }

  /** The table pass adds exactly the model columns not found live in an
      existing table. */
  lemma TablePassAddedColumns(m: RoomModel, suffix: Suffix, snap: Snapshot, u: string, c: RoomColumn)
    requires UniqueModelNames(m)
    ensures AddColumn(u, c) in TablePass(m, suffix, snap) <==>
      snap.tableExists && u == m.tableName && c in m.columns && c.name !in snap.columns
  {
    var x := AddColumn(u, c);
    if snap.tableExists {
      var adds := ColumnLookupPass(m, snap.columns);
      var rebuild := if |Diff(ColumnNames(m.columns), snap.columns).1| > 0 then Rebuild(m, suffix) else [];
      assert TablePass(m, suffix, snap) == adds + rebuild;
      RebuildKinds(m, suffix);
      assert x !in rebuild;
      var missing := MissingColumns(m.columns, snap.columns);
      ColumnLookups(m, snap.columns);
      AddAllMember(m.tableName, missing, u, c);
      assert c in missing <==> c in m.columns && c.name !in snap.columns;
    } else {
      assert TablePass(m, suffix, snap) == CreateTablePass(m);
    }
  }

  /** Which columns get an ADD COLUMN: with unique names, exactly the model
      columns not found live in an existing table. */
  lemma AddedColumns(m: RoomModel, suffix: Suffix, snap: Snapshot, u: string, c: RoomColumn)
    requires UniqueModelNames(m)
    ensures AddColumn(u, c) in Statements(m, suffix, snap) <==>
      snap.tableExists && u == m.tableName && c in m.columns && c.name !in snap.columns
  {
    TablePassAddedColumns(m, suffix, snap, u, c);
    AddIndexesAddNoColumn(m, snap.indices);
  }

  /** Read back, every ADD COLUMN text the migration executes names the
      table and a model column that is not live, and declares neither a
      primary key nor autoincrement. */
  lemma AddColumnTextsCarryNoKey(m: RoomModel, suffix: Suffix, snap: Snapshot, i: nat)
    requires UniqueModelNames(m)
    requires NoBackquote(m.tableName)
    requires forall j :: 0 <= j < |m.columns| ==> NoBackquote(m.columns[j].name)
    requires i < |Statements(m, suffix, snap)| && Statements(m, suffix, snap)[i].AddColumn?
    ensures Ddl.DecodeAddColumn(Sql(m, suffix, snap)[i]).Some?
    ensures var (t, shape) := Ddl.DecodeAddColumn(Sql(m, suffix, snap)[i]).value;
      t == m.tableName && !shape.primaryKey && !shape.autoIncrement
      && shape.name in ColumnNames(m.columns) && shape.name !in snap.columns
  {
    var s := Statements(m, suffix, snap)[i];
    AddedColumns(m, suffix, snap, s.table, s.column);
    var j :| 0 <= j < |m.columns| && m.columns[j] == s.column;
    assert ColumnNames(m.columns)[j] == s.column.name;
    Ddl.AddColumnRoundTrip(m.tableName, s.column);
  }

  const DropIndexPrefix := "DROP INDEX IF EXISTS "

  /** The text of a statement that is not an index drop differs from the
      index-drop prefix at the given position. */
  lemma NotDropIndexAt(s: Statement, i: nat)
    requires i < |Render(s)| && i < |DropIndexPrefix| && Render(s)[i] != DropIndexPrefix[i]
    ensures !StartsWith(Render(s), DropIndexPrefix)
  {
    NotPrefixAt(Render(s), DropIndexPrefix, i);
  }

  lemma DropTableTexts(t: string)
    ensures !StartsWith(Render(DropTableIfExists(t)), DropIndexPrefix)
    ensures !StartsWith(Render(DropTable(t)), DropIndexPrefix)
  {
    NotDropIndexAt(DropTableIfExists(t), 5);
    NotDropIndexAt(DropTable(t), 5);
  }

  lemma CreateTableTexts(t: string, cols: seq<RoomColumn>)
    ensures !StartsWith(Render(CreateTableIfNotExists(t, cols)), DropIndexPrefix)
    ensures !StartsWith(Render(CreateTable(t, cols)), DropIndexPrefix)
  {
    NotDropIndexAt(CreateTableIfNotExists(t, cols), 0);
    NotDropIndexAt(CreateTable(t, cols), 0);
  }

  lemma AlterTableTexts(t: string, c: RoomColumn, u: string)
    ensures !StartsWith(Render(AddColumn(t, c)), DropIndexPrefix)
    ensures !StartsWith(Render(RenameTable(t, u)), DropIndexPrefix)
  {
    NotDropIndexAt(AddColumn(t, c), 0);
    NotDropIndexAt(RenameTable(t, u), 0);
  }

  lemma RowTexts(t: string, u: string, cols: seq<string>, cs: seq<RoomColumn>)
    ensures !StartsWith(Render(DeleteDuplicates(t, cols)), DropIndexPrefix)
    ensures !StartsWith(Render(CopyRows(t, u, cs)), DropIndexPrefix)
  {
    NotDropIndexAt(DeleteDuplicates(t, cols), 1);
    NotDropIndexAt(CopyRows(t, u, cs), 0);
  }

  lemma CreateIndexText(t: string, idx: RoomIndex)
    ensures !StartsWith(Render(CreateIndex(t, idx)), DropIndexPrefix)
  {
    NotDropIndexAt(CreateIndex(t, idx), 0);
  }

  /** A statement's text starts with "DROP INDEX IF EXISTS " exactly when
      it is a DROP INDEX. */
  lemma RenderedDropIndex(s: Statement)
    ensures StartsWith(Render(s), DropIndexPrefix) <==> s.DropIndexIfExists?
  {
    match s
    case DropIndexIfExists(n) => ConcatPrefix(DropIndexPrefix, n);
    case DropTableIfExists(t) => DropTableTexts(t);
    case DropTable(t) => DropTableTexts(t);
    case DeleteDuplicates(t, cols) => RowTexts(t, t, cols, []);
    case CopyRows(a, b, cols) => RowTexts(a, b, [], cols);
    case CreateTableIfNotExists(t, cols) => CreateTableTexts(t, cols);
    case CreateTable(t, cols) => CreateTableTexts(t, cols);
    case CreateIndex(t, idx) => CreateIndexText(t, idx);
    case AddColumn(t, c) => AlterTableTexts(t, c, t);
    case RenameTable(a, b) => AlterTableTexts(a, RoomColumn(a, true, false, false, "", TEXT), b);
  }

  /** A drop in the statement list comes from the index pass. */
  lemma DropFromIndexPass(m: RoomModel, suffix: Suffix, snap: Snapshot, n: string)
    requires DropIndexIfExists(n) in Statements(m, suffix, snap)
    ensures |m.indices| > 0 && DropIndexIfExists(n) in AddIndexes(m, snap.indices)
  {
    var tp := TablePass(m, suffix, snap);
    TablePassKinds(m, suffix, snap);
    assert DropIndexIfExists(n) !in tp;
    assert Statements(m, suffix, snap) == tp + (if |m.indices| > 0 then AddIndexes(m, snap.indices) else []);
  }

  /** A drop in the index pass names a stale, non-automatic index. */
  lemma DropFromStale(m: RoomModel, live: seq<string>, n: string)
    requires DropIndexIfExists(n) in AddIndexes(m, live)
    ensures n in Diff(IndexNames(m.indices), live).1 && !IsAutoIndex(n)
  {
    var d := DropIndexIfExists(n);
    var diff := Diff(IndexNames(m.indices), live);
    var dedups := Dedups(m.tableName, m.indices);
    var creates := IndexLookupPass(m, live);
    var drops := DropStale(diff.1);
    var first := if |diff.0| > 0 then dedups + creates else [];
    assert AddIndexes(m, live) == first + drops;
    LookupPassKinds(m, live);
    assert d !in dedups && d !in creates;
    DropStaleMembers(diff.1, d);
  }

  /** Reserved-index protection: whatever the live state, a DROP INDEX
      statement of the migration names only a live index, only when the
      model has indices, and never one whose name starts with
      "sqlite_autoindex". */
  lemma NoAutoIndexDrop(m: RoomModel, suffix: Suffix, snap: Snapshot, n: string)
    requires DropIndexIfExists(n) in Statements(m, suffix, snap)
    ensures !IsAutoIndex(n) && n in snap.indices && |m.indices| > 0
  {
    DropFromIndexPass(m, suffix, snap, n);
    DropFromStale(m, snap.indices, n);
    DiffMembership(IndexNames(m.indices), snap.indices, n);
  }

  /** A rendered list holds "DROP INDEX IF EXISTS " + n only where the
      statement list holds the drop of n. */
  lemma RenderedDropIndexIn(ss: seq<Statement>, i: nat, n: string)
    requires i < |ss| && Render(ss[i]) == DropIndexPrefix + n
    ensures ss[i] == DropIndexIfExists(n)
  {
    var p := DropIndexPrefix;
    ConcatPrefix(p, n);
    RenderedDropIndex(ss[i]);
    CancelPrefix(p, ss[i].name, n);
  }

  /** The same, on the SQL text: a "DROP INDEX IF EXISTS " text the
      migration executes never names an automatic index. */
  lemma NoAutoIndexDropText(m: RoomModel, suffix: Suffix, snap: Snapshot, i: nat, n: string)
    requires i < |Sql(m, suffix, snap)|
    requires Sql(m, suffix, snap)[i] == "DROP INDEX IF EXISTS " + n
    ensures !IsAutoIndex(n) && n in snap.indices && |m.indices| > 0
  {
    var ss := Statements(m, suffix, snap);
    RenderedDropIndexIn(ss, i, n);
    assert ss[i] in ss;
    NoAutoIndexDrop(m, suffix, snap, n);
  }
}
