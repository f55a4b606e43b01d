/** The statements the generated migration executes, the SQL text each one
    is written as, and its effect on the schema of an SQLite database. The
    schema records, per table, its column names in declaration order, and
    the indices in creation order with the table each belongs to. Row data
    is not modelled: a statement that only moves or deletes rows is checked
    for the names it mentions and otherwise leaves the schema as it was. */
module Sqlite {
  import opened Wrappers
  import opened Text
  import opened Models
  import opened SeqDiff
  import Ddl

  datatype Statement =
    | DropTableIfExists(table: string)
    | CreateTableIfNotExists(table: string, columns: seq<RoomColumn>)
    | CreateTable(table: string, columns: seq<RoomColumn>)
    | AddColumn(table: string, column: RoomColumn)
    | CreateIndex(table: string, index: RoomIndex)
    | DeleteDuplicates(table: string, groupBy: seq<string>)
    | CopyRows(target: string, source: string, columns: seq<RoomColumn>)
    | DropTable(table: string)
    | RenameTable(source: string, target: string)
    | DropIndexIfExists(name: string)

  /** The SQL text of a statement, exactly as the generated class passes it
      to `execSQL`. Some statements end with ';' and some do not, and the
      GROUP BY columns and the dropped index name are not backquoted. */
  function Render(s: Statement): string
  {
    match s
    case DropTableIfExists(t) => "DROP TABLE IF EXISTS " + Quote(t) + ";"
    case CreateTableIfNotExists(t, cols) =>
      "CREATE TABLE IF NOT EXISTS " + Quote(t) + "(" + Ddl.ColumnDefs(cols) + ");"
    case CreateTable(t, cols) => "CREATE TABLE " + Quote(t) + "(" + Ddl.ColumnDefs(cols) + ");"
    case AddColumn(t, c) => Ddl.AddColumn(t, c)
    case CreateIndex(t, idx) => Ddl.CreateIndex(idx, t)
    case DeleteDuplicates(t, cols) =>
      "DELETE FROM " + Quote(t) + " WHERE rowid NOT IN (SELECT MIN(rowId) FROM "
      + Quote(t) + " GROUP BY " + Join(", ", cols) + ")"
    case CopyRows(target, source, cols) =>
      "INSERT INTO " + Quote(target) + "(" + QuotedList(ColumnNames(cols)) + ") SELECT "
      + Ddl.SelectList(cols) + " FROM " + Quote(source) + ";"
    case DropTable(t) => "DROP TABLE " + Quote(t)
    case RenameTable(a, b) => "ALTER TABLE " + Quote(a) + " RENAME TO " + Quote(b)
    case DropIndexIfExists(n) => "DROP INDEX IF EXISTS " + n
  }

  function RenderAll(ss: seq<Statement>): (r: seq<string>)
    ensures |r| == |ss|
    ensures forall i :: 0 <= i < |ss| ==> r[i] == Render(ss[i])
  {
    seq(|ss|, i requires 0 <= i < |ss| => Render(ss[i]))
  }

  // ---------------------------------------------------------------------
  // Schema
  // ---------------------------------------------------------------------

  /** An index of the catalog: its name and the table it belongs to. */
  type IndexEntry = (string, string)

  datatype Db = Db(tables: map<string, seq<string>>, indices: seq<IndexEntry>)

  /** SQLite names the indices it creates for PRIMARY KEY and UNIQUE
      constraints with this prefix, and refuses to drop them. */
  predicate IsAutoIndex(name: string)
  {
    StartsWith(name, "sqlite_autoindex")
  }

  predicate AllIn(xs: seq<string>, ys: seq<string>)
  {
    forall i :: 0 <= i < |xs| ==> xs[i] in ys
  }

  /** Index names are unique in the whole database. */
  predicate UniqueNames(es: seq<IndexEntry>)
  {
    forall i, j :: 0 <= i < j < |es| ==> es[i].0 != es[j].0
  }

  predicate NamedIn(n: string, es: seq<IndexEntry>)
  {
    exists i :: 0 <= i < |es| && es[i].0 == n
  }

  /** What a well-formed catalog satisfies: no table repeats a column name,
      no two indices share a name, and every index belongs to a table. */
  predicate Consistent(db: Db)
  {
    && (forall t :: t in db.tables ==> Distinct(db.tables[t]))
    && UniqueNames(db.indices)
    && (forall i :: 0 <= i < |db.indices| ==> db.indices[i].1 in db.tables)
  }

  /** The names of the indices of table `t`, in catalog order: what the
      `sqlite_master` query of the index pass reads. */
  function IndicesOn(es: seq<IndexEntry>, t: string): (r: seq<string>)
    ensures forall n :: n in r <==> (n, t) in es
  {
    if |es| == 0 then []
    else
      var rest := IndicesOn(es[1..], t);
      assert forall e :: e in es <==> e == es[0] || e in es[1..];
      if es[0].1 == t then [es[0].0] + rest else rest
  }

  /** The catalog without the indices of table `t`. */
  function DropIndicesOn(es: seq<IndexEntry>, t: string): (r: seq<IndexEntry>)
    ensures forall e :: e in r <==> e in es && e.1 != t
    ensures Subseq(r, es)
  {
    if |es| == 0 then []
    else
      var rest := DropIndicesOn(es[1..], t);
      assert forall e :: e in es <==> e == es[0] || e in es[1..];
      SubseqDropFront(es);
      SubseqTrans(rest, es[1..], es);
      if es[0].1 != t then
        assert ([es[0]] + rest)[1..] == rest;
        [es[0]] + rest
      else rest
  }

  /** The catalog without the index called `n`. */
  function DropNamed(es: seq<IndexEntry>, n: string): (r: seq<IndexEntry>)
    ensures forall e :: e in r <==> e in es && e.0 != n
    ensures Subseq(r, es)
  {
    if |es| == 0 then []
    else
      var rest := DropNamed(es[1..], n);
      assert forall e :: e in es <==> e == es[0] || e in es[1..];
      SubseqDropFront(es);
      SubseqTrans(rest, es[1..], es);
      if es[0].0 != n then
        assert ([es[0]] + rest)[1..] == rest;
        [es[0]] + rest
      else rest
  }

  /** The catalog after table `a` is renamed to `b`: its indices follow it. */
  function Retarget(es: seq<IndexEntry>, a: string, b: string): (r: seq<IndexEntry>)
    ensures |r| == |es|
    ensures forall i :: 0 <= i < |r| ==> r[i].0 == es[i].0
    ensures forall i :: 0 <= i < |r| ==> r[i].1 == if es[i].1 == a then b else es[i].1
  {
    seq(|es|, i requires 0 <= i < |es| => (es[i].0, if es[i].1 == a then b else es[i].1))
  }

  // ---------------------------------------------------------------------
  // Names as SQLite compares them
  // ---------------------------------------------------------------------

  /** SQLite compares table, column and index names ignoring the case of
      ASCII letters; the schema above compares them exactly. */
  function LowerChar(c: char): (r: char)
    ensures 'A' <= c <= 'Z' ==> r as int == c as int + 32
    ensures !('A' <= c <= 'Z') ==> r == c
  {
    if 'A' <= c <= 'Z' then (c as int + 32) as char else c
  }

  function Fold(s: string): (r: string)
    ensures |r| == |s|
    ensures forall i :: 0 <= i < |s| ==> r[i] == LowerChar(s[i])
  {
    seq(|s|, i requires 0 <= i < |s| => LowerChar(s[i]))
  }

  /** No two of the names are the same name to SQLite. */
  predicate CaseDistinct(names: set<string>)
  {
    forall a, b :: a in names && b in names && Fold(a) == Fold(b) ==> a == b
  }

  /** Some name is the same name as `n` to SQLite. */
  predicate NamedNoCase(n: string, names: set<string>)
  {
    exists k :: k in names && Fold(k) == Fold(n)
  }

  /** Among names no two of which differ only in case, SQLite's lookup of a
      name finds something exactly when the exact lookup does. */
  lemma NoCaseAgrees(n: string, names: set<string>)
    requires CaseDistinct(names + {n})
    ensures NamedNoCase(n, names) <==> n in names
  {
    if NamedNoCase(n, names) {
      var k :| k in names && Fold(k) == Fold(n);
      assert k in names + {n} && n in names + {n};
    }
  }

  /** SQLite's keywords; `w` in lower case. */
  predicate IsKeyword(w: string)
  {
    w in {
      "abort", "action", "add", "after", "all", "alter", "always", "analyze", "and", "as", "asc",
      "attach", "autoincrement", "before", "begin", "between", "by", "cascade", "case", "cast",
      "check", "collate", "column", "commit", "conflict", "constraint", "create", "cross",
      "current", "current_date", "current_time", "current_timestamp", "database", "default",
      "deferrable", "deferred", "delete", "desc", "detach", "distinct", "do", "drop", "each",
      "else", "end", "escape", "except", "exclude", "exclusive", "exists", "explain", "fail",
      "filter", "first", "following", "for", "foreign", "from", "full", "generated", "glob",
      "group", "groups", "having", "if", "ignore", "immediate", "in", "index", "indexed",
      "initially", "inner", "insert", "instead", "intersect", "into", "is", "isnull", "join",
      "key", "last", "left", "like", "limit", "match", "materialized", "natural", "no", "not",
      "nothing", "notnull", "null", "nulls", "of", "offset", "on", "or", "order", "others",
      "outer", "over", "partition", "plan", "pragma", "preceding", "primary", "query", "raise",
      "range", "recursive", "references", "regexp", "reindex", "release", "rename", "replace",
      "restrict", "returning", "right", "rollback", "row", "rows", "savepoint", "select", "set",
      "table", "temp", "temporary", "then", "ties", "to", "transaction", "trigger", "unbounded",
      "union", "unique", "update", "using", "vacuum", "values", "view", "virtual", "when",
      "where", "window", "with", "without"
    }
  }

  predicate IdentChar(c: char)
  {
    ('a' <= c <= 'z') || ('A' <= c <= 'Z') || ('0' <= c <= '9') || c == '_'
  }

  /** A name that reads as that name when written without quotes: letters,
      digits and underscores, not starting with a digit, and not a keyword
      (SQLite lets some keywords stand as names; refusing them all is the
      safe side). */
  predicate Bare(n: string)
  {
    && |n| > 0
    && !('0' <= n[0] <= '9')
    && (forall i :: 0 <= i < |n| ==> IdentChar(n[i]))
    && !IsKeyword(Fold(n))
  }

  /** Column definitions SQLite accepts in a CREATE TABLE: at least one
      column, no repeated name, at most one PRIMARY KEY, and AUTOINCREMENT
      only on an INTEGER PRIMARY KEY. */
  predicate ValidDefinitions(cols: seq<RoomColumn>)
  {
    && |cols| > 0
    && Distinct(ColumnNames(cols))
    && (forall i, j :: 0 <= i < j < |cols| && cols[i].isPrimary ==> !cols[j].isPrimary)
    && (forall i :: 0 <= i < |cols| && cols[i].isAutoGenerate ==>
          cols[i].isPrimary && cols[i].sqlType == INTEGER)
  }

  /** A column `ALTER TABLE ... ADD COLUMN` accepts: SQLite refuses a
      NOT NULL column whose default is NULL. */
  predicate Addable(c: RoomColumn)
  {
    c.isNullable || c.defaultValue != ""
  }

  function RemoveTable(db: Db, t: string): (r: Db)
    ensures t !in r.tables
  {
    Db(db.tables - {t}, DropIndicesOn(db.indices, t))
  }

  /** The schema after one statement, or None where SQLite raises an error
      (and the migration stops). */
  function Exec(db: Db, s: Statement): Option<Db>
  {
    match s
    case DropTableIfExists(t) => Some(RemoveTable(db, t))
    case CreateTableIfNotExists(t, cols) =>
      if t in db.tables then Some(db)
      else if !ValidDefinitions(cols) then None
      else Some(db.(tables := db.tables[t := ColumnNames(cols)]))
    case CreateTable(t, cols) =>
      if t in db.tables || !ValidDefinitions(cols) then None
      else Some(db.(tables := db.tables[t := ColumnNames(cols)]))
    case AddColumn(t, c) =>
      if t !in db.tables || c.name in db.tables[t] || !Addable(c) then None
      else Some(db.(tables := db.tables[t := db.tables[t] + [c.name]]))
    case CreateIndex(t, idx) =>
      if NamedIn(idx.name, db.indices) then Some(db)
      else if t !in db.tables || |idx.columns| == 0 || !AllIn(idx.columns, db.tables[t]) then None
      else Some(db.(indices := db.indices + [(idx.name, t)]))
    case DeleteDuplicates(t, cols) =>
      if t in db.tables && |cols| > 0 && AllIn(cols, db.tables[t]) then Some(db) else None
    case CopyRows(target, source, cols) =>
      if target in db.tables && source in db.tables && |cols| > 0
        && AllIn(ColumnNames(cols), db.tables[target])
        && AllIn(ColumnNames(cols), db.tables[source])
      then Some(db) else None
    case DropTable(t) => if t in db.tables then Some(RemoveTable(db, t)) else None
    case RenameTable(a, b) =>
      if a in db.tables && b !in db.tables then
        Some(Db((db.tables - {a})[b := db.tables[a]], Retarget(db.indices, a, b)))
      else None
    case DropIndexIfExists(n) =>
      if IsAutoIndex(n) && NamedIn(n, db.indices) then None
      else Some(db.(indices := DropNamed(db.indices, n)))
  }

  /** Executes statements in order, stopping at the first error. */
  function Run(db: Db, ss: seq<Statement>): Option<Db>
    decreases |ss|
  {
    if |ss| == 0 then Some(db)
    else
      match Exec(db, ss[0])
      case None => None
      case Some(d) => Run(d, ss[1..])
  }

  lemma {:induction false} RunAppend(db: Db, a: seq<Statement>, b: seq<Statement>)
    ensures Run(db, a + b) == match Run(db, a) case None => None case Some(d) => Run(d, b)
    decreases |a|
  {
    if |a| == 0 {
      assert a + b == b;
    } else {
      assert (a + b)[0] == a[0];
      assert (a + b)[1..] == a[1..] + b;
      match Exec(db, a[0])
      case None =>
      case Some(d) => RunAppend(d, a[1..], b);
    }
  }

  // ---------------------------------------------------------------------
  // Consistency is an invariant of every statement
  // ---------------------------------------------------------------------

  lemma SubseqUniqueNames(a: seq<IndexEntry>, b: seq<IndexEntry>)
    requires Subseq(a, b) && UniqueNames(b)
    ensures UniqueNames(a)
    decreases |b|
  {
    if |a| > 0 {
      if a[0] == b[0] && Subseq(a[1..], b[1..]) {
        SubseqUniqueNames(a[1..], b[1..]);
        forall j | 0 < j < |a| ensures a[0].0 != a[j].0 {
          SubseqMember(a[1..], b[1..], j - 1);
          var k :| 0 <= k < |b[1..]| && b[1..][k] == a[j];
          assert b[k + 1] == a[j];
        }
      } else {
        assert UniqueNames(b[1..]) by {
          forall i, j | 0 <= i < j < |b[1..]| ensures b[1..][i].0 != b[1..][j].0 {
            assert b[1..][i] == b[i + 1] && b[1..][j] == b[j + 1];
          }
        }
        SubseqUniqueNames(a, b[1..]);
      }
    }
  }

  lemma UniqueNamesAppend(es: seq<IndexEntry>, e: IndexEntry)
    requires UniqueNames(es) && !NamedIn(e.0, es)
    ensures UniqueNames(es + [e])
  {
    var r := es + [e];
    forall i, j | 0 <= i < j < |r| ensures r[i].0 != r[j].0 {
      if j == |es| {
        assert r[i] == es[i];
      } else {
        assert r[i] == es[i] && r[j] == es[j];
      }
    }
  }

  /** Every statement keeps the catalog consistent. */
  lemma ExecConsistent(db: Db, s: Statement)
    requires Consistent(db) && Exec(db, s).Some?
    ensures Consistent(Exec(db, s).value)
  {
    match s
    case DropTableIfExists(t) => RemoveTableConsistent(db, t);
    case DropTable(t) => RemoveTableConsistent(db, t);
    case CreateTableIfNotExists(t, cols) =>
      if t !in db.tables {
        NewTableConsistent(db, t, ColumnNames(cols));
      }
    case CreateTable(t, cols) => NewTableConsistent(db, t, ColumnNames(cols));
    case CreateIndex(t, idx) =>
      if !NamedIn(idx.name, db.indices) {
        NewIndexConsistent(db, t, idx.name);
      }
    case RenameTable(a, b) => RenameConsistent(db, a, b);
    case DropIndexIfExists(n) => DropNamedConsistent(db, n);
    case AddColumn(t, c) => NewColumnConsistent(db, t, c.name);
    case DeleteDuplicates(_, _) =>
    case CopyRows(_, _, _) =>
  }

  lemma NewTableConsistent(db: Db, t: string, cols: seq<string>)
    requires Consistent(db) && Distinct(cols)
    ensures Consistent(db.(tables := db.tables[t := cols]))
  {
  }

  lemma NewColumnConsistent(db: Db, t: string, c: string)
    requires Consistent(db) && t in db.tables && c !in db.tables[t]
    ensures Consistent(db.(tables := db.tables[t := db.tables[t] + [c]]))
  {
    DistinctAppend(db.tables[t], c);
  }

  lemma NewIndexConsistent(db: Db, t: string, n: string)
    requires Consistent(db) && t in db.tables && !NamedIn(n, db.indices)
    ensures Consistent(db.(indices := db.indices + [(n, t)]))
  {
    UniqueNamesAppend(db.indices, (n, t));
    var r := db.indices + [(n, t)];
    forall i | 0 <= i < |r| ensures r[i].1 in db.tables {
      if i < |db.indices| {
        assert r[i] == db.indices[i];
      }
    }
  }

  lemma RenameConsistent(db: Db, a: string, b: string)
    requires Consistent(db) && a in db.tables && b !in db.tables
    ensures Consistent(Db((db.tables - {a})[b := db.tables[a]], Retarget(db.indices, a, b)))
  {
    var r := Retarget(db.indices, a, b);
    assert forall i, j :: 0 <= i < j < |r| ==> r[i].0 == db.indices[i].0 && r[j].0 == db.indices[j].0;
  }

  lemma DropNamedConsistent(db: Db, n: string)
    requires Consistent(db)
    ensures Consistent(db.(indices := DropNamed(db.indices, n)))
  {
    var r := DropNamed(db.indices, n);
    SubseqUniqueNames(r, db.indices);
    forall i | 0 <= i < |r| ensures r[i].1 in db.tables {
      assert r[i] in db.indices;
      var k :| 0 <= k < |db.indices| && db.indices[k] == r[i];
    }
  }

  lemma RemoveTableConsistent(db: Db, t: string)
    requires Consistent(db)
    ensures Consistent(RemoveTable(db, t))
  {
    var r := RemoveTable(db, t);
    SubseqUniqueNames(r.indices, db.indices);
    forall i | 0 <= i < |r.indices| ensures r.indices[i].1 in r.tables {
      assert r.indices[i] in db.indices;
      var k :| 0 <= k < |db.indices| && db.indices[k] == r.indices[i];
    }
  }

  lemma {:induction false} RunConsistent(db: Db, ss: seq<Statement>)
    requires Consistent(db) && Run(db, ss).Some?
    ensures Consistent(Run(db, ss).value)
    decreases |ss|
  {
    if |ss| > 0 {
      ExecConsistent(db, ss[0]);
      RunConsistent(Exec(db, ss[0]).value, ss[1..]);
    }
  }

  /** The names a table's indices are read back as are themselves distinct. */
  lemma {:induction false} IndicesOnDistinct(es: seq<IndexEntry>, t: string)
    requires UniqueNames(es)
    ensures Distinct(IndicesOn(es, t))
    decreases |es|
  {
    if |es| > 0 {
      var rest := es[1..];
      assert UniqueNames(rest) by {
        forall i, j | 0 <= i < j < |rest| ensures rest[i].0 != rest[j].0 {
          assert rest[i] == es[i + 1] && rest[j] == es[j + 1];
        }
      }
      IndicesOnDistinct(rest, t);
      if es[0].1 == t {
        var n := es[0].0;
        forall k | 0 <= k < |rest| ensures rest[k] != (n, t) {
          assert rest[k] == es[k + 1];
        }
        DistinctCons(n, IndicesOn(rest, t));
      }
    }
  }
}
