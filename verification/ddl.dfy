/** The DDL fragments the migration generator bakes into the generated
    class: the CREATE TABLE column definition, the ALTER TABLE ... ADD
    COLUMN statement, the CREATE INDEX statement and the null-safe expression
    the rebuild copies rows with. Each builder has a decoder that reads the
    text back, and a round-trip lemma relates the two. */
module Ddl {
  import opened Wrappers
  import opened Text
  import opened Models

  // ---------------------------------------------------------------------
  // Builders
  // ---------------------------------------------------------------------

  /** `RoomColumn.nullable()`. */
  function NotNullClause(c: RoomColumn): string
  {
    if c.isNullable then "" else " NOT NULL"
  }

  /** `RoomColumn.defaultValue()`: a DEFAULT clause only for a non-nullable
      column with a non-empty default value. */
  function DefaultClause(c: RoomColumn): string
  {
    if c.isNullable then ""
    else if c.defaultValue == "" then ""
    else " DEFAULT " + c.defaultValue
  }

  /** `column(...)`: one column definition of a CREATE TABLE statement:
      name, type, then the key, autoincrement, NOT NULL and DEFAULT clauses. */
  function ColumnDef(c: RoomColumn): string
  {
    Quote(c.name) + (" " + (SqlTypeName(c.sqlType)
    + ((if c.isPrimary then " PRIMARY KEY" else "")
    + ((if c.isAutoGenerate then " AUTOINCREMENT" else "")
    + (NotNullClause(c)
    + (if c.isPrimary then "" else DefaultClause(c)))))))
  }

  /** The statement the constructor stores under a column's name. */
  function AddColumn(table: string, c: RoomColumn): string
  {
    "ALTER TABLE " + (Quote(table)
    + (" ADD COLUMN " + (Quote(c.name) + (" "
    + (SqlTypeName(c.sqlType)
    + (NotNullClause(c)
    + DefaultClause(c)))))))
  }

  /** `RoomIndex.createIndex(tableName)`. The source writes out the two
      statement heads "CREATE UNIQUE INDEX IF NOT EXISTS " and
      "CREATE INDEX IF NOT EXISTS "; the text is the same. */
  function CreateIndex(idx: RoomIndex, table: string): string
  {
    "CREATE " + ((if idx.isUnique then "UNIQUE " else "") + ("INDEX IF NOT EXISTS "
    + (Quote(idx.name) + (" ON " + (Quote(table) + ("(" + (QuotedList(idx.columns) + ");")))))))
  }

  /** Whether the rebuild copy must guard the column against NULLs. */
  predicate NeedsFallback(c: RoomColumn)
  {
    !c.isNullable && !c.isPrimary
  }

  /** `nullableColumn(...)`: the expression the rebuild selects for a
      column. The default value is written as it is, even when empty. */
  function NullableColumn(c: RoomColumn): string
  {
    if NeedsFallback(c) then "ifnull(" + Quote(c.name) + ", " + c.defaultValue + ")"
    else Quote(c.name)
  }

  /** The column definitions of a CREATE TABLE statement, separated by ", ". */
  function ColumnDefs(cols: seq<RoomColumn>): string
  {
    Join(", ", seq(|cols|, i requires 0 <= i < |cols| => ColumnDef(cols[i])))
  }

  /** The SELECT list of the rebuild copy. */
  function SelectList(cols: seq<RoomColumn>): string
  {
    Join(", ", seq(|cols|, i requires 0 <= i < |cols| => NullableColumn(cols[i])))
  }

  // ---------------------------------------------------------------------
  // Decoders and round trips
  // ---------------------------------------------------------------------

  /** What a column definition says, read back from its text. */
  datatype ColumnShape = ColumnShape(
    name: string,
    sqlType: SqlType,
    primaryKey: bool,
    autoIncrement: bool,
    notNull: bool,
    default: Option<string>)

  function TakeSqlType(s: string): Option<(SqlType, string)>
  {
    match Expect(s, "INTEGER")
    case Some(r) => Some((INTEGER, r))
    case None =>
      match Expect(s, "REAL")
      case Some(r) => Some((REAL, r))
      case None =>
        match Expect(s, "TEXT")
        case Some(r) => Some((TEXT, r))
        case None => None
  }

  /** Reads the optional clauses after the type: PRIMARY KEY, AUTOINCREMENT,
      NOT NULL and DEFAULT, each at most once and in that order. */
  function DecodeConstraints(s: string): Option<(bool, bool, bool, Option<string>)>
  {
    var (pk, r1) := Optional(s, " PRIMARY KEY");
    var (ai, r2) := Optional(r1, " AUTOINCREMENT");
    var (nn, r3) := Optional(r2, " NOT NULL");
    if r3 == "" then Some((pk, ai, nn, None))
    else
      match Expect(r3, " DEFAULT ")
      case None => None
      case Some(v) => if v == "" then None else Some((pk, ai, nn, Some(v)))
  }

  function DecodeColumnDef(s: string): Option<ColumnShape>
  {
    match TakeQuoted(s)
    case None => None
    case Some((name, r1)) =>
      match Expect(r1, " ")
      case None => None
      case Some(r2) =>
        match TakeSqlType(r2)
        case None => None
        case Some((t, r3)) =>
          match DecodeConstraints(r3)
          case None => None
          case Some((pk, ai, nn, dv)) => Some(ColumnShape(name, t, pk, ai, nn, dv))
  }

  function DecodeAddColumn(s: string): Option<(string, ColumnShape)>
  {
    match Expect(s, "ALTER TABLE ")
    case None => None
    case Some(r1) =>
      match TakeQuoted(r1)
      case None => None
      case Some((table, r2)) =>
        match Expect(r2, " ADD COLUMN ")
        case None => None
        case Some(r3) =>
          match DecodeColumnDef(r3)
          case None => None
          case Some(shape) => Some((table, shape))
  }

  /** What a CREATE INDEX statement says, read back from its text. */
  datatype IndexShape = IndexShape(name: string, table: string, unique: bool, columns: seq<string>)

  function DecodeCreateIndex(s: string): Option<IndexShape>
  {
    match Expect(s, "CREATE ")
    case None => None
    case Some(r1) =>
      var (unique, r2) := Optional(r1, "UNIQUE ");
      match Expect(r2, "INDEX IF NOT EXISTS ")
      case None => None
      case Some(r3) =>
        match DecodeIndexTarget(r3)
        case None => None
        case Some((name, table, cols)) => Some(IndexShape(name, table, unique, cols))
  }

  /** Reads "`name` ON `table`(`c1`, ...);": the index name, the table and
      the column names. */
  function DecodeIndexTarget(s: string): Option<(string, string, seq<string>)>
  {
    match TakeQuoted(s)
    case None => None
    case Some((name, r4)) =>
      match Expect(r4, " ON ")
      case None => None
      case Some(r5) =>
        match TakeQuoted(r5)
        case None => None
        case Some((table, r6)) =>
          match Expect(r6, "(")
          case None => None
          case Some(r7) =>
            match DecodeQuotedList(r7)
            case None => None
            case Some((cols, r8)) => if r8 == ");" then Some((name, table, cols)) else None
  }

  /** Reads a rebuild SELECT expression back: the column it reads and, for
      an `ifnull` guard, the fallback value. */
  function DecodeSelectExpr(s: string): Option<(string, Option<string>)>
  {
    if StartsWith(s, "ifnull(") then
      match TakeQuoted(s[7..])
      case None => None
      case Some((name, r1)) =>
        match Expect(r1, ", ")
        case None => None
        case Some(r2) =>
          if EndsWith(r2, ")") then Some((name, Some(r2[..|r2| - 1]))) else None
    else
      match TakeQuoted(s)
      case None => None
      case Some((name, r1)) => if r1 == "" then Some((name, None)) else None
  }

  /** The clause text a column definition ends with, written from the
      clauses it holds. */
  function ConstraintText(pk: bool, ai: bool, nn: bool, dv: Option<string>): string
  {
    (if pk then " PRIMARY KEY" else "")
    + ((if ai then " AUTOINCREMENT" else "")
    + ((if nn then " NOT NULL" else "")
    + (if dv.Some? then " DEFAULT " + dv.value else "")))
  }

  /** Reading an optional literal back: present when written, absent when
      the text that follows differs from the literal at position `i`. */
  lemma OptionalStep(present: bool, p: string, rest: string, i: nat)
    requires i < |p|
    requires !present ==> rest == "" || (i < |rest| && rest[i] != p[i])
    ensures Optional((if present then p else "") + rest, p) == (present, rest)
  {
    if present {
      ConcatPrefix(p, rest);
    } else {
      assert "" + rest == rest;
      if rest != "" {
        NotPrefixAt(rest, p, i);
      }
    }
  }

  lemma DecodeConstraintsRoundTrip(pk: bool, ai: bool, nn: bool, dv: Option<string>)
    requires dv.Some? ==> dv.value != ""
    ensures DecodeConstraints(ConstraintText(pk, ai, nn, dv)) == Some((pk, ai, nn, dv))
  {
    var d := if dv.Some? then " DEFAULT " + dv.value else "";
    var n := (if nn then " NOT NULL" else "") + d;
    var a := (if ai then " AUTOINCREMENT" else "") + n;
    assert d == "" || (|d| > 1 && d[1] == 'D');
    assert n == "" || (|n| > 1 && (n[1] == 'N' || n[1] == 'D'));
    assert a == "" || (|a| > 1 && (a[1] == 'A' || a[1] == 'N' || a[1] == 'D'));
    OptionalStep(pk, " PRIMARY KEY", a, 1);
    OptionalStep(ai, " AUTOINCREMENT", n, 1);
    OptionalStep(nn, " NOT NULL", d, 1);
    if dv.Some? {
      ConcatPrefix(" DEFAULT ", dv.value);
    }
  }

  lemma TakeSqlTypeOfName(t: SqlType, rest: string)
    ensures TakeSqlType(SqlTypeName(t) + rest) == Some((t, rest))
  {
    var s := SqlTypeName(t) + rest;
    ConcatPrefix(SqlTypeName(t), rest);
    assert s[0] == SqlTypeName(t)[0];
    match t
    case INTEGER =>
    case REAL =>
      NotPrefixAt(s, "INTEGER", 0);
    case TEXT =>
      NotPrefixAt(s, "INTEGER", 0);
      NotPrefixAt(s, "REAL", 0);
  }

  /** The default value a column definition carries: only for a column that
      is neither primary nor nullable and has a non-empty default. */
  function DefDefault(c: RoomColumn): Option<string>
  {
    if !c.isPrimary && !c.isNullable && c.defaultValue != "" then Some(c.defaultValue) else None
  }

  lemma ColumnDefAsClauses(c: RoomColumn)
    ensures ColumnDef(c) == Quote(c.name) + (" " + (SqlTypeName(c.sqlType)
      + ConstraintText(c.isPrimary, c.isAutoGenerate, !c.isNullable, DefDefault(c))))
  {
    assert NotNullClause(c) == (if !c.isNullable then " NOT NULL" else "");
    assert (if c.isPrimary then "" else DefaultClause(c))
      == (if DefDefault(c).Some? then " DEFAULT " + DefDefault(c).value else "");
  }

  /** A column definition is, in order: the backquoted name, a space, the
      SQL type, " PRIMARY KEY" exactly when the column is primary,
      " AUTOINCREMENT" exactly when it is auto-generated, " NOT NULL" exactly
      when it is not nullable, and " DEFAULT v" exactly when it is neither
      primary nor nullable and its default v is not empty. */
  lemma ColumnDefRoundTrip(c: RoomColumn)
    requires NoBackquote(c.name)
    ensures DecodeColumnDef(ColumnDef(c)) == Some(ColumnShape(
      c.name, c.sqlType, c.isPrimary, c.isAutoGenerate, !c.isNullable,
      if !c.isPrimary && !c.isNullable && c.defaultValue != "" then Some(c.defaultValue) else None))
  {
    var clauses := ConstraintText(c.isPrimary, c.isAutoGenerate, !c.isNullable, DefDefault(c));
    ColumnDefAsClauses(c);
    TakeQuotedOfQuote(c.name, " " + (SqlTypeName(c.sqlType) + clauses));
    ConcatPrefix(" ", SqlTypeName(c.sqlType) + clauses);
    TakeSqlTypeOfName(c.sqlType, clauses);
    DecodeConstraintsRoundTrip(c.isPrimary, c.isAutoGenerate, !c.isNullable, DefDefault(c));
  }

  /** The ADD COLUMN statement is the column's CREATE TABLE definition with
      PRIMARY KEY and AUTOINCREMENT left out; unlike the definition, its
      DEFAULT clause is not suppressed for a primary column. */
  lemma AddColumnIsDefinitionWithoutKey(table: string, c: RoomColumn)
    ensures AddColumn(table, c) ==
      "ALTER TABLE " + (Quote(table) + (" ADD COLUMN "
      + ColumnDef(c.(isPrimary := false, isAutoGenerate := false))))
  {
    var c' := c.(isPrimary := false, isAutoGenerate := false);
    var tail := NotNullClause(c) + DefaultClause(c);
    assert "" + ("" + tail) == tail;
    assert ColumnDef(c') == Quote(c.name) + (" " + (SqlTypeName(c.sqlType) + tail));
  }

  /** Read back, an ADD COLUMN statement names the table and column, never
      declares a primary key or autoincrement, and carries NOT NULL and
      DEFAULT exactly as the column's nullability and default ask. */
  lemma AddColumnRoundTrip(table: string, c: RoomColumn)
    requires NoBackquote(table) && NoBackquote(c.name)
    ensures DecodeAddColumn(AddColumn(table, c)) == Some((table, ColumnShape(
      c.name, c.sqlType, false, false, !c.isNullable,
      if !c.isNullable && c.defaultValue != "" then Some(c.defaultValue) else None)))
  {
    var c' := c.(isPrimary := false, isAutoGenerate := false);
    var def := ColumnDef(c');
    AddColumnIsDefinitionWithoutKey(table, c);
    ColumnDefRoundTrip(c');
    ConcatPrefix("ALTER TABLE ", Quote(table) + (" ADD COLUMN " + def));
    TakeQuotedOfQuote(table, " ADD COLUMN " + def);
    ConcatPrefix(" ADD COLUMN ", def);
  }

  /** Read back, a CREATE INDEX statement names the index, the table, the
      columns in order, and is UNIQUE exactly when the index is. */
  lemma CreateIndexRoundTrip(idx: RoomIndex, table: string)
    requires NoBackquote(idx.name) && NoBackquote(table)
    requires forall i :: 0 <= i < |idx.columns| ==> NoBackquote(idx.columns[i])
    ensures DecodeCreateIndex(CreateIndex(idx, table)) ==
      Some(IndexShape(idx.name, table, idx.isUnique, idx.columns))
  {
    var u := if idx.isUnique then "UNIQUE " else "";
    var r3 := Quote(idx.name) + (" ON " + (Quote(table) + ("(" + (QuotedList(idx.columns) + ");"))));
    var r2 := "INDEX IF NOT EXISTS " + r3;
    var r1 := u + r2;
    assert CreateIndex(idx, table) == "CREATE " + r1;
    ConcatPrefix("CREATE ", r1);
    OptionalStep(idx.isUnique, "UNIQUE ", r2, 0);
    ConcatPrefix("INDEX IF NOT EXISTS ", r3);
    IndexTargetRoundTrip(idx, table);
  }

  lemma IndexTargetRoundTrip(idx: RoomIndex, table: string)
    requires NoBackquote(idx.name) && NoBackquote(table)
    requires forall i :: 0 <= i < |idx.columns| ==> NoBackquote(idx.columns[i])
    ensures DecodeIndexTarget(Quote(idx.name) + (" ON " + (Quote(table)
      + ("(" + (QuotedList(idx.columns) + ");"))))) == Some((idx.name, table, idx.columns))
  {
    var r7 := QuotedList(idx.columns) + ");";
    var r6 := "(" + r7;
    var r5 := Quote(table) + r6;
    var r4 := " ON " + r5;
    TakeQuotedOfQuote(idx.name, r4);
    ConcatPrefix(" ON ", r5);
    TakeQuotedOfQuote(table, r6);
    ConcatPrefix("(", r7);
    NotPrefixAt(");", ", ", 0);
    NotPrefixAt(");", "`", 0);
    QuotedListRoundTrip(idx.columns, ");");
  }

  /** Read back, the rebuild expression of a column reads that column, and
      guards it with `ifnull(.., default)` exactly when the column is neither
      nullable nor primary. */
  lemma NullableColumnRoundTrip(c: RoomColumn)
    requires NoBackquote(c.name)
    ensures DecodeSelectExpr(NullableColumn(c)) ==
      Some((c.name, if !c.isNullable && !c.isPrimary then Some(c.defaultValue) else None))
  {
    var s := NullableColumn(c);
    if NeedsFallback(c) {
      var r2 := c.defaultValue + ")";
      var tail := ", " + r2;
      assert s == "ifnull(" + (Quote(c.name) + tail);
      ConcatPrefix("ifnull(", Quote(c.name) + tail);
      TakeQuotedOfQuote(c.name, tail);
      ConcatPrefix(", ", r2);
      assert r2[..|r2| - 1] == c.defaultValue;
    } else {
      NotPrefixAt(s, "ifnull(", 0);
      assert s == Quote(c.name) + "";
      TakeQuotedOfQuote(c.name, "");
    }
  }
}
