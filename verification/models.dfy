/** The data holders of the migration generator: an index, a column, and
    the model of one entity table. In the source they are mutable classes
    filled in by the parser; here they are immutable values that the parser
    builds whole. */
module Models {
  import opened Wrappers
  import opened Text

  /** The three storage types the Java-type mapping can produce. The source
      keeps the type as a String, but only these three names ever reach it. */
  datatype SqlType = TEXT | REAL | INTEGER

  function SqlTypeName(t: SqlType): (r: string)
    ensures ParseSqlTypeName(r) == Some(t)
  {
    match t
    case TEXT => "TEXT"
    case REAL => "REAL"
    case INTEGER => "INTEGER"
  }

  function ParseSqlTypeName(s: string): Option<SqlType>
  {
    if s == "TEXT" then Some(TEXT)
    else if s == "REAL" then Some(REAL)
    else if s == "INTEGER" then Some(INTEGER)
    else None
  }

  datatype RoomIndex = RoomIndex(name: string, columns: seq<string>, isUnique: bool)

  datatype RoomColumn = RoomColumn(
    name: string,
    isNullable: bool,
    isPrimary: bool,
    isAutoGenerate: bool,
    defaultValue: string,
    sqlType: SqlType)

  /** `simpleName` is the simple name of the entity class the model is bound
      to; the source computes it from that element on every read. */
  datatype RoomModel = RoomModel(
    tableName: string,
    simpleName: string,
    columns: seq<RoomColumn>,
    indices: seq<RoomIndex>)

  function ColumnNames(cols: seq<RoomColumn>): (r: seq<string>)
    ensures |r| == |cols|
    ensures forall i :: 0 <= i < |r| ==> r[i] == cols[i].name
  {
    seq(|cols|, i requires 0 <= i < |cols| => cols[i].name)
  }

  function IndexNames(idxs: seq<RoomIndex>): (r: seq<string>)
    ensures |r| == |idxs|
    ensures forall i :: 0 <= i < |r| ==> r[i] == idxs[i].name
  {
    seq(|idxs|, i requires 0 <= i < |idxs| => idxs[i].name)
  }

  /** The Kotlin `toString`: name, isNullable, isPrimary, isAutoGenerate
      and sqlType, in that order; the default value is not shown. */
  function ColumnToString(c: RoomColumn): string
  {
    "RoomColumn(name='" + (c.name + ("', isNullable=" + FlagsText(c)))
  }

  function FlagsText(c: RoomColumn): string
  {
    BoolToString(c.isNullable) + (", isPrimary=" + (BoolToString(c.isPrimary)
    + (", isAutoGenerate=" + (BoolToString(c.isAutoGenerate)
    + (", sqlType='" + (SqlTypeName(c.sqlType) + "')"))))))
  }

  const ModelStringPrefix := "RoomModel(tableName='"

  function ModelToString(m: RoomModel): (r: string)
    ensures StartsWith(r, ModelStringPrefix) && EndsWith(r, "')")
    ensures |r| == |ModelStringPrefix| + |m.tableName| + 2
    ensures r[|ModelStringPrefix|..|r| - 2] == m.tableName
  {
    ModelStringPrefix + m.tableName + "')"
  }

  /** Two models print the same exactly when their table names agree:
      the text shows the table name and nothing else. */
  lemma ModelToStringShowsOnlyTableName(m1: RoomModel, m2: RoomModel)
    ensures ModelToString(m1) == ModelToString(m2) <==> m1.tableName == m2.tableName
  {
    var r1, r2 := ModelToString(m1), ModelToString(m2);
    if r1 == r2 {
      assert m1.tableName == r1[|ModelStringPrefix|..|r1| - 2];
    }
  }

  lemma CancelPrefix(p: string, a: string, b: string)
    requires p + a == p + b
    ensures a == b
  {
    assert a == (p + a)[|p|..];
    assert b == (p + b)[|p|..];
  }

  lemma BoolTextDetermines(b1: bool, r1: string, b2: bool, r2: string)
    requires BoolToString(b1) + r1 == BoolToString(b2) + r2
    ensures b1 == b2 && r1 == r2
  {
    assert (BoolToString(b1) + r1)[0] == BoolToString(b1)[0];
    assert (BoolToString(b2) + r2)[0] == BoolToString(b2)[0];
    CancelPrefix(BoolToString(b1), r1, r2);
  }

  lemma SqlTypeTextDetermines(t1: SqlType, t2: SqlType, tail: string)
    requires SqlTypeName(t1) + tail == SqlTypeName(t2) + tail
    ensures t1 == t2
  {
    assert (SqlTypeName(t1) + tail)[0] == SqlTypeName(t1)[0];
    assert (SqlTypeName(t2) + tail)[0] == SqlTypeName(t2)[0];
  }

  /** The column text omits the default value, but for a given column name
      it determines every flag and the SQL type. */
  lemma ColumnToStringDeterminesFlags(c1: RoomColumn, c2: RoomColumn)
    requires c1.name == c2.name
    ensures ColumnToString(c1) == ColumnToString(c2) <==>
      c1.isNullable == c2.isNullable && c1.isPrimary == c2.isPrimary
      && c1.isAutoGenerate == c2.isAutoGenerate && c1.sqlType == c2.sqlType
  {
    if ColumnToString(c1) == ColumnToString(c2) {
      CancelPrefix("RoomColumn(name='", c1.name + ("', isNullable=" + FlagsText(c1)),
        c2.name + ("', isNullable=" + FlagsText(c2)));
      CancelPrefix(c1.name, "', isNullable=" + FlagsText(c1), "', isNullable=" + FlagsText(c2));
      CancelPrefix("', isNullable=", FlagsText(c1), FlagsText(c2));
      FlagsTextDetermines(c1, c2);
    }
  }

  lemma FlagsTextDetermines(c1: RoomColumn, c2: RoomColumn)
    requires FlagsText(c1) == FlagsText(c2)
    ensures c1.isNullable == c2.isNullable && c1.isPrimary == c2.isPrimary
    ensures c1.isAutoGenerate == c2.isAutoGenerate && c1.sqlType == c2.sqlType
  {
    var t1 := ", sqlType='" + (SqlTypeName(c1.sqlType) + "')");
    var t2 := ", sqlType='" + (SqlTypeName(c2.sqlType) + "')");
    var a1 := ", isAutoGenerate=" + (BoolToString(c1.isAutoGenerate) + t1);
    var a2 := ", isAutoGenerate=" + (BoolToString(c2.isAutoGenerate) + t2);
    var p1 := ", isPrimary=" + (BoolToString(c1.isPrimary) + a1);
    var p2 := ", isPrimary=" + (BoolToString(c2.isPrimary) + a2);
    BoolTextDetermines(c1.isNullable, p1, c2.isNullable, p2);
    CancelPrefix(", isPrimary=", BoolToString(c1.isPrimary) + a1, BoolToString(c2.isPrimary) + a2);
    BoolTextDetermines(c1.isPrimary, a1, c2.isPrimary, a2);
    CancelPrefix(", isAutoGenerate=", BoolToString(c1.isAutoGenerate) + t1, BoolToString(c2.isAutoGenerate) + t2);
    BoolTextDetermines(c1.isAutoGenerate, t1, c2.isAutoGenerate, t2);
    CancelPrefix(", sqlType='", SqlTypeName(c1.sqlType) + "')", SqlTypeName(c2.sqlType) + "')");
    SqlTypeTextDetermines(c1.sqlType, c2.sqlType, "')");
  }

  /** The default value never shows in the column text. */
  lemma ColumnToStringOmitsDefault(c: RoomColumn, v: string)
    ensures ColumnToString(c.(defaultValue := v)) == ColumnToString(c)
  {
  }
}
