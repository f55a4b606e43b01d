/** Schema derivation: how the annotation processor turns `@Entity`
    classes into RoomModels. A class is given by the annotation facts the
    parser reads from it; its fields form a tree, since an `@Embedded` field
    contributes the fields of its own type. Any field whose type cannot be
    resolved aborts the whole parse. */
module RoomModelParser {
  import opened Wrappers
  import opened Text
  import opened Models
  import opened JavaTypeToSql
  import Sqlite

  /** The default of `ColumnInfo.name`, meaning "use the field name". */
  const FieldNameSentinel := "[field-name]"

  datatype ColumnInfo = ColumnInfo(name: string, index: bool)

  datatype PrimaryKey = PrimaryKey(autoGenerate: bool)

  /** A field of an entity class. `typeName` is the field's type as printed
      (a primitive keyword or a qualified name); `nonNull` says whether the
      field carries `android.support.annotation.NonNull` or
      `org.jetbrains.annotations.NotNull`, or has a primitive type.
      `Ignored` is a field with `android.arch.persistence.room.Ignore`; a
      field with `androidx.room.Ignore` is not recognised and comes as
      `Plain`. */
  datatype Field =
    | Plain(name: string, typeName: string, nonNull: bool,
            columnInfo: Option<ColumnInfo>, primaryKey: Option<PrimaryKey>)
    | Embedded(prefix: string, fields: seq<Field>)
    | Ignored

  /** One `@Index` of the `@Entity` annotation. */
  datatype IndexDecl = IndexDecl(value: seq<string>, name: string, unique: bool)

  /** A method of a type-converter class: its parameter types and return
      type, as printed. */
  datatype ConverterMethod = ConverterMethod(parameterTypes: seq<string>, returnType: string)

  /** An `@Entity` class: its simple and qualified names, the annotation's
      `tableName` and `indices`, the converter classes of its
      `@TypeConverters` annotation (None without one), each a list of
      methods, and its fields. */
  datatype EntityDecl = EntityDecl(
    simpleName: string,
    qualifiedName: string,
    tableName: string,
    indices: seq<IndexDecl>,
    typeConverters: Option<seq<seq<ConverterMethod>>>,
    fields: seq<Field>)

  /** "Can't detect field type for <type> in <entity>", where the entity
      is printed as its qualified class name. */
  datatype ParseError = CannotDetectType(typeName: string, entity: string)

  // ---------------------------------------------------------------------
  // Names
  // ---------------------------------------------------------------------

  /** The class's simple name, unless the annotation's `tableName` is not
      blank. */
  function TableName(e: EntityDecl): (r: string)
    ensures IsBlank(e.tableName) ==> r == e.simpleName
    ensures !IsBlank(e.tableName) ==> r == e.tableName
  {
    if IsBlank(e.tableName) then e.simpleName else e.tableName
  }

  /** The name an index gets when the annotation gives none. */
  function DefaultIndexName(table: string, columns: seq<string>): string
  {
    "index_" + table + "_" + Join("_", columns)
  }

  /** An entity-level index: its columns and unique flag copied, named by
      the annotation or, when that is empty, by DefaultIndexName. */
  function EntityIndex(table: string, d: IndexDecl): (r: RoomIndex)
    ensures r.columns == d.value && r.isUnique == d.unique
    ensures d.name != "" ==> r.name == d.name
    ensures d.name == "" ==> r.name == DefaultIndexName(table, d.value)
  {
    RoomIndex(if d.name != "" then d.name else DefaultIndexName(table, d.value), d.value, d.unique)
  }

  function EntityIndices(table: string, ds: seq<IndexDecl>): (r: seq<RoomIndex>)
    ensures |r| == |ds|
    ensures forall k :: 0 <= k < |ds| ==> r[k] == EntityIndex(table, ds[k])
  {
    seq(|ds|, k requires 0 <= k < |ds| => EntityIndex(table, ds[k]))
  }

  /** The field name, unless a `@ColumnInfo` gives a name other than the
      sentinel. */
  function ColumnName(f: Field): string
    requires f.Plain?
  {
    if f.columnInfo.Some? && f.columnInfo.value.name != FieldNameSentinel
    then f.columnInfo.value.name
    else f.name
  }

  /** The index `@ColumnInfo(index = true)` declares: non-unique, over the
      one column, named after the column before any embedded prefix. */
  function ColumnInfoIndex(table: string, column: string): (r: RoomIndex)
    ensures r.columns == [column] && !r.isUnique
  {
    RoomIndex("index_" + table + "_" + column, [column], false)
  }

  predicate HasColumnIndex(f: Field)
    requires f.Plain?
  {
    f.columnInfo.Some? && f.columnInfo.value.index
  }

  // ---------------------------------------------------------------------
  // Types
  // ---------------------------------------------------------------------

  predicate Converts(meth: ConverterMethod, typeName: string)
  {
    |meth.parameterTypes| == 1 && meth.parameterTypes[0] == typeName
  }

  /** The first method of one converter class taking exactly one parameter
      of the field's type. */
  function FindInClass(methods: seq<ConverterMethod>, typeName: string): (r: Option<ConverterMethod>)
    ensures r.Some? <==> exists k :: 0 <= k < |methods| && Converts(methods[k], typeName)
    ensures r.Some? ==> exists k :: FirstIn(methods, typeName, k) && r.value == methods[k]
  {
    if |methods| == 0 then None
    else if Converts(methods[0], typeName) then Some(methods[0])
    else
      var r := FindInClass(methods[1..], typeName);
      assert forall k :: 0 < k < |methods| ==> methods[k] == methods[1..][k - 1];
      assert r.Some? ==> exists k :: FirstIn(methods, typeName, k) && r.value == methods[k] by {
        if r.Some? {
          var k :| FirstIn(methods[1..], typeName, k) && r.value == methods[1..][k];
          assert FirstIn(methods, typeName, k + 1);
        }
      }
      r
  }

  /** Method `k` is the first one of its class taking the field's type. */
  predicate FirstIn(methods: seq<ConverterMethod>, typeName: string, k: int)
  {
    && 0 <= k < |methods|
    && Converts(methods[k], typeName)
    && (forall l :: 0 <= l < k ==> !Converts(methods[l], typeName))
  }

  /** Method `k` of class `i` is the one the search settles on: no earlier
      class has a method taking the field's type, and it is the first such
      method of class `i`. */
  predicate FirstConverter(classes: seq<seq<ConverterMethod>>, typeName: string, i: int, k: int)
  {
    && 0 <= i < |classes|
    && FirstIn(classes[i], typeName, k)
    && (forall j, l :: 0 <= j < i && 0 <= l < |classes[j]| ==> !Converts(classes[j][l], typeName))
  }

  /** The converter classes are searched in order; the first class with a
      matching method supplies its first matching method. */
  function FindConverterMethod(classes: seq<seq<ConverterMethod>>, typeName: string): (r: Option<ConverterMethod>)
    ensures r.Some? <==> exists i, k :: 0 <= i < |classes| && 0 <= k < |classes[i]| && Converts(classes[i][k], typeName)
    ensures r.Some? ==> exists i, k :: FirstConverter(classes, typeName, i, k) && r.value == classes[i][k]
  {
    if |classes| == 0 then None
    else
      ConvertsSomewhere(classes, typeName);
      match FindInClass(classes[0], typeName)
      case Some(meth) => Some(meth)
      case None =>
        var r := FindConverterMethod(classes[1..], typeName);
        FirstConverterLater(classes, typeName, r);
        r
  }

  /** When the first class has no matching method, the search's choice in
      the later classes is its choice in all of them. */
  lemma FirstConverterLater(classes: seq<seq<ConverterMethod>>, typeName: string, r: Option<ConverterMethod>)
    requires |classes| > 0
    requires forall l :: 0 <= l < |classes[0]| ==> !Converts(classes[0][l], typeName)
    requires r.Some? ==> exists i, k :: FirstConverter(classes[1..], typeName, i, k) && r.value == classes[1..][i][k]
    ensures r.Some? ==> exists i, k :: FirstConverter(classes, typeName, i, k) && r.value == classes[i][k]
  {
    if r.Some? {
      var i, k :| FirstConverter(classes[1..], typeName, i, k) && r.value == classes[1..][i][k];
      assert classes[i + 1] == classes[1..][i];
      forall j, l | 0 <= j < i + 1 && 0 <= l < |classes[j]| ensures !Converts(classes[j][l], typeName) {
        if j > 0 {
          assert classes[j] == classes[1..][j - 1];
        }
      }
      assert FirstConverter(classes, typeName, i + 1, k);
    }
  }

  /** At most one method is the one the search settles on. */
  lemma FirstConverterUnique(classes: seq<seq<ConverterMethod>>, typeName: string, i: int, k: int, i': int, k': int)
    requires FirstConverter(classes, typeName, i, k) && FirstConverter(classes, typeName, i', k')
    ensures i == i' && k == k'
  {
  }

  /** The converter fallback maps the field's type to `t`: the entity has
      converter classes, and the method the search settles on returns a
      type whose direct mapping is `t`. */
  ghost predicate ConverterMaps(e: EntityDecl, typeName: string, t: SqlType)
  {
    e.typeConverters.Some?
    && exists i, k :: FirstConverter(e.typeConverters.value, typeName, i, k)
         && ToSqlType(e.typeConverters.value[i][k].returnType) == Some(t)
  }

  lemma ConvertsSomewhere(classes: seq<seq<ConverterMethod>>, typeName: string)
    requires |classes| > 0
    ensures (exists i, k :: 0 <= i < |classes| && 0 <= k < |classes[i]| && Converts(classes[i][k], typeName)) <==>
      ((exists k :: 0 <= k < |classes[0]| && Converts(classes[0][k], typeName))
       || (exists i, k :: 0 <= i < |classes[1..]| && 0 <= k < |classes[1..][i]| && Converts(classes[1..][i][k], typeName)))
  {
    if exists i, k :: 0 <= i < |classes| && 0 <= k < |classes[i]| && Converts(classes[i][k], typeName) {
      var i, k :| 0 <= i < |classes| && 0 <= k < |classes[i]| && Converts(classes[i][k], typeName);
      if i > 0 {
        assert classes[1..][i - 1] == classes[i];
      }
    }
    if exists i, k :: 0 <= i < |classes[1..]| && 0 <= k < |classes[1..][i]| && Converts(classes[1..][i][k], typeName) {
      var i, k :| 0 <= i < |classes[1..]| && 0 <= k < |classes[1..][i]| && Converts(classes[1..][i][k], typeName);
      assert classes[i + 1] == classes[1..][i];
    }
  }

  /** `toSqlType` of the parser: the direct mapping of the field's type, or
      else the mapping of the return type of the converter method found for
      it. It fails without a `@TypeConverters` annotation, without a
      matching method, or when the return type has no mapping either. */
  function ResolveType(e: EntityDecl, typeName: string): (r: Result<SqlType, ParseError>)
    ensures ToSqlType(typeName).Some? ==> r == Ok(ToSqlType(typeName).value)
    ensures ToSqlType(typeName).None? ==> forall t :: r == Ok(t) <==> ConverterMaps(e, typeName, t)
    ensures r.Err? ==> r.error == CannotDetectType(typeName, e.qualifiedName)
  {
    match ToSqlType(typeName)
    case Some(t) => Ok(t)
    case None =>
      var err := CannotDetectType(typeName, e.qualifiedName);
      if e.typeConverters.None? then Err(err)
      else
        var classes := e.typeConverters.value;
        match FindConverterMethod(classes, typeName)
        case None => Err(err)
        case Some(meth) =>
          ConverterMapsFound(e, typeName, meth);
          match ToSqlType(meth.returnType)
          case None => Err(err)
          case Some(t) => Ok(t)
  }

  /** With a method found, the fallback maps the type exactly to the
      direct mapping of that method's return type. */
  lemma ConverterMapsFound(e: EntityDecl, typeName: string, meth: ConverterMethod)
    requires e.typeConverters.Some?
    requires FindConverterMethod(e.typeConverters.value, typeName) == Some(meth)
    ensures forall t :: ConverterMaps(e, typeName, t) <==> ToSqlType(meth.returnType) == Some(t)
  {
    var classes := e.typeConverters.value;
    var i, k :| FirstConverter(classes, typeName, i, k) && meth == classes[i][k];
    forall t ensures ConverterMaps(e, typeName, t) <==> ToSqlType(meth.returnType) == Some(t) {
      if ConverterMaps(e, typeName, t) {
        var i', k' :| FirstConverter(classes, typeName, i', k')
          && ToSqlType(classes[i'][k'].returnType) == Some(t);
        FirstConverterUnique(classes, typeName, i, k, i', k');
      }
    }
  }

  // ---------------------------------------------------------------------
  // Columns
  // ---------------------------------------------------------------------

  /** The column a plain field yields, given its resolved type and the
      prefix of the embedded field it sits in. */
  function ColumnFor(prefix: string, f: Field, t: SqlType): (r: RoomColumn)
    requires f.Plain?
    ensures r.sqlType == t
    ensures r.name == prefix + ColumnName(f) && StartsWith(r.name, prefix)
    ensures r.isNullable <==> !f.nonNull
    ensures r.isAutoGenerate ==> r.isPrimary
    ensures f.primaryKey.None? ==> !r.isPrimary && !r.isAutoGenerate
    ensures f.primaryKey.Some? ==> r.isPrimary && r.isAutoGenerate == f.primaryKey.value.autoGenerate
    ensures r.defaultValue == ToSqlDefaultValue(t) && r.defaultValue != "" && Sqlite.Addable(r)
  {
    ConcatPrefix(prefix, ColumnName(f));
    RoomColumn(
      prefix + ColumnName(f),
      !f.nonNull,
      f.primaryKey.Some?,
      f.primaryKey.Some? && f.primaryKey.value.autoGenerate,
      ToSqlDefaultValue(t),
      t)
  }

  /** `parseColumns`: the columns of the fields in order, an embedded
      field's columns in its place under its own prefix, ignored fields
      skipped; and the `@ColumnInfo` indices in the same order. */
  function ParseFields(e: EntityDecl, table: string, fields: seq<Field>, prefix: string)
    : Result<(seq<RoomColumn>, seq<RoomIndex>), ParseError>
    decreases fields
  {
    if |fields| == 0 then Ok(([], []))
    else
      var head: Result<(seq<RoomColumn>, seq<RoomIndex>), ParseError> :=
        match fields[0]
        case Ignored => Ok(([], []))
        case Embedded(p, fs) => ParseFields(e, table, fs, p)
        case Plain(_, _, _, _, _) => PlainColumn(e, table, fields[0], prefix);
      Then(head, ParseFields(e, table, fields[1..], prefix))
  }

  /** A plain field's column and, with `@ColumnInfo(index = true)`, its
      index; the type error when its type has no column type. */
  function PlainColumn(e: EntityDecl, table: string, f: Field, prefix: string)
    : Result<(seq<RoomColumn>, seq<RoomIndex>), ParseError>
    requires f.Plain?
  {
    match ResolveType(e, f.typeName)
    case Err(err) => Err(err)
    case Ok(t) =>
      Ok(([ColumnFor(prefix, f, t)],
          if HasColumnIndex(f) then [ColumnInfoIndex(table, ColumnName(f))] else []))
  }

  /** The head's columns and indices followed by the tail's; the first
      error otherwise. */
  function Then(head: Result<(seq<RoomColumn>, seq<RoomIndex>), ParseError>,
                tail: Result<(seq<RoomColumn>, seq<RoomIndex>), ParseError>)
    : (r: Result<(seq<RoomColumn>, seq<RoomIndex>), ParseError>)
    ensures r.Ok? <==> head.Ok? && tail.Ok?
    ensures head.Err? ==> r == head
    ensures r.Ok? ==> r.value == (head.value.0 + tail.value.0, head.value.1 + tail.value.1)
  {
    match head
    case Err(err) => Err(err)
    case Ok((cs, xs)) =>
      match tail
      case Err(err) => Err(err)
      case Ok((cs', xs')) => Ok((cs + cs', xs + xs'))
  }

  /** `parseEntityAnnotation` then `parseColumns`: the entity's indices come
      first, then those of `@ColumnInfo(index = true)`. */
  function ParseEntity(e: EntityDecl): (r: Result<RoomModel, ParseError>)
    ensures r.Ok? ==> r.value.tableName == TableName(e) && r.value.simpleName == e.simpleName
    ensures r.Ok? ==> |r.value.indices| >= |e.indices|
    ensures r.Ok? ==> r.value.indices[..|e.indices|] == EntityIndices(TableName(e), e.indices)
  {
    var table := TableName(e);
    match ParseFields(e, table, e.fields, "")
    case Err(err) => Err(err)
    case Ok((cols, idxs)) =>
      var own := EntityIndices(table, e.indices);
      assert (own + idxs)[..|own|] == own;
      Ok(RoomModel(table, e.simpleName, cols, own + idxs))
  }

  /** `parse`: one model per entity, in order; the first failure aborts the
      whole parse. */
  function Parse(es: seq<EntityDecl>): (r: Result<seq<RoomModel>, ParseError>)
    ensures r.Ok? <==> forall i :: 0 <= i < |es| ==> ParseEntity(es[i]).Ok?
    ensures r.Ok? ==> |r.value| == |es| && forall i :: 0 <= i < |es| ==> r.value[i] == ParseEntity(es[i]).value
    ensures r.Err? ==>
      exists i :: 0 <= i < |es| && ParseEntity(es[i]) == Err(r.error) && FirstFailure(es, i)
  {
    if |es| == 0 then Ok([])
    else match ParseEntity(es[0])
      case Err(err) => Err(err)
      case Ok(m) =>
        var rest := Parse(es[1..]);
        assert forall i :: 0 < i < |es| ==> es[i] == es[1..][i - 1];
        match rest
        case Err(err) =>
          FirstFailureShifts(es, err);
          Err(err)
        case Ok(ms) => Ok([m] + ms)
  }

  /** Every entity before position `i` parses. */
  predicate FirstFailure(es: seq<EntityDecl>, i: nat)
    requires i <= |es|
  {
    forall j :: 0 <= j < i ==> ParseEntity(es[j]).Ok?
  }

  lemma FirstFailureShifts(es: seq<EntityDecl>, err: ParseError)
    requires |es| > 0 && ParseEntity(es[0]).Ok?
    requires exists i :: 0 <= i < |es[1..]| && ParseEntity(es[1..][i]) == Err(err) && FirstFailure(es[1..], i)
    ensures exists i :: 0 <= i < |es| && ParseEntity(es[i]) == Err(err) && FirstFailure(es, i)
  {
    var i :| 0 <= i < |es[1..]| && ParseEntity(es[1..][i]) == Err(err) && FirstFailure(es[1..], i);
    assert es[1..][i] == es[i + 1];
    forall j | 0 <= j < i + 1 ensures ParseEntity(es[j]).Ok? {
      if j > 0 {
        assert es[j] == es[1..][j - 1];
        assert ParseEntity(es[1..][j - 1]).Ok?;
      }
    }
    assert FirstFailure(es, i + 1);
  }

  // ---------------------------------------------------------------------
  // The flat view: which plain fields become columns, under which prefix
  // ---------------------------------------------------------------------

  /** A plain field and the prefix its column name gets. */
  datatype Leaf = Leaf(prefix: string, field: Field)

  /** The plain fields of a field tree in order, each with the prefix of
      the innermost embedded field around it. */
  function Leaves(fields: seq<Field>, prefix: string): (r: seq<Leaf>)
    ensures forall k :: 0 <= k < |r| ==> r[k].field.Plain?
    decreases fields
  {
    if |fields| == 0 then []
    else
      (match fields[0]
       case Ignored => []
       case Embedded(p, fs) => Leaves(fs, p)
       case Plain(_, _, _, _, _) => [Leaf(prefix, fields[0])])
      + Leaves(fields[1..], prefix)
  }

  predicate Resolves(e: EntityDecl, ls: seq<Leaf>)
    requires forall k :: 0 <= k < |ls| ==> ls[k].field.Plain?
  {
    forall k :: 0 <= k < |ls| ==> ResolveType(e, ls[k].field.typeName).Ok?
  }

  function LeafColumns(e: EntityDecl, ls: seq<Leaf>): (r: seq<RoomColumn>)
    requires forall k :: 0 <= k < |ls| ==> ls[k].field.Plain?
    requires Resolves(e, ls)
    ensures |r| == |ls|
    ensures forall k :: 0 <= k < |ls| ==>
      r[k] == ColumnFor(ls[k].prefix, ls[k].field, ResolveType(e, ls[k].field.typeName).value)
  {
    seq(|ls|, k requires 0 <= k < |ls| =>
      ColumnFor(ls[k].prefix, ls[k].field, ResolveType(e, ls[k].field.typeName).value))
  }

  function LeafIndices(table: string, ls: seq<Leaf>): seq<RoomIndex>
    requires forall k :: 0 <= k < |ls| ==> ls[k].field.Plain?
  {
    if |ls| == 0 then []
    else
      (if HasColumnIndex(ls[0].field) then [ColumnInfoIndex(table, ColumnName(ls[0].field))] else [])
      + LeafIndices(table, ls[1..])
  }

  lemma {:induction false} LeafIndicesAppend(table: string, a: seq<Leaf>, b: seq<Leaf>)
    requires forall k :: 0 <= k < |a| ==> a[k].field.Plain?
    requires forall k :: 0 <= k < |b| ==> b[k].field.Plain?
    ensures LeafIndices(table, a + b) == LeafIndices(table, a) + LeafIndices(table, b)
    decreases |a|
  {
    if |a| == 0 {
      assert a + b == b;
    } else {
      var ab := a + b;
      assert ab[0] == a[0];
      assert ab[1..] == a[1..] + b;
      assert forall k :: 0 <= k < |a[1..]| ==> a[1..][k] == a[k + 1];
      var h := if HasColumnIndex(a[0].field) then [ColumnInfoIndex(table, ColumnName(a[0].field))] else [];
      assert LeafIndices(table, ab) == h + LeafIndices(table, a[1..] + b);
      assert LeafIndices(table, a) == h + LeafIndices(table, a[1..]);
      LeafIndicesAppend(table, a[1..], b);
      assert h + (LeafIndices(table, a[1..]) + LeafIndices(table, b))
        == (h + LeafIndices(table, a[1..])) + LeafIndices(table, b);
    }
  }

  lemma LeafColumnsAppend(e: EntityDecl, a: seq<Leaf>, b: seq<Leaf>)
    requires forall k :: 0 <= k < |a| ==> a[k].field.Plain?
    requires forall k :: 0 <= k < |b| ==> b[k].field.Plain?
    ensures forall k :: 0 <= k < |a + b| ==> (a + b)[k].field.Plain?
    ensures Resolves(e, a + b) <==> Resolves(e, a) && Resolves(e, b)
    ensures Resolves(e, a + b) ==> LeafColumns(e, a + b) == LeafColumns(e, a) + LeafColumns(e, b)
  {
    ResolvesAppend(e, a, b);
    if Resolves(e, a + b) {
      ColumnsAppend(e, a, b);
    }
  }

  lemma ResolvesAppend(e: EntityDecl, a: seq<Leaf>, b: seq<Leaf>)
    requires forall k :: 0 <= k < |a| ==> a[k].field.Plain?
    requires forall k :: 0 <= k < |b| ==> b[k].field.Plain?
    ensures forall k :: 0 <= k < |a + b| ==> (a + b)[k].field.Plain?
    ensures Resolves(e, a + b) <==> Resolves(e, a) && Resolves(e, b)
  {
    var ab := a + b;
    assert forall k :: 0 <= k < |b| ==> ab[|a| + k] == b[k];
    assert forall k :: 0 <= k < |a| ==> ab[k] == a[k];
    if Resolves(e, a) && Resolves(e, b) {
      forall k | 0 <= k < |ab| ensures ResolveType(e, ab[k].field.typeName).Ok? {
        if k >= |a| {
          assert ab[k] == b[k - |a|];
        }
      }
    }
    if Resolves(e, ab) {
      forall k | 0 <= k < |b| ensures ResolveType(e, b[k].field.typeName).Ok? {
        assert ab[|a| + k] == b[k];
      }
    }
  }

  lemma ColumnsAppend(e: EntityDecl, a: seq<Leaf>, b: seq<Leaf>)
    requires forall k :: 0 <= k < |a| ==> a[k].field.Plain?
    requires forall k :: 0 <= k < |b| ==> b[k].field.Plain?
    requires forall k :: 0 <= k < |a + b| ==> (a + b)[k].field.Plain?
    requires Resolves(e, a) && Resolves(e, b) && Resolves(e, a + b)
    ensures LeafColumns(e, a + b) == LeafColumns(e, a) + LeafColumns(e, b)
  {
    var ab := a + b;
    var l := LeafColumns(e, ab);
    var r := LeafColumns(e, a) + LeafColumns(e, b);
    forall k | 0 <= k < |ab| ensures l[k] == r[k] {
      if k >= |a| {
        assert ab[k] == b[k - |a|];
      } else {
        assert ab[k] == a[k];
      }
    }
    assert l == r;
  }

  /** A parse result agrees with a flat list of leaves: it succeeds exactly
      when every leaf's type resolves, and then holds their columns and
      their `@ColumnInfo` indices. */
  predicate Agrees(e: EntityDecl, table: string, r: Result<(seq<RoomColumn>, seq<RoomIndex>), ParseError>,
                   ls: seq<Leaf>)
    requires forall k :: 0 <= k < |ls| ==> ls[k].field.Plain?
  {
    && (r.Ok? <==> Resolves(e, ls))
    && (r.Ok? ==> r.value.0 == LeafColumns(e, ls) && r.value.1 == LeafIndices(table, ls))
  }

  /** The recursive parse of `fields` agrees with the flat view of them. */
  predicate LeavesAgree(e: EntityDecl, table: string, fields: seq<Field>, prefix: string)
  {
    Agrees(e, table, ParseFields(e, table, fields, prefix), Leaves(fields, prefix))
  }

  /** Agreement is kept by concatenation. */
  lemma ThenAgrees(e: EntityDecl, table: string,
                   head: Result<(seq<RoomColumn>, seq<RoomIndex>), ParseError>,
                   tail: Result<(seq<RoomColumn>, seq<RoomIndex>), ParseError>,
                   hl: seq<Leaf>, rl: seq<Leaf>)
    requires forall k :: 0 <= k < |hl| ==> hl[k].field.Plain?
    requires forall k :: 0 <= k < |rl| ==> rl[k].field.Plain?
    requires Agrees(e, table, head, hl) && Agrees(e, table, tail, rl)
    ensures forall k :: 0 <= k < |hl + rl| ==> (hl + rl)[k].field.Plain?
    ensures Agrees(e, table, Then(head, tail), hl + rl)
  {
    LeafColumnsAppend(e, hl, rl);
    LeafIndicesAppend(table, hl, rl);
  }

  /** A plain field parses to its one column and, with
      `@ColumnInfo(index = true)`, its one index. */
  lemma PlainAgrees(e: EntityDecl, table: string, f: Field, prefix: string)
    requires f.Plain?
    ensures Agrees(e, table, PlainColumn(e, table, f, prefix), [Leaf(prefix, f)])
  {
    assert LeafIndices(table, [Leaf(prefix, f)])
      == (if HasColumnIndex(f) then [ColumnInfoIndex(table, ColumnName(f))] else []) + [];
  }

  /** The flat view of a field list is the head's leaves then the tail's. */
  lemma LeavesCons(fields: seq<Field>, prefix: string)
    requires |fields| > 0
    ensures Leaves(fields, prefix) ==
      (match fields[0]
       case Ignored => []
       case Embedded(p, fs) => Leaves(fs, p)
       case Plain(_, _, _, _, _) => [Leaf(prefix, fields[0])])
      + Leaves(fields[1..], prefix)
  {
  }

  /** If the tail, and an embedded head, agree with the flat view, so does
      the whole list. */
  lemma ParseFieldsStep(e: EntityDecl, table: string, fields: seq<Field>, prefix: string)
    requires |fields| > 0
    requires LeavesAgree(e, table, fields[1..], prefix)
    requires fields[0].Embedded? ==> LeavesAgree(e, table, fields[0].fields, fields[0].prefix)
    ensures LeavesAgree(e, table, fields, prefix)
  {
    var tail := ParseFields(e, table, fields[1..], prefix);
    var rl := Leaves(fields[1..], prefix);
    LeavesCons(fields, prefix);
    match fields[0] {
      case Ignored =>
        assert ParseFields(e, table, fields, prefix) == Then(Ok(([], [])), tail);
        ThenAgrees(e, table, Ok(([], [])), tail, [], rl);
      case Embedded(p, fs) =>
        assert ParseFields(e, table, fields, prefix) == Then(ParseFields(e, table, fs, p), tail);
        ThenAgrees(e, table, ParseFields(e, table, fs, p), tail, Leaves(fs, p), rl);
      case Plain(_, _, _, _, _) =>
        var head := PlainColumn(e, table, fields[0], prefix);
        assert ParseFields(e, table, fields, prefix) == Then(head, tail);
        PlainAgrees(e, table, fields[0], prefix);
        ThenAgrees(e, table, head, tail, [Leaf(prefix, fields[0])], rl);
    }
  }

  /** The recursive parse of a field tree agrees with the flat view: it
      succeeds exactly when every plain field's type resolves, and then
      yields one column per plain field, in order, and one index per plain
      field with `@ColumnInfo(index = true)`. */
  lemma {:induction false} ParseFieldsLeaves(e: EntityDecl, table: string, fields: seq<Field>, prefix: string)
    ensures var ls := Leaves(fields, prefix);
      var r := ParseFields(e, table, fields, prefix);
      && (r.Ok? <==> Resolves(e, ls))
      && (r.Ok? ==> r.value.0 == LeafColumns(e, ls) && r.value.1 == LeafIndices(table, ls))
    decreases fields
  {
    if |fields| > 0 {
      ParseFieldsLeaves(e, table, fields[1..], prefix);
      if fields[0].Embedded? {
        ParseFieldsLeaves(e, table, fields[0].fields, fields[0].prefix);
      }
      ParseFieldsStep(e, table, fields, prefix);
    }
  }

  /** A whole entity: the table name, the columns of the flat view, and the
      entity's indices followed by the `@ColumnInfo` ones. */
  lemma ParseEntityShape(e: EntityDecl)
    ensures var ls := Leaves(e.fields, "");
      var table := TableName(e);
      && (ParseEntity(e).Ok? <==> Resolves(e, ls))
      && (ParseEntity(e).Ok? ==>
            ParseEntity(e).value == RoomModel(table, e.simpleName, LeafColumns(e, ls),
                                              EntityIndices(table, e.indices) + LeafIndices(table, ls)))
  {
    ParseFieldsLeaves(e, TableName(e), e.fields, "");
  }

  /** Every column of every parsed model can be added to an existing table:
      its default value is never empty. */
  lemma ParsedColumnsAddable(es: seq<EntityDecl>)
    requires Parse(es).Ok?
    ensures forall i, k :: 0 <= i < |es| && 0 <= k < |Parse(es).value[i].columns| ==>
      Sqlite.Addable(Parse(es).value[i].columns[k])
  {
    forall i | 0 <= i < |es| {
      ParseEntityShape(es[i]);
    }
  }

  // ---------------------------------------------------------------------
  // Examples
  // ---------------------------------------------------------------------

  /** An unnamed `@Index("localId")` on table "chat_messages". */
  lemma ChatMessagesIndexName()
    ensures EntityIndex("chat_messages", IndexDecl(["localId"], "", false)).name
      == "index_chat_messages_localId"
  {
    assert Join("_", ["localId"]) == "localId";
  }

  /** An unnamed single-column entity index and `@ColumnInfo(index = true)`
      on the same column declare the same index. */
  lemma SingleColumnIndexAgrees(table: string, column: string)
    ensures EntityIndex(table, IndexDecl([column], "", false)) == ColumnInfoIndex(table, column)
  {
    assert Join("_", [column]) == column;
  }

  /** Nested embedded fields: only the innermost prefix is applied. */
  lemma EmbeddedPrefixNotAccumulated(outer: string, inner: string, x: Field)
    requires x.Plain?
    ensures Leaves([Embedded(outer, [Embedded(inner, [x])])], "") == [Leaf(inner, x)]
  {
    var e1 := [Embedded(inner, [x])];
    assert Leaves([x], inner) == [Leaf(inner, x)] + Leaves([], inner);
    assert Leaves(e1, outer) == Leaves([x], inner) + Leaves(e1[1..], outer);
    assert [Embedded(outer, e1)][1..] == [];
  }

  /** The first converter method taking the field's type is used even when
      its return type has no mapping and a later one's has: the field then
      fails to resolve. */
  lemma FirstConverterWins()
    ensures var date := "java.util.Date";
      var e := EntityDecl("Message", "example.Message", "", [],
        Some([[ConverterMethod([date], "java.util.UUID")], [ConverterMethod([date], "long")]]), []);
      ResolveType(e, date).Err?
  {
    var date := "java.util.Date";
    assert Box(date) == date;
    assert Box("java.util.UUID") == "java.util.UUID";
  }

  /** An indexed column inside a prefixed embedded field: the column is
      named with the prefix, but its index names the column without it, so
      the model's index refers to a column the model does not have. */
  lemma EmbeddedIndexIgnoresPrefix(prefix: string)
    requires prefix != ""
    ensures var x := Plain("id", "int", true, Some(ColumnInfo(FieldNameSentinel, true)), None);
      var e := EntityDecl("Message", "example.Message", "", [], None, [Embedded(prefix, [x])]);
      && ParseEntity(e) == Ok(RoomModel("Message", "Message",
           [RoomColumn(prefix + "id", false, false, false, "0", INTEGER)],
           [RoomIndex("index_Message_id", ["id"], false)]))
      && "id" !in ColumnNames(ParseEntity(e).value.columns)
  {
    var x := Plain("id", "int", true, Some(ColumnInfo(FieldNameSentinel, true)), None);
    var e := EntityDecl("Message", "example.Message", "", [], None, [Embedded(prefix, [x])]);
    assert ToSqlType("int") == Some(INTEGER) by { IntegerPrimitives(); }
    assert TableName(e) == "Message";
    assert ResolveType(e, "int") == Ok(INTEGER);
    assert ColumnName(x) == "id" && HasColumnIndex(x);
    assert ColumnFor(prefix, x, INTEGER) == RoomColumn(prefix + "id", false, false, false, "0", INTEGER);
    assert ColumnInfoIndex("Message", "id") == RoomIndex("index_Message_id", ["id"], false);
    assert [x][1..] == [];
    assert ParseFields(e, "Message", [], prefix) == Ok(([], []));
    var c := ColumnFor(prefix, x, INTEGER);
    var ix := ColumnInfoIndex("Message", "id");
    assert [c] + [] == [c] && [ix] + [] == [ix];
    assert ParseFields(e, "Message", [x], prefix) == Ok(([c], [ix]));
    assert ParseFields(e, "Message", [x], prefix) ==
      Ok(([RoomColumn(prefix + "id", false, false, false, "0", INTEGER)], [RoomIndex("index_Message_id", ["id"], false)]));
    assert [Embedded(prefix, [x])][1..] == [];
    assert ParseFields(e, "Message", [], "") == Ok(([], []));
    assert ParseFields(e, "Message", e.fields, "") == Ok(([c], [ix]));
    assert EntityIndices("Message", []) == [];
    assert [] + [ix] == [ix];
    assert ParseEntity(e) == Ok(RoomModel("Message", "Message", [c], [ix]));
    assert |prefix + "id"| > 2;
    assert ColumnNames([c]) == [prefix + "id"];
  }
}
