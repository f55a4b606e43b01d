/** The mapping from a Java field type to an SQLite storage type, and the
    per-type default value written for NOT NULL columns. A type is given by
    the text JavaPoet prints for it: a primitive keyword (`int`) or a
    qualified name (`java.lang.String`). */
module JavaTypeToSql {
  import opened Wrappers
  import opened Models

  /** JavaPoet's `TypeName.box()`, printed: a primitive keyword becomes its
      wrapper class, every other type is left as it is. */
  function Box(typeName: string): string
  {
    match typeName
    case "boolean" => "java.lang.Boolean"
    case "byte" => "java.lang.Byte"
    case "short" => "java.lang.Short"
    case "int" => "java.lang.Integer"
    case "long" => "java.lang.Long"
    case "char" => "java.lang.Character"
    case "float" => "java.lang.Float"
    case "double" => "java.lang.Double"
    case "void" => "java.lang.Void"
    case _ => typeName
  }

  /** `TypeMirror.toSqlType`: boxes the type, then maps String to TEXT,
      Double and Float to REAL, Integer, Boolean and Long to INTEGER, and
      every other type to nothing (Kotlin's null). */
  function ToSqlType(typeName: string): (r: Option<SqlType>)
    ensures r == Some(TEXT) <==> Box(typeName) == "java.lang.String"
    ensures r == Some(REAL) <==> Box(typeName) in {"java.lang.Double", "java.lang.Float"}
    ensures r == Some(INTEGER) <==>
      Box(typeName) in {"java.lang.Integer", "java.lang.Boolean", "java.lang.Long"}
  {
    match Box(typeName)
    case "java.lang.String" => Some(TEXT)
    case "java.lang.Double" => Some(REAL)
    case "java.lang.Float" => Some(REAL)
    case "java.lang.Integer" => Some(INTEGER)
    case "java.lang.Boolean" => Some(INTEGER)
    case "java.lang.Long" => Some(INTEGER)
    case _ => None
  }

  /** `toSqlDefaultValue`: "0" for INTEGER, "0.0" for REAL and "''" for
      anything else. */
  function ToSqlDefaultValue(t: SqlType): (r: string)
    ensures r != ""
    ensures r == "0" <==> t == INTEGER
    ensures r == "0.0" <==> t == REAL
    ensures r == "''" <==> t == TEXT
  {
    match t
    case INTEGER => "0"
    case REAL => "0.0"
    case _ => "''"
  }

  /** Boxing is idempotent, so a primitive and its wrapper class map alike. */
  lemma BoxIdempotent(typeName: string)
    ensures Box(Box(typeName)) == Box(typeName)
  {
  }

  lemma PrimitiveMapsLikeWrapper(typeName: string)
    ensures ToSqlType(typeName) == ToSqlType(Box(typeName))
  {
    BoxIdempotent(typeName);
  }

  /** Exactly six boxed types have a mapping; every other type, including
      Short, Byte, Character, Void and any enum or class, has none. */
  lemma MappedTypesAreExactlySix(typeName: string)
    ensures ToSqlType(typeName).Some? <==>
      Box(typeName) in {"java.lang.String", "java.lang.Double", "java.lang.Float",
                        "java.lang.Integer", "java.lang.Boolean", "java.lang.Long"}
  {
  }

  /** The primitive keywords stored as INTEGER. */
  lemma IntegerPrimitives()
    ensures ToSqlType("int") == ToSqlType("java.lang.Integer") == Some(INTEGER)
    ensures ToSqlType("long") == ToSqlType("java.lang.Long") == Some(INTEGER)
    ensures ToSqlType("boolean") == ToSqlType("java.lang.Boolean") == Some(INTEGER)
  {
  }

  /** The primitive keywords stored as REAL. */
  lemma RealPrimitives()
    ensures ToSqlType("double") == ToSqlType("java.lang.Double") == Some(REAL)
    ensures ToSqlType("float") == ToSqlType("java.lang.Float") == Some(REAL)
  {
  }

  /** The primitive keywords with no column type at all. */
  lemma UnmappedPrimitives()
    ensures ToSqlType("short") == ToSqlType("java.lang.Short") == None
    ensures ToSqlType("byte") == ToSqlType("java.lang.Byte") == None
    ensures ToSqlType("char") == ToSqlType("java.lang.Character") == None
  {
  }
}
