/** The table-definition helpers of `ReflectivePersistenceManager`:
    `javaTypeToSQLType`, `getFieldDefinitions`, `getForeignKeyConstraints`
    and `buildCreateTableSQL`. Nothing calls them at run time (their only
    call site, in `createTables`, is commented out), so they are modelled
    on their own. */
module Ddl {
  import opened Metadata
  import SqlText

  /** `javaTypeToSQLType`: `int` and `long` are INTEGER, `double` and
      `float` are REAL, everything else (String included) is TEXT. */
  function JavaTypeToSqlType(k: Kind): (r: string)
    ensures r == "INTEGER" <==> k == IntKind || k == LongKind
    ensures r == "REAL" <==> k == DoubleKind || k == FloatKind
    ensures r == "TEXT" <==> !(k == IntKind || k == LongKind || k == DoubleKind || k == FloatKind)
  {
    if k == IntKind || k == LongKind then "INTEGER"
    else if k == DoubleKind || k == FloatKind then "REAL"
    else if k == StringKind then "TEXT"
    else "TEXT"
  }

  const PrimaryKey := " PRIMARY KEY AUTOINCREMENT"

  /** The column type `getFieldDefinitions` gives a field: INTEGER for an
      entity reference, otherwise `javaTypeToSQLType`. */
  function ColumnType(k: Kind): (r: string) {
    if IsEntityField(k) then "INTEGER" else JavaTypeToSqlType(k)
  }

  /** One entry of `getFieldDefinitions`: `"name" TYPE`, and the key
      suffix on the field named `id`. */
  function FieldDefinition(f: FieldDecl): (r: string) {
    "\"" + f.name + "\" " + ColumnType(f.kind) + (if f.name == "id" then PrimaryKey else "")
  }

  /** `getFieldDefinitions`: one definition per declared field, in
      declaration order. */
  method GetFieldDefinitions(fs: seq<FieldDecl>) returns (defs: seq<string>)
    ensures |defs| == |fs|
    ensures forall i :: 0 <= i < |fs| ==> defs[i] == FieldDefinition(fs[i])
  {
    defs := [];
    var i := 0;
    while i < |fs|
      invariant 0 <= i <= |fs| && |defs| == i
      invariant forall j :: 0 <= j < i ==> defs[j] == FieldDefinition(fs[j])
    {
      var f := fs[i];
      var fieldType := if IsEntityField(f.kind) then "INTEGER" else JavaTypeToSqlType(f.kind);
      var fieldDef := "\"" + f.name + "\" " + fieldType;
      if f.name == "id" {
        fieldDef := fieldDef + PrimaryKey;
      }
      defs := defs + [fieldDef];
      i := i + 1;
    }
  }

  /** The suffix test: `s` ends with `t`. */
  predicate EndsWith(s: string, t: string) {
    |t| <= |s| && s[|s| - |t|..] == t
  }

  /** A definition starts with the quoted field name and a space, its
      type is INTEGER for an entity reference (a Collection is not one and
      gets TEXT), and it ends with the key suffix exactly when the field is
      `id`. */
  lemma FieldDefinitionShape(f: FieldDecl)
    ensures var d := FieldDefinition(f);
            && d[..|f.name| + 3] == SqlText.Quote(f.name) + " "
            && (EndsWith(d, PrimaryKey) <==> f.name == "id")
    ensures IsEntityField(f.kind) ==> ColumnType(f.kind) == "INTEGER"
    ensures f.kind == CollectionKind ==> ColumnType(f.kind) == "TEXT"
  {
    var d := FieldDefinition(f);
    var ty := ColumnType(f.kind);
    var head := "\"" + f.name + "\" " + ty;
    assert d[..|f.name| + 3] == SqlText.Quote(f.name) + " " by {
      assert d == ("\"" + f.name + "\" ") + (ty + (if f.name == "id" then PrimaryKey else ""));
    }
    if f.name != "id" {
      // a definition without the suffix ends in INTEGER, REAL or TEXT,
      // whose fourth-last letter is not the suffix's
      assert d == head && |head| >= |PrimaryKey| ==> d[|d| - |PrimaryKey|..][|PrimaryKey| - 4] == ty[|ty| - 4];
      assert ty[|ty| - 4] != PrimaryKey[|PrimaryKey| - 4];
    } else {
      assert d == head + PrimaryKey;
    }
  }

  /** The foreign key `getForeignKeyConstraints` declares for an entity
      field: its column references the `id` of the table named by the
      field's class, unquoted. */
  function ForeignKey(f: FieldDecl): (r: string)
    requires IsEntityField(f.kind)
  {
    "FOREIGN KEY (\"" + f.name + "\") REFERENCES " + f.kind.name + "(id)"
  }

  /** The foreign keys of a field list, in declaration order. */
  function ForeignKeys(fs: seq<FieldDecl>): (r: seq<string>)
    ensures |r| <= |fs|
  {
    if fs == [] then []
    else
      var n := |fs| - 1;
      ForeignKeys(fs[..n]) + (if IsEntityField(fs[n].kind) then [ForeignKey(fs[n])] else [])
  }

  /** The foreign keys name exactly the entity fields: every entity field
      has its key in the list, and every entry is such a key. */
  lemma {:induction false} ForeignKeysMembers(fs: seq<FieldDecl>)
    ensures forall i :: 0 <= i < |fs| && IsEntityField(fs[i].kind) ==> ForeignKey(fs[i]) in ForeignKeys(fs)
    ensures forall c :: c in ForeignKeys(fs) ==>
              exists i :: 0 <= i < |fs| && IsEntityField(fs[i].kind) && c == ForeignKey(fs[i])
  {
    if fs != [] {
      var n := |fs| - 1;
      var init := fs[..n];
      ForeignKeysMembers(init);
      forall i | 0 <= i < n
        ensures init[i] == fs[i]
      {
      }
      forall c | c in ForeignKeys(fs)
        ensures exists i :: 0 <= i < |fs| && IsEntityField(fs[i].kind) && c == ForeignKey(fs[i])
      {
        if c in ForeignKeys(init) {
          var i :| 0 <= i < n && IsEntityField(init[i].kind) && c == ForeignKey(init[i]);
          assert fs[i] == init[i];
        }
      }
    }
  }

  /** `getForeignKeyConstraints`: the foreign key of every entity field, in
      declaration order. */
  method GetForeignKeyConstraints(fs: seq<FieldDecl>) returns (fks: seq<string>)
    ensures fks == ForeignKeys(fs)
  {
    fks := [];
    var i := 0;
    while i < |fs|
      invariant 0 <= i <= |fs| && fks == ForeignKeys(fs[..i])
    {
      var f := fs[i];
      assert fs[..i + 1][..i] == fs[..i];
      if IsEntityField(f.kind) {
        var fkConstraint := "FOREIGN KEY (\"" + f.name + "\") REFERENCES " + f.kind.name + "(id)";
        fks := fks + [fkConstraint];
      }
      i := i + 1;
    }
    assert fs[..i] == fs;
  }

  const CreatePrefix := "CREATE TABLE IF NOT EXISTS "

  /** `buildCreateTableSQL`: the quoted table name, the definitions joined
      by commas and, only when there are any, the foreign keys after one
      more comma. */
  function BuildCreateTableSql(table: string, defs: seq<string>, fks: seq<string>): (r: string)
    ensures var h := CreatePrefix + SqlText.Quote(table) + " (";
            |r| >= |h| + 2 && r[..|h|] == h && r[|r| - 2..] == ");"
  {
    var fieldDefs := SqlText.Join(", ", defs);
    var foreignKeys := SqlText.Join(", ", fks);
    CreatePrefix + "\"" + table + "\"" + " (" + fieldDefs + (if fks != [] then ", " + foreignKeys else "") + ");"
  }

  /** With at least one definition the column part is the join of the
      definitions followed by the foreign keys, as one list. */
  lemma CreateTableJoinsAll(table: string, defs: seq<string>, fks: seq<string>)
    requires defs != []
    ensures BuildCreateTableSql(table, defs, fks) ==
              CreatePrefix + SqlText.Quote(table) + " (" + SqlText.Join(", ", defs + fks) + ");"
  {
    if fks != [] {
      SqlText.JoinAppend(", ", defs, fks);
    } else {
      assert defs + fks == defs;
    }
  }

  /** Foreign keys without any definition leave a comma right after the
      opening parenthesis. */
  lemma CreateTableWithoutDefinitions(table: string, fks: seq<string>)
    requires fks != []
    ensures BuildCreateTableSql(table, [], fks) ==
              CreatePrefix + SqlText.Quote(table) + " (, " + SqlText.Join(", ", fks) + ");"
  {
  }
}
