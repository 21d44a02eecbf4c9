/** The annotation processor's DDL builder, `Processor.process`: for each
    class annotated with `@Table` it builds one CREATE TABLE statement from
    the enclosed elements annotated with `@Column`. The compiler's element
    and type objects become plain records. */
module Processor {
  import opened Wrappers
  import opened Metadata
  import Ddl

  /** The attributes of a `@Column` annotation. */
  datatype ColumnAnnotation = ColumnAnnotation(name: string, nullable: bool, unique: bool)

  /** An enclosed element of a `@Table` class: its simple name, its type,
      whether it carries `@Id`, and its `@Column` annotation if it has one. */
  datatype Member = Member(simpleName: string, kind: Kind, isId: bool, column: Option<ColumnAnnotation>)

  /** A class annotated with `@Table`: its simple name, the annotation's
      `name()` (empty by default) and its enclosed elements in order. */
  datatype TableClass = TableClass(simpleName: string, tableName: string, members: seq<Member>)

  /** `javaTypeToSQLType` of the processor: `int` is INTEGER, `float` and
      `double` are REAL, every other type (`long` and entity types
      included) is TEXT. */
  function SqlType(k: Kind): (r: string)
    ensures r == "INTEGER" <==> k == IntKind
    ensures r == "REAL" <==> k == FloatKind || k == DoubleKind
    ensures r == "TEXT" <==> !(k == IntKind || k == FloatKind || k == DoubleKind)
  {
    if k == IntKind then "INTEGER"
    else if k == FloatKind then "REAL"
    else if k == DoubleKind then "REAL"
    else if k == StringKind then "TEXT"
    else "TEXT"
  }

  /** The two type mappings of the project disagree on `long` and nowhere
      else: the runtime's makes it INTEGER, the processor's TEXT. */
  lemma TypeMappingsDiffer(k: Kind)
    ensures SqlType(k) != Ddl.JavaTypeToSqlType(k) <==> k == LongKind
  {
  }

  /** `getTableName`: the annotation's name unless it is empty, else the
      class's simple name; never quoted. */
  function GetTableName(c: TableClass): (r: string) {
    if c.tableName == "" then c.simpleName else c.tableName
  }

  /** The processor's table name is the `@Table` name when that is not
      empty and the simple class name otherwise, so it is empty exactly
      when both are. */
  lemma GetTableNameCases(c: TableClass)
    ensures var r := GetTableName(c);
            && (r == c.tableName || r == c.simpleName)
            && (c.tableName != "" ==> r == c.tableName)
            && (r == "" <==> c.tableName == "" && c.simpleName == "")
  {
  }

  const PrimaryKeyPart := " PRIMARY KEY AUTOINCREMENT, "
  const UniquePart := " UNIQUE, "
  const NotNullPart := " NOT NULL, "

  /** The key fragment of a column: the primary key for an `@Id` member,
      otherwise UNIQUE when the annotation asks for it; `@Id` wins over
      `unique`. */
  function KeyPart(m: Member): (r: string)
    requires m.column.Some?
    ensures r == PrimaryKeyPart <==> m.isId
    ensures r == UniquePart <==> !m.isId && m.column.value.unique
    ensures r == "" <==> !m.isId && !m.column.value.unique
  {
    if m.isId then PrimaryKeyPart else if m.column.value.unique then UniquePart else ""
  }

  /** The NOT NULL fragment, present exactly when `nullable` is false,
      whatever the key fragment is. */
  function NullPart(m: Member): (r: string)
    requires m.column.Some?
    ensures r == NotNullPart <==> !m.column.value.nullable
    ensures r == "" <==> m.column.value.nullable
  {
    if !m.column.value.nullable then NotNullPart else ""
  }

  /** The text one `@Column` member appends: its simple name, a space, its
      SQL type and a comma, then the key and NOT NULL fragments. */
  function Fragment(m: Member): (r: string)
    requires m.column.Some?
  {
    m.simpleName + " " + SqlType(m.kind) + ", " + KeyPart(m) + NullPart(m)
  }

  /** Every fragment starts with the member's simple name, a space, its
      SQL type and `", "`, whatever key and NOT NULL parts follow. */
  lemma FragmentStart(m: Member)
    requires m.column.Some?
    ensures var r, n, t := Fragment(m), |m.simpleName|, SqlType(m.kind);
            && |r| >= n + 1 + |t| + 2
            && r[..n + 1] == m.simpleName + " " && r[n + 1..n + 1 + |t|] == t && r[n + 1 + |t|..n + 3 + |t|] == ", "
  {
  }

  /** The text one member appends: its fragment when it has `@Column`,
      nothing otherwise. */
  function Part(m: Member): (r: string) {
    if m.column.Some? then Fragment(m) else ""
  }

  /** The text the members append, in order; members without `@Column`
      append nothing. */
  function ColumnsText(ms: seq<Member>): (r: string) {
    if ms == [] then ""
    else
      var n := |ms| - 1;
      ColumnsText(ms[..n]) + Part(ms[n])
  }

  predicate HasColumn(ms: seq<Member>) {
    exists i :: 0 <= i < |ms| && ms[i].column.Some?
  }

  /** `p` occurs in `s` at position `j`. */
  predicate OccursAt(s: string, p: string, j: int) {
    0 <= j && j + |p| <= |s| && s[j..j + |p|] == p
  }

  /** `lastIndexOf`: the last position where `p` occurs in `s`, or -1. */
  function LastIndexOf(s: string, p: string): (r: int)
    ensures r == -1 || OccursAt(s, p, r)
    ensures r == -1 <==> forall j :: 0 <= j <= |s| - |p| ==> !OccursAt(s, p, j)
    ensures forall j :: r < j <= |s| - |p| ==> !OccursAt(s, p, j)
    decreases |s|
  {
    if |s| < |p| then -1
    else if s[|s| - |p|..] == p then |s| - |p|
    else
      var s' := s[..|s| - 1];
      forall j | 0 <= j <= |s'| - |p| ensures OccursAt(s', p, j) <==> OccursAt(s, p, j) {
        OccursInPrefix(s, p, j);
      }
      LastIndexOf(s', p)
  }

  /** An occurrence that ends before the last character is one in the
      text without it. */
  lemma OccursInPrefix(s: string, p: string, j: int)
    requires 0 <= j && j + |p| < |s|
    ensures OccursAt(s[..|s| - 1], p, j) <==> OccursAt(s, p, j)
  {
    assert s[..|s| - 1][j..j + |p|] == s[j..j + |p|];
  }

  const CreatePrefix := "CREATE TABLE IF NOT EXISTS "

  /** The text `process` starts a statement with. */
  function Head(c: TableClass): (r: string) {
    CreatePrefix + GetTableName(c) + " ("
  }

  /** How `process` closes a statement: one trailing two-character
      separator is removed when `", "` occurs past the first character,
      then `);` is appended. */
  function Finish(q: string): (r: string) {
    (if LastIndexOf(q, ", ") > 0 then q[..|q| - 2] else q) + ");"
  }

  /** What `process` writes for one class: the head and the members' text,
      closed. */
  function Query(c: TableClass): (r: string) {
    Finish(Head(c) + ColumnsText(c.members))
  }

  /** One member of the `process` loop: a member with `@Column` appends
      its fragment piece by piece, any other member appends nothing. */
  method AppendMember(q: string, e: Member) returns (q': string)
    ensures q' == q + Part(e)
  {
    q' := q;
    if e.column.Some? {
      var columnAnnotation := e.column.value;
      ghost var typed := e.simpleName + " " + SqlType(e.kind) + ", ";
      q' := q' + e.simpleName + " ";
      q' := q' + SqlType(e.kind) + ", ";
      assert q' == q + typed;
      ghost var key := KeyPart(e);
      ghost var keyed := q';
      if e.isId {
        q' := q' + PrimaryKeyPart;
      } else if columnAnnotation.unique {
        q' := q' + UniquePart;
      }
      assert q' == keyed + key;
      ghost var nul := NullPart(e);
      ghost var nulled := q';
      if !columnAnnotation.nullable {
        q' := q' + NotNullPart;
      }
      assert q' == nulled + nul;
      Associative(q, typed, key);
      Associative(q, typed + key, nul);
    }
  }

  /** The loop of `process` over the members of `c` has handled the
      first `i` of them, and `q` is the head followed by their text. */
  ghost predicate Built(c: TableClass, i: int, q: string) {
    0 <= i <= |c.members| && q == Head(c) + ColumnsText(c.members[..i])
  }

  lemma BuiltStep(c: TableClass, i: int, q: string, q': string)
    requires i < |c.members| && Built(c, i, q) && q' == q + Part(c.members[i])
    ensures Built(c, i + 1, q')
  {
    ColumnsTextStep(Head(c), c.members, i);
  }

  /** Appending the next member's text extends the handled prefix by one. */
  lemma ColumnsTextStep(h: string, ms: seq<Member>, i: int)
    requires 0 <= i < |ms|
    ensures h + ColumnsText(ms[..i]) + Part(ms[i]) == h + ColumnsText(ms[..i + 1])
  {
    assert ms[..i + 1][..i] == ms[..i];
    var a := ColumnsText(ms[..i]);
    assert ColumnsText(ms[..i + 1]) == a + Part(ms[i]);
    Associative(h, a, Part(ms[i]));
  }

  lemma Associative(x: string, y: string, z: string)
    ensures x + y + z == x + (y + z)
  {
  }

  /** The body of the outer loop of `process` for one class. */
  method ProcessTable(c: TableClass) returns (query: string)
    ensures query == Query(c)
  {
    var q := CreatePrefix + GetTableName(c) + " (";
    assert Built(c, 0, q);
    var i := 0;
    while i < |c.members|
      invariant Built(c, i, q)
    {
      ghost var before := q;
      q := AppendMember(q, c.members[i]);
      BuiltStep(c, i, before, q);
      i := i + 1;
    }
    BuiltDone(c, q);
    ghost var full := q;
    if LastIndexOf(q, ", ") > 0 {
      q := q[..|q| - 2];
    }
    query := q + ");";
    assert query == Finish(full);
  }

  lemma BuiltDone(c: TableClass, q: string)
    requires Built(c, |c.members|, q)
    ensures Finish(q) == Query(c)
  {
    assert c.members[..|c.members|] == c.members;
  }

  /** `process`: the statements handed to `writeSQLToFile`, one per
      annotated class, in the order the round lists them. */
  method Process(cs: seq<TableClass>) returns (written: seq<string>)
    ensures |written| == |cs|
    ensures forall i :: 0 <= i < |cs| ==> written[i] == Query(cs[i])
  {
    written := [];
    var i := 0;
    while i < |cs|
      invariant Written(cs, i, written)
    {
      var query := ProcessTable(cs[i]);
      WrittenStep(cs, i, written, query);
      written := written + [query];
      i := i + 1;
    }
  }

  /** The loop of `process` over the classes has written the statements
      of the first `i` of them, in order. */
  ghost predicate Written(cs: seq<TableClass>, i: int, written: seq<string>) {
    0 <= i <= |cs| && |written| == i && forall j :: 0 <= j < i ==> written[j] == Query(cs[j])
  }

  lemma WrittenStep(cs: seq<TableClass>, i: int, written: seq<string>, query: string)
    requires i < |cs| && Written(cs, i, written) && query == Query(cs[i])
    ensures Written(cs, i + 1, written + [query])
  {
    var w := written + [query];
    forall j | 0 <= j < i + 1 ensures w[j] == Query(cs[j]) {
      if j < i {
        assert w[j] == written[j];
      }
    }
  }

  // ---------------------------------------------------------------------
  // Properties of the statement

  /** The members' text is built member by member in enclosed-element
      order: it splits over concatenation, and a single member contributes
      its fragment exactly when it has `@Column`. */
  lemma {:induction false} ColumnsTextAppend(ms1: seq<Member>, ms2: seq<Member>)
    ensures ColumnsText(ms1 + ms2) == ColumnsText(ms1) + ColumnsText(ms2)
    decreases |ms2|
  {
    if ms2 != [] {
      var n := |ms2| - 1;
      var ms := ms1 + ms2;
      assert ms[..|ms1| + n] == ms1 + ms2[..n];
      assert ms[|ms| - 1] == ms2[n];
      assert ColumnsText(ms) == ColumnsText(ms1 + ms2[..n]) + Part(ms2[n]);
      ColumnsTextAppend(ms1, ms2[..n]);
      assert ColumnsText(ms2) == ColumnsText(ms2[..n]) + Part(ms2[n]);
      Associative(ColumnsText(ms1), ColumnsText(ms2[..n]), Part(ms2[n]));
    } else {
      assert ms1 + ms2 == ms1;
    }
  }

  lemma ColumnsTextSingle(m: Member)
    ensures ColumnsText([m]) == Part(m)
  {
    assert [m][..0] == [];
  }

  /** `s` ends in the separator `", "` after a character that is not a
      space. */
  predicate EndsInSeparator(s: string) {
    |s| >= 3 && s[|s| - 2..] == ", " && s[|s| - 3] != ' '
  }

  lemma SeparatorEndAppend(x: string, y: string)
    requires EndsInSeparator(y)
    ensures EndsInSeparator(x + y)
  {
    assert (x + y)[|x + y| - 2..] == y[|y| - 2..];
    assert (x + y)[|x + y| - 3] == y[|y| - 3];
  }

  /** A fragment ends in the separator, after the last letter of a type or
      of a constraint. */
  lemma FragmentEnd(m: Member)
    requires m.column.Some?
    ensures EndsInSeparator(Fragment(m))
  {
    var t := SqlType(m.kind);
    assert EndsInSeparator(t + ", ");
    var typed := m.simpleName + " " + t + ", ";
    assert typed == (m.simpleName + " ") + (t + ", ");
    SeparatorEndAppend(m.simpleName + " ", t + ", ");
    var key := KeyPart(m);
    var nul := NullPart(m);
    assert Fragment(m) == (typed + key) + nul;
    if nul != "" {
      assert EndsInSeparator(NotNullPart);
      SeparatorEndAppend(typed + key, nul);
    } else if key != "" {
      assert EndsInSeparator(PrimaryKeyPart) && EndsInSeparator(UniquePart);
      SeparatorEndAppend(typed, key);
      assert Fragment(m) == typed + key;
    } else {
      assert Fragment(m) == typed;
    }
  }

  /** With at least one `@Column` member the members' text ends in the
      separator after a character that is not a space. */
  lemma {:induction false} ColumnsTextEnd(ms: seq<Member>)
    requires HasColumn(ms)
    ensures EndsInSeparator(ColumnsText(ms))
  {
    var n := |ms| - 1;
    var rest := ColumnsText(ms[..n]);
    if ms[n].column.Some? {
      FragmentEnd(ms[n]);
      SeparatorEndAppend(rest, Fragment(ms[n]));
    } else {
      var i :| 0 <= i < |ms| && ms[i].column.Some?;
      assert ms[..n][i] == ms[i];
      ColumnsTextEnd(ms[..n]);
      assert ColumnsText(ms) == rest;
    }
  }

  /** With at least one `@Column` member the statement is the head, the
      members' text without its last separator, and `);`: exactly one
      trailing `", "` is removed, so it never ends in `, );`. */
  lemma QueryWithColumns(c: TableClass)
    requires HasColumn(c.members)
    ensures var t := ColumnsText(c.members);
            && |t| >= 2 && t[|t| - 2..] == ", "
            && Query(c) == CreatePrefix + GetTableName(c) + " (" + t[..|t| - 2] + ");"
    ensures var r := Query(c); |r| >= 4 && r[|r| - 4..] != ", );"
  {
    ColumnsTextEnd(c.members);
    FinishAfterSeparator(Head(c), ColumnsText(c.members));
    var r := Query(c);
    assert r[|r| - 4..][1] == r[|r| - 3];
  }

  /** Closing a text that ends in the separator removes exactly that
      separator. */
  lemma FinishAfterSeparator(h: string, t: string)
    requires EndsInSeparator(t)
    ensures Finish(h + t) == h + t[..|t| - 2] + ");"
    ensures var r := Finish(h + t); |r| == |h| + |t| && r[|r| - 3] != ' '
  {
    var q := h + t;
    assert OccursAt(q, ", ", |q| - 2) by {
      assert q[|q| - 2..] == t[|t| - 2..];
    }
    assert LastIndexOf(q, ", ") == |q| - 2;
    assert q[..|q| - 2] == h + t[..|t| - 2];
    var r := Finish(q);
    assert r[|r| - 3] == t[|t| - 3];
  }

  /** The fixed prefix holds no comma. */
  lemma PrefixHasNoComma()
    ensures forall j :: 0 <= j < |CreatePrefix| ==> CreatePrefix[j] != ','
  {
  }

  /** Closing a text keeps a comma-free prefix of it and ends in `);`. */
  lemma FinishFrame(p: string, rest: string)
    requires forall j :: 0 <= j < |p| ==> p[j] != ','
    ensures var r := Finish(p + rest); |r| >= |p| + 2 && r[..|p|] == p && r[|r| - 2..] == ");"
  {
    var q := p + rest;
    forall j | 0 <= j < |p| ensures !OccursAt(q, ", ", j) {
      assert q[j] == p[j];
    }
    if LastIndexOf(q, ", ") > 0 {
      assert q[..|q| - 2][..|p|] == p;
    }
  }

  /** Every statement starts with `CREATE TABLE IF NOT EXISTS ` and ends
      with `);`; the deletion never reaches into the fixed prefix. */
  lemma QueryFrame(c: TableClass)
    ensures var r := Query(c);
            && |r| >= |CreatePrefix| + 2
            && r[..|CreatePrefix|] == CreatePrefix
            && r[|r| - 2..] == ");"
  {
    var name, text := GetTableName(c), ColumnsText(c.members);
    Associative(CreatePrefix + name, " (", text);
    Associative(CreatePrefix, name, " (" + text);
    Associative(name, " (", text);
    PrefixHasNoComma();
    FinishFrame(CreatePrefix, name + " (" + text);
  }

  /** Closing a text without commas deletes nothing. */
  lemma FinishWithoutComma(q: string)
    requires forall j :: 0 <= j < |q| ==> q[j] != ','
    ensures Finish(q) == q + ");"
  {
    forall j | 0 <= j <= |q| - 2 ensures !OccursAt(q, ", ", j) {
      assert q[j..j + 2][0] == q[j];
    }
  }

  /** Without `@Column` members and with a table name free of commas the
      statement is an empty column list: nothing is deleted. */
  lemma QueryWithoutColumns(c: TableClass)
    requires !HasColumn(c.members)
    requires forall k :: 0 <= k < |GetTableName(c)| ==> GetTableName(c)[k] != ','
    ensures Query(c) == CreatePrefix + GetTableName(c) + " ();"
  {
    ColumnsTextEmpty(c.members);
    var name := GetTableName(c);
    var q := CreatePrefix + name + " (";
    assert Head(c) + ColumnsText(c.members) == q;
    PrefixHasNoComma();
    forall j | 0 <= j < |q| ensures q[j] != ',' {
      if j < |CreatePrefix| {
        assert q[j] == CreatePrefix[j];
      } else if j < |CreatePrefix| + |name| {
        assert q[j] == name[j - |CreatePrefix|];
      } else {
        assert q[j] == " ("[j - |CreatePrefix| - |name|];
      }
    }
    FinishWithoutComma(q);
  }

  lemma {:induction false} ColumnsTextEmpty(ms: seq<Member>)
    ensures ColumnsText(ms) == "" <==> !HasColumn(ms)
  {
    if ms != [] {
      var n := |ms| - 1;
      ColumnsTextEmpty(ms[..n]);
      HasColumnSnoc(ms);
    }
  }

  /** A non-empty sequence of members has a `@Column` member exactly when
      the members before the last have one or the last has one. */
  lemma HasColumnSnoc(ms: seq<Member>)
    requires ms != []
    ensures HasColumn(ms) <==> HasColumn(ms[..|ms| - 1]) || ms[|ms| - 1].column.Some?
  {
    var n := |ms| - 1;
    if HasColumn(ms) && ms[n].column.None? {
      var i :| 0 <= i < |ms| && ms[i].column.Some?;
      assert ms[..n][i] == ms[i];
    }
    if HasColumn(ms[..n]) {
      var i :| 0 <= i < n && ms[..n][i].column.Some?;
      assert ms[i] == ms[..n][i];
    }
  }

  /** As written, a class without `@Column` members whose table name
      holds `", "` loses its opening parenthesis: the deletion meant for a
      trailing separator removes `" ("` instead. */
  lemma CommaInTableName(c: TableClass, k: int)
    requires !HasColumn(c.members) && OccursAt(GetTableName(c), ", ", k)
    ensures Query(c) == CreatePrefix + GetTableName(c) + ");"
  {
    ColumnsTextEmpty(c.members);
    var name := GetTableName(c);
    var q := CreatePrefix + name + " (";
    assert Head(c) + ColumnsText(c.members) == q;
    assert q[|CreatePrefix| + k..|CreatePrefix| + k + 2] == name[k..k + 2];
    assert OccursAt(q, ", ", |CreatePrefix| + k);
    FinishCases(q);
    assert q[..|q| - 2] == CreatePrefix + name;
  }

  /** Closing removes the last two characters, whatever they are, exactly
      when `", "` occurs past the first character, and otherwise only
      appends `);`. */
  lemma FinishCases(q: string)
    ensures (exists j :: 1 <= j && OccursAt(q, ", ", j)) ==> |q| >= 2 && Finish(q) == q[..|q| - 2] + ");"
    ensures (forall j :: 1 <= j ==> !OccursAt(q, ", ", j)) ==> Finish(q) == q + ");"
  {
  }

  /** Members that agree on everything but `@Column.name` give the same
      fragment: the column is always named by the member's simple name. */
  predicate SameButColumnName(m: Member, m': Member) {
    && m.simpleName == m'.simpleName && m.kind == m'.kind && m.isId == m'.isId
    && m.column.Some? == m'.column.Some?
    && (m.column.Some? ==> m.column.value.nullable == m'.column.value.nullable
                           && m.column.value.unique == m'.column.value.unique)
  }

  lemma {:induction false} ColumnNameIgnored(ms: seq<Member>, ms': seq<Member>)
    requires |ms| == |ms'| && forall i :: 0 <= i < |ms| ==> SameButColumnName(ms[i], ms'[i])
    ensures ColumnsText(ms) == ColumnsText(ms')
  {
    if ms != [] {
      var n := |ms| - 1;
      forall i | 0 <= i < n ensures SameButColumnName(ms[..n][i], ms'[..n][i]) {
        assert ms[..n][i] == ms[i] && ms'[..n][i] == ms'[i];
      }
      ColumnNameIgnored(ms[..n], ms'[..n]);
      assert SameButColumnName(ms[n], ms'[n]);
    }
  }
}
