/** The SQL text of the statements the manager issues, and the fact that
    each carries exactly as many `?` placeholders as values are bound to it. */
module SqlText {

  /** An identifier in double quotes. */
  function Quote(name: string): (r: string)
    ensures |r| == |name| + 2 && r[0] == '"' && r[|r| - 1] == '"' && r[1..|r| - 1] == name
  {
    "\"" + name + "\""
  }

  /** `String.join(sep, xs)`. */
  function Join(sep: string, xs: seq<string>): (r: string) {
    if |xs| == 0 then ""
    else if |xs| == 1 then xs[0]
    else Join(sep, xs[..|xs| - 1]) + sep + xs[|xs| - 1]
  }

  function QuoteAll(cols: seq<string>): (r: seq<string>)
    ensures |r| == |cols| && forall i :: 0 <= i < |cols| ==> r[i] == Quote(cols[i])
  {
    seq(|cols|, i requires 0 <= i < |cols| => Quote(cols[i]))
  }

  function Assignments(cols: seq<string>): (r: seq<string>)
    ensures |r| == |cols| && forall i :: 0 <= i < |cols| ==> r[i] == Quote(cols[i]) + " = ?"
  {
    if cols == [] then [] else Assignments(cols[..|cols| - 1]) + [Quote(cols[|cols| - 1]) + " = ?"]
  }

  /** One more element on the right of a join. */
  lemma JoinSnoc(sep: string, xs: seq<string>, x: string)
    ensures Join(sep, xs + [x]) == if xs == [] then x else Join(sep, xs) + sep + x
  {
    assert (xs + [x])[..|xs|] == xs;
  }

  /** Joining two non-empty lists is joining each and putting the
      separator between. */
  lemma {:induction false} JoinAppend(sep: string, xs: seq<string>, ys: seq<string>)
    requires xs != [] && ys != []
    ensures Join(sep, xs + ys) == Join(sep, xs) + sep + Join(sep, ys)
    decreases |ys|
  {
    var n := |ys| - 1;
    if n == 0 {
      JoinSnoc(sep, xs, ys[0]);
      assert xs + ys == xs + [ys[0]];
    } else {
      var init := ys[..n];
      assert xs + ys == (xs + init) + [ys[n]];
      assert ys == init + [ys[n]];
      JoinSnoc(sep, xs + init, ys[n]);
      JoinSnoc(sep, init, ys[n]);
      JoinAppend(sep, xs, init);
    }
  }

  /** The column list of an INSERT: `"a", "b"`. */
  function ColumnList(cols: seq<string>): (r: string)
    ensures cols == [] ==> r == ""
  {
    Join(", ", QuoteAll(cols))
  }

  /** The value list of an INSERT: `?, ?`, one `?` per column. */
  function PlaceholderList(n: nat): (r: string)
    ensures n == 0 ==> r == ""
  {
    if n == 0 then "" else if n == 1 then "?" else PlaceholderList(n - 1) + ", " + "?"
  }

  /** The SET list of an UPDATE: `"a" = ?, "b" = ?`. */
  function AssignmentList(cols: seq<string>): (r: string)
    ensures cols == [] ==> r == ""
  {
    Join(", ", Assignments(cols))
  }

  lemma ColumnListSnoc(cols: seq<string>, c: string)
    ensures ColumnList(cols + [c]) == if cols == [] then Quote(c) else ColumnList(cols) + ", " + Quote(c)
  {
    assert QuoteAll(cols + [c]) == QuoteAll(cols) + [Quote(c)];
    JoinSnoc(", ", QuoteAll(cols), Quote(c));
  }

  lemma PlaceholderListSnoc(n: nat)
    ensures PlaceholderList(n + 1) == if n == 0 then "?" else PlaceholderList(n) + ", " + "?"
  {
  }

  lemma AssignmentListSnoc(cols: seq<string>, c: string)
    ensures AssignmentList(cols + [c]) == if cols == [] then Quote(c) + " = ?" else AssignmentList(cols) + ", " + (Quote(c) + " = ?")
  {
    assert (cols + [c])[..|cols|] == cols;
    assert Assignments(cols + [c]) == Assignments(cols) + [Quote(c) + " = ?"];
    JoinSnoc(", ", Assignments(cols), Quote(c) + " = ?");
  }

  /** The filter that keys a statement by its last placeholder. */
  const KeyFilter := " WHERE id = ?"

  /** The INSERT of `insertEntity`: into `table`, naming the columns and
      closing the list of placeholders. */
  function InsertSql(table: string, cols: seq<string>): (r: string)
    ensures var h := "INSERT INTO " + table + " (";
            |r| >= |h| + 1 && r[..|h|] == h && r[|r| - 1] == ')'
  {
    "INSERT INTO " + table + " (" + ColumnList(cols) + ") VALUES (" + PlaceholderList(|cols|) + ")"
  }

  /** The UPDATE of `updateEntity`: of `table`, keyed by the last
      placeholder. */
  function UpdateSql(table: string, cols: seq<string>): (r: string)
    ensures var h := "UPDATE " + table + " SET ";
            |r| >= |h| + |KeyFilter| && r[..|h|] == h && r[|r| - |KeyFilter|..] == KeyFilter
  {
    "UPDATE " + table + " SET " + AssignmentList(cols) + " WHERE id = ?"
  }

  /** The keyed SELECT of `get`: every column of `table`, keyed. */
  function SelectByIdSql(table: string): (r: string)
    ensures var h := "SELECT * FROM " + table;
            |r| == |h| + |KeyFilter| && r[..|h|] == h && r[|h|..] == KeyFilter
  {
    "SELECT * FROM " + table + " WHERE id = ?"
  }

  /** The SELECT of `getAll`: every column of `table`, unfiltered. */
  function SelectAllSql(table: string): (r: string)
    ensures |r| == 14 + |table| && r[..14] == "SELECT * FROM " && r[14..] == table
  {
    "SELECT * FROM " + table
  }

  /** The DELETE of `delete`: from `table`, keyed. */
  function DeleteSql(table: string): (r: string)
    ensures var h := "DELETE FROM " + table;
            |r| == |h| + |KeyFilter| && r[..|h|] == h && r[|h|..] == KeyFilter
  {
    "DELETE FROM " + table + " WHERE id = ?"
  }

  /** How many times `c` occurs in `s`. */
  function Count(c: char, s: string): (n: nat) {
    if s == [] then 0 else Count(c, s[..|s| - 1]) + (if s[|s| - 1] == c then 1 else 0)
  }

  function CountAll(c: char, xs: seq<string>): (n: nat) {
    if xs == [] then 0 else CountAll(c, xs[..|xs| - 1]) + Count(c, xs[|xs| - 1])
  }

  lemma {:induction false} CountConcat(c: char, a: string, b: string)
    ensures Count(c, a + b) == Count(c, a) + Count(c, b)
    decreases |b|
  {
    if b != [] {
      assert (a + b)[..|a + b| - 1] == a + b[..|b| - 1];
      assert (a + b)[|a + b| - 1] == b[|b| - 1];
      CountConcat(c, a, b[..|b| - 1]);
    } else {
      assert a + b == a;
    }
  }

  lemma {:induction false} CountAbsent(c: char, s: string)
    requires c !in s
    ensures Count(c, s) == 0
  {
    if s != [] {
      CountAbsent(c, s[..|s| - 1]);
    }
  }

  lemma CountQuestionMark()
    ensures Count('?', "?") == 1
  {
    assert "?"[..0] == [];
  }

  /** One assignment `"c" = ?` holds one placeholder. */
  lemma AssignmentCount(col: string)
    requires '?' !in col
    ensures Count('?', Quote(col) + " = ?") == 1
  {
    CountAbsent('?', Quote(col) + " = ");
    CountConcat('?', Quote(col) + " = ", "?");
    CountQuestionMark();
    assert Quote(col) + " = ?" == Quote(col) + " = " + "?";
  }

  /** A separator without `c` adds no occurrence of `c` to a join. */
  lemma {:induction false} JoinCount(c: char, sep: string, xs: seq<string>)
    requires c !in sep
    ensures Count(c, Join(sep, xs)) == CountAll(c, xs)
  {
    if |xs| == 1 {
      assert xs[..0] == [];
    } else if |xs| > 1 {
      var n := |xs| - 1;
      JoinCount(c, sep, xs[..n]);
      CountConcat(c, Join(sep, xs[..n]), sep);
      CountConcat(c, Join(sep, xs[..n]) + sep, xs[n]);
      CountAbsent(c, sep);
    }
  }

  lemma {:induction false} CountAllQuoted(cols: seq<string>)
    requires forall i :: 0 <= i < |cols| ==> '?' !in cols[i]
    ensures CountAll('?', QuoteAll(cols)) == 0
  {
    if cols != [] {
      var n := |cols| - 1;
      assert QuoteAll(cols)[..n] == QuoteAll(cols[..n]);
      CountAllQuoted(cols[..n]);
      CountAbsent('?', Quote(cols[n]));
    }
  }

  lemma {:induction false} PlaceholderListCount(n: nat)
    ensures Count('?', PlaceholderList(n)) == n
  {
    if n == 1 {
      CountQuestionMark();
    } else if n > 1 {
      PlaceholderListCount(n - 1);
      CountConcat('?', PlaceholderList(n - 1), ", ");
      CountConcat('?', PlaceholderList(n - 1) + ", ", "?");
      CountAbsent('?', ", ");
      CountQuestionMark();
    }
  }

  lemma {:induction false} CountAllAssignments(cols: seq<string>)
    requires forall i :: 0 <= i < |cols| ==> '?' !in cols[i]
    ensures CountAll('?', Assignments(cols)) == |cols|
  {
    if cols != [] {
      var n := |cols| - 1;
      assert Assignments(cols)[..n] == Assignments(cols[..n]);
      CountAllAssignments(cols[..n]);
      AssignmentCount(cols[n]);
    }
  }

  /** Counting over five consecutive pieces. */
  lemma CountConcat5(c: char, a: string, b: string, d: string, e: string, f: string)
    ensures Count(c, a + b + d + e + f) == Count(c, a) + Count(c, b) + Count(c, d) + Count(c, e) + Count(c, f)
  {
    CountConcat(c, a, b);
    CountConcat(c, a + b, d);
    CountConcat(c, a + b + d, e);
    CountConcat(c, a + b + d + e, f);
  }

  lemma CountConcat4(c: char, a: string, b: string, d: string, e: string)
    ensures Count(c, a + b + d + e) == Count(c, a) + Count(c, b) + Count(c, d) + Count(c, e)
  {
    CountConcat(c, a, b);
    CountConcat(c, a + b, d);
    CountConcat(c, a + b + d, e);
  }

  /** The INSERT text has one placeholder per listed column. */
  lemma InsertPlaceholderCount(table: string, cols: seq<string>)
    requires '?' !in table && forall i :: 0 <= i < |cols| ==> '?' !in cols[i]
    ensures Count('?', InsertSql(table, cols)) == |cols|
  {
    var a := "INSERT INTO " + table + " (";
    var b := ColumnList(cols);
    var c := ") VALUES (";
    var d := PlaceholderList(|cols|);
    var e := ")";
    assert InsertSql(table, cols) == a + b + c + d + e;
    assert Count('?', a) == 0 by { CountAbsent('?', a); }
    assert Count('?', b) == 0 by {
      JoinCount('?', ", ", QuoteAll(cols));
      CountAllQuoted(cols);
    }
    assert Count('?', c) == 0 by { CountAbsent('?', c); }
    assert Count('?', d) == |cols| by { PlaceholderListCount(|cols|); }
    assert Count('?', e) == 0 by { CountAbsent('?', e); }
    CountConcat5('?', a, b, c, d, e);
  }

  /** The UPDATE text has one placeholder per column plus the key's. */
  lemma UpdatePlaceholderCount(table: string, cols: seq<string>)
    requires '?' !in table && forall i :: 0 <= i < |cols| ==> '?' !in cols[i]
    ensures Count('?', UpdateSql(table, cols)) == |cols| + 1
  {
    var a := "UPDATE " + table + " SET ";
    var b := AssignmentList(cols);
    var c := " WHERE id = ";
    var d := "?";
    assert Count('?', a) == 0 by { CountAbsent('?', a); }
    assert Count('?', b) == |cols| by {
      JoinCount('?', ", ", Assignments(cols));
      CountAllAssignments(cols);
    }
    assert Count('?', c) == 0 by { CountAbsent('?', c); }
    assert Count('?', d) == 1 by { CountQuestionMark(); }
    assert Count('?', a + b + c + d) == |cols| + 1 by { CountConcat4('?', a, b, c, d); }
    assert UpdateSql(table, cols) == a + b + c + d by {
      assert c + d == " WHERE id = ?";
      assert a + b + (c + d) == a + b + c + d;
    }
  }

  /** The keyed SELECT and the DELETE each bind one value, the key. */
  lemma KeyedPlaceholderCount(table: string)
    requires '?' !in table
    ensures Count('?', SelectByIdSql(table)) == 1
    ensures Count('?', DeleteSql(table)) == 1
    ensures Count('?', SelectAllSql(table)) == 0
  {
    CountAbsent('?', "SELECT * FROM " + table + " WHERE id = ");
    CountConcat('?', "SELECT * FROM " + table + " WHERE id = ", "?");
    CountAbsent('?', "DELETE FROM " + table + " WHERE id = ");
    CountConcat('?', "DELETE FROM " + table + " WHERE id = ", "?");
    CountAbsent('?', "SELECT * FROM " + table);
    CountQuestionMark();
    assert SelectByIdSql(table) == "SELECT * FROM " + table + " WHERE id = " + "?";
    assert DeleteSql(table) == "DELETE FROM " + table + " WHERE id = " + "?";
  }
}
