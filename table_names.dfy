/** How the run-time manager and the annotation processor name the table
    of one entity class. */
module TableNames {
  import Metadata
  import SqlText
  import Mapping
  import Processor

  /** The processor's table and the runtime's table of the same class are
      the same quoted name exactly when the `@Table` name is empty or equal
      to the simple name: the runtime reads only the simple name. */
  lemma TableNamesAgree(d: Metadata.ClassDesc, c: Processor.TableClass)
    requires d.simpleName == c.simpleName
    ensures Mapping.TableOf(d) == SqlText.Quote(Processor.GetTableName(c)) <==> (c.tableName == "" || c.tableName == c.simpleName)
  {
    var a, b := Mapping.TableOf(d), SqlText.Quote(Processor.GetTableName(c));
    if a == b {
      assert a[1..|a| - 1] == b[1..|b| - 1];
    }
  }
}
