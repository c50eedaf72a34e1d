/** Schema aggregation inside getTableMetadata: for every table row of the
    catalog the engine runs `PRAGMA table_info`, and every column row it
    reports is added to the entry for that table, which is created on the
    first column reported for it. */
module Schema {
  import opened Base

  /** A table and its column names, in the order they were reported. */
  datatype TableMetadata = TableMetadata(name: string, columns: seq<string>)

  /** One table row of the catalog with the column names the engine reports
      for it, in order. */
  type CatalogEntry = (string, seq<string>)

  /** One invocation of the column callback: (table name, column name). */
  type ColumnReport = (string, string)

  /** The column callbacks one catalog entry produces. */
  function ReportsOf(entry: CatalogEntry): seq<ColumnReport>
  {
    seq(|entry.1|, i requires 0 <= i < |entry.1| => (entry.0, entry.1[i]))
  }

  /** Every column callback of the whole catalog walk, in order. */
  function Reports(catalog: seq<CatalogEntry>): seq<ColumnReport>
  {
    if catalog == [] then []
    else Reports(catalog[..|catalog| - 1]) + ReportsOf(catalog[|catalog| - 1])
  }

  /** The column names reported for table `name`, in report order. */
  function ColumnsOf(reports: seq<ColumnReport>, name: string): seq<string>
  {
    if reports == [] then []
    else
      var last := reports[|reports| - 1];
      ColumnsOf(reports[..|reports| - 1], name) + (if last.0 == name then [last.1] else [])
  }

  /** The table names in the order of their first column report. */
  function FirstReported(reports: seq<ColumnReport>): seq<string>
  {
    if reports == [] then []
    else
      var earlier := FirstReported(reports[..|reports| - 1]);
      var name := reports[|reports| - 1].0;
      if name in earlier then earlier else earlier + [name]
  }

  function Names(tables: seq<TableMetadata>): seq<string>
  {
    seq(|tables|, k requires 0 <= k < |tables| => tables[k].name)
  }

  predicate Distinct(names: seq<string>)
  {
    forall i, j | 0 <= i < j < |names| :: names[i] != names[j]
  }

  /** `tables` is the aggregate of `reports`: one entry per reported table,
      in order of first report, each holding that table's reported columns. */
  predicate Describes(tables: seq<TableMetadata>, reports: seq<ColumnReport>)
  {
    Names(tables) == FirstReported(reports) &&
    forall k | 0 <= k < |tables| :: tables[k].columns == ColumnsOf(reports, tables[k].name)
  }

  /** No table name is listed twice. */
  lemma {:induction false} FirstReportedDistinct(reports: seq<ColumnReport>)
    ensures Distinct(FirstReported(reports))
  {
    if reports != [] {
      FirstReportedDistinct(reports[..|reports| - 1]);
    }
  }

  /** A table is listed exactly when at least one column was reported for it. */
  lemma {:induction false} FirstReportedMembers(reports: seq<ColumnReport>, name: string)
    ensures name in FirstReported(reports) <==> ColumnsOf(reports, name) != []
  {
    if reports != [] {
      FirstReportedMembers(reports[..|reports| - 1], name);
    }
  }

  /** An aggregate never holds two entries with the same name. */
  lemma DescribesDistinct(tables: seq<TableMetadata>, reports: seq<ColumnReport>)
    requires Describes(tables, reports)
    ensures Distinct(Names(tables))
  {
    FirstReportedDistinct(reports);
  }

  /** The first entry named `name` (Array.prototype.find by name). */
  function FindByName(tables: seq<TableMetadata>, name: string): (r: Option<nat>)
    ensures r.Some? ==> r.value < |tables| && tables[r.value].name == name
    ensures r.Some? ==> forall k | 0 <= k < r.value :: tables[k].name != name
    ensures r.None? ==> forall k | 0 <= k < |tables| :: tables[k].name != name
  {
    if tables == [] then None
    else if tables[0].name == name then Some(0)
    else
      match FindByName(tables[1..], name)
      case None => None
      case Some(k) => Some(k + 1)
  }

  /** A column of a table not yet listed creates an entry for it at the end. */
  lemma InsertKeepsDescribes(tables: seq<TableMetadata>, reports: seq<ColumnReport>,
                             tableName: string, columnName: string)
    requires Describes(tables, reports)
    requires forall m | 0 <= m < |tables| :: tables[m].name != tableName
    ensures Describes(tables + [TableMetadata(tableName, [columnName])],
                      reports + [(tableName, columnName)])
  {
    var next := reports + [(tableName, columnName)];
    var updated := tables + [TableMetadata(tableName, [columnName])];
    assert next[..|reports|] == reports;
    FirstReportedMembers(reports, tableName);
    assert tableName !in Names(tables);
    assert Names(updated) == Names(tables) + [tableName];
    forall m | 0 <= m < |updated|
      ensures updated[m].columns == ColumnsOf(next, updated[m].name)
    {
      if m < |tables| {
        assert updated[m] == tables[m];
      }
    }
  }

  /** A column of a listed table is appended to that table's entry only. */
  lemma AppendKeepsDescribes(tables: seq<TableMetadata>, reports: seq<ColumnReport>,
                             k: nat, columnName: string)
    requires Describes(tables, reports)
    requires k < |tables|
    ensures Describes(tables[k := tables[k].(columns := tables[k].columns + [columnName])],
                      reports + [(tables[k].name, columnName)])
  {
    var tableName := tables[k].name;
    var next := reports + [(tableName, columnName)];
    var updated := tables[k := tables[k].(columns := tables[k].columns + [columnName])];
    assert next[..|reports|] == reports;
    FirstReportedDistinct(reports);
    assert Names(tables)[k] == tableName;
    assert Names(updated) == Names(tables);
    forall m | 0 <= m < |updated| && m != k
      ensures updated[m].columns == ColumnsOf(next, updated[m].name)
    {
      assert updated[m] == tables[m];
      assert Names(tables)[m] == tables[m].name;
      assert Names(tables)[m] != tableName;
    }
  }

  /** The column callback: find the entry for `tableName`, creating an empty
      one at the end when there is none, and append `columnName` to it. */
  method RecordColumn(tables: seq<TableMetadata>, tableName: string, columnName: string,
                      ghost reports: seq<ColumnReport>)
    returns (updated: seq<TableMetadata>)
    requires Describes(tables, reports)
    ensures Describes(updated, reports + [(tableName, columnName)])
  {
    var found := FindByName(tables, tableName);
    if found.None? {
      updated := tables + [TableMetadata(tableName, [])];
      assert updated[|tables|].name == tableName;
    } else {
      updated := tables;
    }
    var k := FindByName(updated, tableName).value;
    if found.None? {
      assert k == |tables|;
    }
    updated := updated[k := updated[k].(columns := updated[k].columns + [columnName])];
    if found.None? {
      assert updated[..|tables|] == tables;
      assert updated[|tables|] == TableMetadata(tableName, [columnName]) by {
        assert [] + [columnName] == [columnName];
      }
      assert updated == updated[..|tables|] + [updated[|tables|]];
      InsertKeepsDescribes(tables, reports, tableName, columnName);
    } else {
      AppendKeepsDescribes(tables, reports, k, columnName);
    }
  }

  /** Walks the catalog: every table row, every column row of it, through
      RecordColumn. The result lists each table that has at least one
      column, once, in order of its first column, with its columns in order. */
  method Aggregate(catalog: seq<CatalogEntry>) returns (tables: seq<TableMetadata>)
    ensures Describes(tables, Reports(catalog))
    ensures Distinct(Names(tables))
  {
    tables := [];
    ghost var done: seq<ColumnReport> := [];
    for i := 0 to |catalog|
      invariant done == Reports(catalog[..i])
      invariant Describes(tables, done)
    {
      var (tableName, columns) := catalog[i];
      ghost var before := done;
      for j := 0 to |columns|
        invariant done == before + ReportsOf((tableName, columns[..j]))
        invariant Describes(tables, done)
      {
        tables := RecordColumn(tables, tableName, columns[j], done);
        assert ReportsOf((tableName, columns[..j + 1])) == ReportsOf((tableName, columns[..j])) + [(tableName, columns[j])];
        done := done + [(tableName, columns[j])];
      }
      assert columns[..|columns|] == columns;
      assert catalog[..i + 1][..i] == catalog[..i];
    }
    assert catalog[..|catalog|] == catalog;
    DescribesDistinct(tables, done);
  }

  /** The columns of table `name` as the catalog lists them: the column lists
      of all its table rows, joined in catalog order. */
  function TableColumns(catalog: seq<CatalogEntry>, name: string): seq<string>
  {
    if catalog == [] then []
    else
      var last := catalog[|catalog| - 1];
      TableColumns(catalog[..|catalog| - 1], name) + (if last.0 == name then last.1 else [])
  }

  lemma {:induction false} ColumnsOfAppend(a: seq<ColumnReport>, b: seq<ColumnReport>, name: string)
    ensures ColumnsOf(a + b, name) == ColumnsOf(a, name) + ColumnsOf(b, name)
    decreases |b|
  {
    if b != [] {
      var n := |b| - 1;
      assert (a + b)[..|a + b| - 1] == a + b[..n];
      assert (a + b)[|a + b| - 1] == b[n];
      ColumnsOfAppend(a, b[..n], name);
      assert ColumnsOf(a + b, name) == ColumnsOf(a + b[..n], name) + (if b[n].0 == name then [b[n].1] else []);
    } else {
      assert a + b == a;
    }
  }

  lemma {:induction false} ColumnsOfEntry(entry: CatalogEntry, name: string)
    ensures ColumnsOf(ReportsOf(entry), name) == if entry.0 == name then entry.1 else []
    decreases |entry.1|
  {
    var (t, cols) := entry;
    if cols != [] {
      var n := |cols| - 1;
      assert ReportsOf(entry)[..n] == ReportsOf((t, cols[..n]));
      ColumnsOfEntry((t, cols[..n]), name);
      assert cols == cols[..n] + [cols[n]];
    }
  }

  /** Each aggregated entry holds exactly the columns the catalog lists for
      that table, in catalog order, and a table without column rows gets no
      entry. */
  lemma {:induction false} ColumnsOfCatalog(catalog: seq<CatalogEntry>, name: string)
    ensures ColumnsOf(Reports(catalog), name) == TableColumns(catalog, name)
    ensures name in FirstReported(Reports(catalog)) <==> TableColumns(catalog, name) != []
  {
    if catalog != [] {
      var n := |catalog| - 1;
      ColumnsOfCatalog(catalog[..n], name);
      ColumnsOfAppend(Reports(catalog[..n]), ReportsOf(catalog[n]), name);
      ColumnsOfEntry(catalog[n], name);
    }
    FirstReportedMembers(Reports(catalog), name);
  }
}
