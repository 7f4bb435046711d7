/**
 * Loading the seed set: in one transaction the foreign keys that touch the manifest are dropped, its
 * tables are emptied and copied in chunks, the sequences are moved on and the keys are put back.
 */
module SeedSync {
  import opened Arithmetic
  import opened Results

  datatype TableName = TableName(schema: string, name: string)

  datatype Cell = Null | Number(n: int) | Text(text: string)

  type Row = map<string, Cell>

  datatype Column = Column(name: string, generated: bool)

  /** A table of the source. */
  datatype SourceTable = SourceTable(name: TableName, columns: seq<Column>, rows: seq<Row>)

  /** `validated` is false for a key that was declared without checking the rows that already exist. */
  datatype ForeignKey = ForeignKey(
    table: TableName, name: string, columns: seq<string>, target: TableName, targetColumns: seq<string>,
    validated: bool)

  /** A column whose values come from a sequence. */
  datatype Serial = Serial(table: TableName, column: string)

  datatype Load = Load(source: string, rows: nat, tables: nat)

  /** The target: its tables, their keys, the next value of each sequence, and the log of loads. */
  datatype Database = Database(
    tables: map<TableName, seq<Row>>,
    keys: set<ForeignKey>,
    next: map<Serial, int>,
    untriggered: set<TableName>,
    loads: seq<Load>)

  const MAX_PARAMS := 30000
  const PARAMETER_LIMIT := 65535

  const TRACKING_TABLES := {
    TableName("public", "SequelizeMeta"),
    TableName("public", "SequelizeDataSeedersDevelopment"),
    TableName("public", "SequelizeDataSeedersDevelopments"),
    TableName("public", "SequelizeDataSeedersProduction"),
    TableName("public", "SequelizeDataSeedersProductions"),
    TableName("public", "atlas_sql_migrations"),
    TableName("public", "_prisma_migrations")
  }

  const EXCLUDED_SCHEMAS := {"pg_catalog", "information_schema", "atlas_seed"}

  // ---- the manifest ----

  predicate Seeded(table: SourceTable) {
    && table.name.schema !in EXCLUDED_SCHEMAS
    && |table.rows| > 0
    && table.name !in TRACKING_TABLES
  }

  /** The tables of the source that hold seed data. */
  function Manifest(source: seq<SourceTable>): seq<SourceTable> {
    if source == [] then []
    else
      var last := source[|source| - 1];
      Manifest(source[..|source| - 1]) + if Seeded(last) then [last] else []
  }

  predicate DistinctNames(source: seq<SourceTable>) {
    forall i, j :: 0 <= i < j < |source| ==> source[i].name != source[j].name
  }

  function Names(tables: seq<SourceTable>): set<TableName> {
    set i | 0 <= i < |tables| :: tables[i].name
  }

  /** Columns that can be written: the target computes the generated ones. */
  function Copied(columns: seq<Column>): seq<string> {
    if columns == [] then []
    else
      var last := columns[|columns| - 1];
      Copied(columns[..|columns| - 1]) + if last.generated then [] else [last.name]
  }

  /** The row with the columns that are copied; a value that is not there is null. */
  function Project(row: Row, columns: seq<string>): Row {
    map c | c in columns :: if c in row then row[c] else Null
  }

  function Projected(rows: seq<Row>, columns: seq<string>): (r: seq<Row>)
    ensures |r| == |rows|
  {
    seq(|rows|, i requires 0 <= i < |rows| => Project(rows[i], columns))
  }

  /** What a table of the manifest must hold in the end. */
  function Expected(table: SourceTable): seq<Row> {
    var columns := Copied(table.columns);
    if columns == [] then [] else Projected(table.rows, columns)
  }

  // ---- keys and sequences ----

  predicate Touches(key: ForeignKey, names: set<TableName>) {
    key.table in names || key.target in names
  }

  function Cells(row: Row, columns: seq<string>): (cells: seq<Cell>)
    ensures |cells| == |columns|
  {
    seq(|columns|, i requires 0 <= i < |columns| => if columns[i] in row then row[columns[i]] else Null)
  }

  function RowsOf(tables: map<TableName, seq<Row>>, name: TableName): seq<Row> {
    if name in tables then tables[name] else []
  }

  /** Every row with all its key columns set points to a row of the other table. */
  predicate Holds(key: ForeignKey, tables: map<TableName, seq<Row>>) {
    forall i :: 0 <= i < |RowsOf(tables, key.table)| ==>
      Null in Cells(RowsOf(tables, key.table)[i], key.columns) ||
      PointsSomewhere(Cells(RowsOf(tables, key.table)[i], key.columns), RowsOf(tables, key.target), key.targetColumns)
  }

  predicate PointsSomewhere(cells: seq<Cell>, rows: seq<Row>, columns: seq<string>) {
    exists j :: 0 <= j < |rows| && Cells(rows[j], columns) == cells
  }

  /** SQL MAX of a column, 0 when no row has a number in it. */
  function MaxOrZero(rows: seq<Row>, column: string): int {
    var m := MaxNumber(rows, column);
    if m.None? then 0 else m.value
  }

  function MaxNumber(rows: seq<Row>, column: string): Option<int> {
    if rows == [] then None
    else
      var rest := MaxNumber(rows[..|rows| - 1], column);
      var last := rows[|rows| - 1];
      if column !in last || !last[column].Number? then rest
      else if rest.Some? && last[column].n < rest.value then rest
      else Some(last[column].n)
  }

  // ---- what the load promises ----

  /** Where the sequence of a column goes on. */
  function NextAfter(rows: seq<Row>, column: string): int {
    MaxOrZero(rows, column) + 1
  }

  /** The sequence gives a value above every number its column holds. */
  predicate AheadOf(next: int, rows: seq<Row>, column: string) {
    forall i :: 0 <= i < |rows| && column in rows[i] && rows[i][column].Number? ==> rows[i][column].n < next
  }

  /** The tables of the manifest hold what they must, and the others what they did. */
  predicate TablesLoaded(before: map<TableName, seq<Row>>, after: map<TableName, seq<Row>>,
                         manifest: seq<SourceTable>) {
    && after.Keys == before.Keys
    && (forall i :: 0 <= i < |manifest| ==>
          manifest[i].name in after && after[manifest[i].name] == Expected(manifest[i]))
    && (forall name :: name in before && name !in Names(manifest) ==> after[name] == before[name])
  }

  /** The sequences of the tables loaded go on after their columns, and the others where they were. */
  predicate SequencesMoved(before: Database, after: Database, names: set<TableName>) {
    && after.next.Keys == before.next.Keys
    && (forall s :: s in after.next && s.table in names ==>
          after.next[s] == NextAfter(RowsOf(after.tables, s.table), s.column))
    && (forall s :: s in after.next && s.table !in names ==> after.next[s] == before.next[s])
  }

  /** The keys are the original ones, and those that touch the tables loaded hold. */
  predicate KeysBack(before: Database, after: Database, names: set<TableName>) {
    && after.keys == before.keys
    && (forall key :: key in after.keys && key.validated && Touches(key, names) ==> Holds(key, after.tables))
  }

  /** The state after a load of the manifest. */
  predicate LoadedFrom(before: Database, after: Database, manifest: seq<SourceTable>, origin: string) {
    && TablesLoaded(before.tables, after.tables, manifest)
    && KeysBack(before, after, Names(manifest))
    && SequencesMoved(before, after, Names(manifest))
    && after.untriggered == before.untriggered - Names(manifest)
    && after.loads == before.loads + [Load(origin, CopiedRows(manifest), |manifest|)]
  }

  function CopiedRows(manifest: seq<SourceTable>): nat {
    if manifest == [] then 0
    else CopiedRows(manifest[..|manifest| - 1]) + |Expected(manifest[|manifest| - 1])|
  }

  // ---- facts about the pieces ----

  lemma {:induction false} MaxNumberBounds(rows: seq<Row>, column: string, i: nat)
    requires i < |rows| && column in rows[i] && rows[i][column].Number?
    ensures MaxNumber(rows, column).Some? && rows[i][column].n <= MaxNumber(rows, column).value
    decreases |rows|
  {
    if i < |rows| - 1 {
      MaxNumberBounds(rows[..|rows| - 1], column, i);
    }
  }

  lemma {:induction false} MaxIsReached(rows: seq<Row>, column: string) returns (i: nat)
    requires MaxNumber(rows, column).Some?
    ensures i < |rows| && column in rows[i] && rows[i][column] == Number(MaxNumber(rows, column).value)
    decreases |rows|
  {
    var init := rows[..|rows| - 1];
    i := |rows| - 1;
    if MaxNumber(init, column).Some? && MaxNumber(init, column) == MaxNumber(rows, column) {
      i := MaxIsReached(init, column);
    }
  }

  /** A sequence goes on above every number of its column, and right after one of them or at 1. */
  lemma NextIsNext(rows: seq<Row>, column: string)
    ensures AheadOf(NextAfter(rows, column), rows, column)
    ensures NextAfter(rows, column) == 1 ||
            exists i :: 0 <= i < |rows| && column in rows[i] && rows[i][column] == Number(NextAfter(rows, column) - 1)
  {
    forall i | 0 <= i < |rows| && column in rows[i] && rows[i][column].Number?
      ensures rows[i][column].n < NextAfter(rows, column)
    {
      MaxNumberBounds(rows, column, i);
    }
    if MaxNumber(rows, column).Some? {
      var i := MaxIsReached(rows, column);
    }
  }

  /** After a load no sequence of a manifest table gives a number that its column has. */
  lemma SequencesAhead(before: Database, after: Database, manifest: seq<SourceTable>, origin: string, s: Serial)
    requires LoadedFrom(before, after, manifest, origin) && s in after.next && s.table in Names(manifest)
    ensures AheadOf(after.next[s], RowsOf(after.tables, s.table), s.column)
  {
    NextIsNext(RowsOf(after.tables, s.table), s.column);
  }

  lemma ProjectedSlice(rows: seq<Row>, columns: seq<string>, from: nat, end: nat)
    requires from <= end <= |rows|
    ensures Projected(rows[from..end], columns) == Projected(rows, columns)[from..end]
  {
  }

  /** A key that touches no table of the manifest holds after the load if it held before. */
  lemma UntouchedKeyHolds(key: ForeignKey, before: Database, after: Database, manifest: seq<SourceTable>,
                          origin: string)
    requires LoadedFrom(before, after, manifest, origin)
    requires !Touches(key, Names(manifest)) && Holds(key, before.tables)
    ensures Holds(key, after.tables)
  {
    assert RowsOf(after.tables, key.table) == RowsOf(before.tables, key.table);
    assert RowsOf(after.tables, key.target) == RowsOf(before.tables, key.target);
  }

  /** A row has values in all the columns of a key. */
  predicate Refers(key: ForeignKey, row: Row) {
    forall c :: c in key.columns ==> c in row && row[c] != Null
  }

  /** The other row has the same values in the columns that the key points to. */
  predicate IsTarget(key: ForeignKey, row: Row, other: Row)
    requires Refers(key, row)
  {
    && |key.columns| == |key.targetColumns|
    && forall k :: 0 <= k < |key.columns| ==>
         key.targetColumns[k] in other && other[key.targetColumns[k]] == row[key.columns[k]]
  }

  predicate RowHolds(key: ForeignKey, row: Row, others: seq<Row>) {
    Refers(key, row) ==> exists other :: other in others && IsTarget(key, row, other)
  }

  lemma RefersByCells(key: ForeignKey, row: Row)
    ensures Refers(key, row) <==> Null !in Cells(row, key.columns)
  {
    var cells := Cells(row, key.columns);
    if Null in cells {
      var k :| 0 <= k < |cells| && cells[k] == Null;
      assert key.columns[k] in key.columns;
    }
    if c :| c in key.columns && !(c in row && row[c] != Null) {
      var k :| 0 <= k < |key.columns| && key.columns[k] == c;
      assert cells[k] == Null;
    }
  }

  lemma TargetByCells(key: ForeignKey, row: Row, other: Row)
    requires Refers(key, row)
    ensures IsTarget(key, row, other) <==> Cells(other, key.targetColumns) == Cells(row, key.columns)
  {
    var there, here := Cells(other, key.targetColumns), Cells(row, key.columns);
    if there == here {
      forall k | 0 <= k < |key.columns|
        ensures key.targetColumns[k] in other && other[key.targetColumns[k]] == row[key.columns[k]]
      {
        assert here[k] == there[k] && key.columns[k] in key.columns;
      }
    }
    assert IsTarget(key, row, other) ==> |there| == |here| && forall k :: 0 <= k < |here| ==> there[k] == here[k];
  }

  /** A key holds exactly if every row with values in all its columns has a row of the other table with the same. */
  lemma HoldsByRows(key: ForeignKey, tables: map<TableName, seq<Row>>)
    requires key.table in tables && key.target in tables
    ensures Holds(key, tables) <==>
      forall row :: row in tables[key.table] ==> RowHolds(key, row, tables[key.target])
  {
    var rows, others := tables[key.table], tables[key.target];
    assert RowsOf(tables, key.table) == rows && RowsOf(tables, key.target) == others;
    forall i | 0 <= i < |rows|
      ensures RowHolds(key, rows[i], others) <==>
        (Null in Cells(rows[i], key.columns) ||
         PointsSomewhere(Cells(rows[i], key.columns), others, key.targetColumns))
    {
      RefersByCells(key, rows[i]);
      if Refers(key, rows[i]) {
        PointsByRows(key, rows[i], others);
      }
    }
    if Holds(key, tables) {
      forall row | row in rows
        ensures RowHolds(key, row, others)
      {
        var i :| 0 <= i < |rows| && rows[i] == row;
      }
    }
  }

  lemma PointsByRows(key: ForeignKey, row: Row, others: seq<Row>)
    requires Refers(key, row)
    ensures PointsSomewhere(Cells(row, key.columns), others, key.targetColumns) <==>
      exists other :: other in others && IsTarget(key, row, other)
  {
    forall other
      ensures IsTarget(key, row, other) <==> Cells(other, key.targetColumns) == Cells(row, key.columns)
    {
      TargetByCells(key, row, other);
    }
    if PointsSomewhere(Cells(row, key.columns), others, key.targetColumns) {
      var j :| 0 <= j < |others| && Cells(others[j], key.targetColumns) == Cells(row, key.columns);
      assert others[j] in others && IsTarget(key, row, others[j]);
    }
    if other :| other in others && IsTarget(key, row, other) {
      var j :| 0 <= j < |others| && others[j] == other;
      assert Cells(others[j], key.targetColumns) == Cells(row, key.columns);
    }
  }

  /** If every key held before, every key holds after; those that are not validated on creation are not promised. */
  lemma AllKeysHold(before: Database, after: Database, manifest: seq<SourceTable>, origin: string)
    requires LoadedFrom(before, after, manifest, origin)
    requires forall key :: key in before.keys ==> key.validated && Holds(key, before.tables)
    ensures forall key :: key in after.keys ==> Holds(key, after.tables)
  {
    forall key | key in after.keys
      ensures Holds(key, after.tables)
    {
      if !Touches(key, Names(manifest)) {
        UntouchedKeyHolds(key, before, after, manifest, origin);
      }
    }
  }

  /** Column c is one that the target does not compute. */
  predicate Plain(columns: seq<Column>, c: string) {
    exists i :: 0 <= i < |columns| && columns[i].name == c && !columns[i].generated
  }

  /** What is copied are all the columns that are not generated. */
  lemma {:induction false} CopiedArePlain(columns: seq<Column>, c: string)
    ensures c in Copied(columns) <==> Plain(columns, c)
    decreases |columns|
  {
    if columns != [] {
      var init, last := columns[..|columns| - 1], columns[|columns| - 1];
      CopiedArePlain(init, c);
      assert columns == init + [last];
      if Plain(init, c) {
        var i :| 0 <= i < |init| && init[i].name == c && !init[i].generated;
        assert columns[i].name == c;
      }
      if Plain(columns, c) {
        var i :| 0 <= i < |columns| && columns[i].name == c && !columns[i].generated;
        assert i < |init| ==> init[i].name == c;
      }
    }
  }

  /** The row has every column that is not generated, with the source's value, or null if it has none, and no other. */
  predicate IsCopy(copy: Row, row: Row, columns: seq<Column>) {
    && (forall c :: c in copy ==> Plain(columns, c))
    && (forall i :: 0 <= i < |columns| && !columns[i].generated ==>
          && columns[i].name in copy
          && copy[columns[i].name] == if columns[i].name in row then row[columns[i].name] else Null)
  }

  lemma ProjectIsCopy(row: Row, columns: seq<Column>)
    ensures IsCopy(Project(row, Copied(columns)), row, columns)
  {
    forall c | c in Copied(columns)
      ensures Plain(columns, c)
    {
      CopiedArePlain(columns, c);
    }
    forall i | 0 <= i < |columns| && !columns[i].generated
      ensures columns[i].name in Copied(columns)
    {
      CopiedArePlain(columns, columns[i].name);
    }
  }

  /** Every row arrives, in order, with all its columns that are not generated, if there is such a column. */
  lemma ExactCopy(before: Database, after: Database, manifest: seq<SourceTable>, origin: string, i: nat, c: string)
    requires LoadedFrom(before, after, manifest, origin)
    requires i < |manifest| && Plain(manifest[i].columns, c)
    ensures |after.tables[manifest[i].name]| == |manifest[i].rows|
    ensures forall r :: 0 <= r < |manifest[i].rows| ==>
              IsCopy(after.tables[manifest[i].name][r], manifest[i].rows[r], manifest[i].columns)
  {
    CopiedArePlain(manifest[i].columns, c);
    assert after.tables[manifest[i].name] == Expected(manifest[i]);
    forall r | 0 <= r < |manifest[i].rows|
      ensures IsCopy(after.tables[manifest[i].name][r], manifest[i].rows[r], manifest[i].columns)
    {
      ProjectIsCopy(manifest[i].rows[r], manifest[i].columns);
    }
  }

  /** The target computes every column. */
  predicate AllGenerated(columns: seq<Column>) {
    forall i :: 0 <= i < |columns| ==> columns[i].generated
  }

  lemma NoneCopied(columns: seq<Column>)
    ensures Copied(columns) == [] <==> AllGenerated(columns)
  {
    if Copied(columns) != [] {
      CopiedArePlain(columns, Copied(columns)[0]);
    }
    if !AllGenerated(columns) {
      var i :| 0 <= i < |columns| && !columns[i].generated;
      CopiedArePlain(columns, columns[i].name);
    }
  }

  /** The places of the columns that are not generated. */
  function PlainPlaces(columns: seq<Column>): set<nat> {
    set i: nat | i < |columns| && !columns[i].generated
  }

  lemma {:induction false} CopiedCount(columns: seq<Column>)
    ensures |Copied(columns)| == |PlainPlaces(columns)|
    decreases |columns|
  {
    if columns != [] {
      var n := |columns| - 1;
      CopiedCount(columns[..n]);
      assert PlainPlaces(columns) == PlainPlaces(columns[..n]) + if columns[n].generated then {} else {n};
    }
  }

  /** A table with rows arrives whole exactly when it has a column to copy; otherwise it ends empty. */
  lemma WholeOrEmpty(before: Database, after: Database, manifest: seq<SourceTable>, origin: string, i: nat)
    requires LoadedFrom(before, after, manifest, origin)
    requires i < |manifest| && manifest[i].rows != []
    ensures |after.tables[manifest[i].name]| == |manifest[i].rows| <==> !AllGenerated(manifest[i].columns)
    ensures AllGenerated(manifest[i].columns) ==> after.tables[manifest[i].name] == []
  {
    NoneCopied(manifest[i].columns);
    assert after.tables[manifest[i].name] == Expected(manifest[i]);
  }

  function SourceRows(manifest: seq<SourceTable>): nat {
    if manifest == [] then 0 else SourceRows(manifest[..|manifest| - 1]) + |manifest[|manifest| - 1].rows|
  }

  /** Every table has a column that the target does not compute. */
  predicate AllCopyable(manifest: seq<SourceTable>) {
    forall i :: 0 <= i < |manifest| ==> !AllGenerated(manifest[i].columns)
  }

  predicate AllPopulated(manifest: seq<SourceTable>) {
    forall i :: 0 <= i < |manifest| ==> |manifest[i].rows| > 0
  }

  /** The count of the log is that of all source rows exactly when every table has a column to copy. */
  lemma {:induction false} CountIsComplete(manifest: seq<SourceTable>)
    requires AllPopulated(manifest)
    ensures CopiedRows(manifest) <= SourceRows(manifest)
    ensures CopiedRows(manifest) == SourceRows(manifest) <==> AllCopyable(manifest)
    decreases |manifest|
  {
    if manifest != [] {
      var init, last := manifest[..|manifest| - 1], manifest[|manifest| - 1];
      CountIsComplete(init);
      assert AllCopyable(manifest) <==> AllCopyable(init) && !AllGenerated(last.columns) by {
        assert manifest == init + [last];
      }
      NoneCopied(last.columns);
      ExpectedSize(last);
    }
  }

  lemma ExpectedSize(table: SourceTable)
    ensures |Expected(table)| == if Copied(table.columns) == [] then 0 else |table.rows|
  {
  }

  const GENERATED_TABLE :=
    SourceTable(TableName("public", "derived"), [Column("total", true)], [map["total" := Number(1)]])

  /** A table of which the only column is generated is in the manifest, is emptied and stays empty. */
  lemma GeneratedTableStaysEmpty(before: Database, after: Database, origin: string)
    requires LoadedFrom(before, after, Manifest([GENERATED_TABLE]), origin)
    ensures Manifest([GENERATED_TABLE]) == [GENERATED_TABLE]
    ensures after.tables[GENERATED_TABLE.name] == [] && CopiedRows([GENERATED_TABLE]) == 0
  {
    var table := GENERATED_TABLE;
    GeneratedIsSeeded(table);
    assert Copied(table.columns) == Copied(table.columns[..0]);
    WholeOrEmpty(before, after, [table], origin, 0);
  }

  lemma GeneratedIsSeeded(table: SourceTable)
    requires table == GENERATED_TABLE
    ensures Manifest([table]) == [table]
  {
    assert table.name.schema == "public" && "public"[1] == 'u';
    assert [table][..0] == [];
    assert table.name.name[0] == 'd';
  }

  lemma {:induction false} ManifestOf(source: seq<SourceTable>, table: SourceTable)
    ensures table in Manifest(source) <==>
            && table in source && |table.rows| > 0
            && table.name.schema !in {"pg_catalog", "information_schema", "atlas_seed"}
            && !(table.name.schema == "public" && table.name.name in {
                   "SequelizeMeta", "SequelizeDataSeedersDevelopment", "SequelizeDataSeedersDevelopments",
                   "SequelizeDataSeedersProduction", "SequelizeDataSeedersProductions", "atlas_sql_migrations",
                   "_prisma_migrations"})
    decreases |source|
  {
    if source != [] {
      ManifestOf(source[..|source| - 1], table);
      assert source == source[..|source| - 1] + [source[|source| - 1]];
    }
  }

  lemma {:induction false} ManifestDistinct(source: seq<SourceTable>)
    requires DistinctNames(source)
    ensures DistinctNames(Manifest(source))
    decreases |source|
  {
    if source != [] {
      var init := source[..|source| - 1];
      ManifestDistinct(init);
      forall i | 0 <= i < |Manifest(init)|
        ensures Manifest(init)[i].name != source[|source| - 1].name
      {
        ManifestOf(init, Manifest(init)[i]);
      }
    }
  }

  lemma NamesStep(tables: seq<SourceTable>, i: nat)
    requires i < |tables|
    ensures Names(tables[..i + 1]) == Names(tables[..i]) + {tables[i].name}
  {
    assert forall j :: 0 <= j < i ==> tables[..i][j] == tables[j] && tables[..i + 1][j] == tables[j];
    assert tables[..i + 1][i] == tables[i];
    forall name | name in Names(tables[..i]) + {tables[i].name}
      ensures name in Names(tables[..i + 1])
    {
      if name != tables[i].name {
        var j :| 0 <= j < i && tables[..i][j].name == name;
        assert tables[..i + 1][j].name == name;
      }
    }
  }

  // ---- the target ----

  /** Rows per statement. */
  function ChunkSize(columns: nat): (size: nat)
    requires columns > 0
    ensures size >= 1
  {
    if MAX_PARAMS / columns < 1 then 1 else MAX_PARAMS / columns
  }

  function Emptied(tables: map<TableName, seq<Row>>, names: set<TableName>): map<TableName, seq<Row>> {
    map name | name in tables :: if name in names then [] else tables[name]
  }

  function Restarted(next: map<Serial, int>, names: set<TableName>): map<Serial, int> {
    map s | s in next :: if s.table in names then 1 else next[s]
  }

  /** The sequences given go on after their columns, and nothing else has changed. */
  predicate Resynced(before: Database, after: Database, serials: set<Serial>) {
    && after == before.(next := after.next)
    && after.next.Keys == before.next.Keys
    && (forall s :: s in serials && s in after.next ==>
          after.next[s] == NextAfter(RowsOf(before.tables, s.table), s.column))
    && (forall s :: s in after.next && s !in serials ==> after.next[s] == before.next[s])
  }

  // ---- when a load can succeed ----

  /** Statements that it takes to insert some rows. */
  function ChunkCount(rows: nat, size: nat): nat
    requires size > 0
  {
    if rows == 0 then 0 else if rows <= size then 1 else 1 + ChunkCount(rows - size, size)
  }

  lemma ChunkCountNext(rows: nat, size: nat, chunk: nat)
    requires size > 0 && rows > 0 && chunk == if rows <= size then rows else size
    ensures ChunkCount(rows, size) == 1 + ChunkCount(rows - chunk, size)
  {
  }

  function Chunks(table: SourceTable): nat {
    if Copied(table.columns) == [] then 0 else ChunkCount(|table.rows|, ChunkSize(|Copied(table.columns)|))
  }

  function AllChunks(manifest: seq<SourceTable>): nat {
    if manifest == [] then 0 else AllChunks(manifest[..|manifest| - 1]) + Chunks(manifest[|manifest| - 1])
  }

  /** The target has the columns to copy, and no more than a single row can have as parameters. */
  predicate Writable(columns: map<TableName, set<string>>, table: SourceTable) {
    Expected(table) == [] ||
    (table.name in columns && (forall c :: c in Copied(table.columns) ==> c in columns[table.name]) &&
     |Copied(table.columns)| <= PARAMETER_LIMIT)
  }

  /** A table can be written if it has nothing to copy, or the target has its at most 65535 columns to copy. */
  lemma WritableByFields(columns: map<TableName, set<string>>, table: SourceTable)
    ensures Writable(columns, table) <==>
      table.rows == [] || AllGenerated(table.columns) ||
      (table.name in columns && |PlainPlaces(table.columns)| <= 65535 &&
       forall c :: Plain(table.columns, c) ==> c in columns[table.name])
  {
    NoneCopied(table.columns);
    CopiedCount(table.columns);
    forall c
      ensures c in Copied(table.columns) <==> Plain(table.columns, c)
    {
      CopiedArePlain(table.columns, c);
    }
  }

  predicate AllWritable(columns: map<TableName, set<string>>, manifest: seq<SourceTable>) {
    forall i :: 0 <= i < |manifest| ==> Writable(columns, manifest[i])
  }

  function ExpectedOf(manifest: seq<SourceTable>, name: TableName): seq<Row> {
    if manifest == [] then []
    else if manifest[|manifest| - 1].name == name then Expected(manifest[|manifest| - 1])
    else ExpectedOf(manifest[..|manifest| - 1], name)
  }

  /** The tables as the load leaves them. */
  function FinalTables(tables: map<TableName, seq<Row>>, manifest: seq<SourceTable>): map<TableName, seq<Row>> {
    map name | name in tables :: if name in Names(manifest) then ExpectedOf(manifest, name) else tables[name]
  }

  function Touching(keys: set<ForeignKey>, names: set<TableName>): set<ForeignKey> {
    set key | key in keys && Touches(key, names)
  }

  function SerialsOf(next: map<Serial, int>, names: set<TableName>): set<Serial> {
    set s | s in next && s.table in names
  }

  predicate AllHold(keys: set<ForeignKey>, tables: map<TableName, seq<Row>>) {
    forall key :: key in keys && key.validated ==> Holds(key, tables)
  }

  /** A sequence starts at 1, so it cannot follow a column whose largest number is negative. */
  predicate CanFollow(serials: set<Serial>, tables: map<TableName, seq<Row>>) {
    forall s :: s in serials ==> MaxOrZero(RowsOf(tables, s.table), s.column) >= 0
  }

  /** The manifest fits the target, and the keys that touch it hold over what is loaded. */
  predicate Loadable(columns: map<TableName, set<string>>, db: Database, manifest: seq<SourceTable>) {
    && Names(manifest) <= db.tables.Keys
    && AllWritable(columns, manifest)
    && CanFollow(SerialsOf(db.next, Names(manifest)), FinalTables(db.tables, manifest))
    && AllHold(Touching(db.keys, Names(manifest)), FinalTables(db.tables, manifest))
  }

  /** The statements of a load, COMMIT being the last. */
  function Steps(db: Database, manifest: seq<SourceTable>): nat {
    OpenSteps(db, manifest) + AllChunks(manifest) + CloseSteps(db, manifest, Touching(db.keys, Names(manifest)))
  }

  /** The database once keys are dropped, triggers off and tables empty. */
  function Opened(db: Database, manifest: seq<SourceTable>): Database {
    Database(Emptied(db.tables, Names(manifest)), db.keys - Touching(db.keys, Names(manifest)),
      Restarted(db.next, Names(manifest)), db.untriggered + Names(manifest), db.loads)
  }

  function OpenSteps(db: Database, manifest: seq<SourceTable>): nat {
    |Touching(db.keys, Names(manifest))| + |manifest| + 1
  }

  /** Sequences moved on, triggers on, keys back and the log written. */
  predicate Closed(before: Database, after: Database, manifest: seq<SourceTable>, keys: set<ForeignKey>, load: Load) {
    && Resynced(before, before.(next := after.next), SerialsOf(before.next, Names(manifest)))
    && after == before.(next := after.next, untriggered := before.untriggered - Names(manifest),
                        keys := before.keys + keys, loads := before.loads + [load])
  }

  function CloseSteps(db: Database, manifest: seq<SourceTable>, keys: set<ForeignKey>): nat {
    |SerialsOf(db.next, Names(manifest))| + |manifest| + |keys| + 2
  }

  /** None of the next n statements fails for reasons of its own. */
  predicate Clean(faults: nat -> bool, from: nat, n: nat) {
    forall k :: from < k <= from + n ==> !faults(k)
  }

  lemma CleanPart(faults: nat -> bool, from: nat, skip: nat, n: nat, total: nat)
    requires skip + n <= total
    ensures Clean(faults, from, total) ==> Clean(faults, from + skip, n)
  {
  }

  lemma CleanJoin(faults: nat -> bool, from: nat, m: nat, n: nat)
    requires Clean(faults, from, m) && Clean(faults, from + m, n)
    ensures Clean(faults, from, m + n)
  {
  }

  /** The target as its connection sees it; `faults` says which statements fail for reasons of their own. */
  class Target {
    const columns: map<TableName, set<string>>
    const faults: nat -> bool
    var db: Database
    var statements: nat

    constructor (db: Database, columns: map<TableName, set<string>>, faults: nat -> bool)
      ensures this.db == db && this.columns == columns && this.faults == faults && statements == 0
    {
      this.db := db;
      this.columns := columns;
      this.faults := faults;
      this.statements := 0;
    }

    /** One statement more; false when it fails whatever it does. */
    method Send() returns (ok: bool)
      modifies this`statements
      ensures statements == old(statements) + 1 && (ok <==> !faults(statements))
    {
      statements := statements + 1;
      ok := !faults(statements);
    }

    method DropKey(key: ForeignKey) returns (ok: bool)
      requires key in db.keys
      modifies this
      ensures statements == old(statements) + 1 && (ok <==> !faults(statements))
      ensures ok ==> db == old(db).(keys := old(db).keys - {key})
    {
      ok := Send();
      if ok {
        db := db.(keys := db.keys - {key});
      }
    }

    /** Creating a key checks the rows there are, unless it was declared without. */
    method AddKey(key: ForeignKey) returns (ok: bool)
      modifies this
      ensures statements == old(statements) + 1
      ensures ok <==> !faults(statements) && (key.validated ==> Holds(key, old(db).tables))
      ensures ok ==> db == old(db).(keys := old(db).keys + {key})
    {
      ok := Send();
      if key.validated && !Holds(key, db.tables) {
        ok := false;
      }
      if ok {
        db := db.(keys := db.keys + {key});
      }
    }

    method DisableTriggers(name: TableName) returns (ok: bool)
      modifies this
      ensures statements == old(statements) + 1
      ensures ok <==> !faults(statements) && name in old(db).tables
      ensures ok ==> db == old(db).(untriggered := old(db).untriggered + {name})
    {
      ok := Send();
      if name !in db.tables {
        ok := false;
      }
      if ok {
        db := db.(untriggered := db.untriggered + {name});
      }
    }

    method EnableTriggers(name: TableName) returns (ok: bool)
      requires name in db.tables
      modifies this
      ensures statements == old(statements) + 1 && (ok <==> !faults(statements))
      ensures ok ==> db == old(db).(untriggered := old(db).untriggered - {name})
    {
      ok := Send();
      if ok {
        db := db.(untriggered := db.untriggered - {name});
      }
    }

    /**
     * Without CASCADE a table can only be emptied when no key of another table points to it. The sequences
     * its columns own start again in new storage, so that a rollback also undoes later changes to them.
     */
    method Truncate(names: set<TableName>) returns (ok: bool)
      requires names <= db.tables.Keys
      requires forall key :: key in db.keys && key.target in names ==> key.table in names
      modifies this
      ensures statements == old(statements) + 1 && (ok <==> !faults(statements))
      ensures ok ==>
        db == old(db).(tables := Emptied(old(db).tables, names), next := Restarted(old(db).next, names))
    {
      ok := Send();
      if ok {
        db := db.(tables := Emptied(db.tables, names), next := Restarted(db.next, names));
      }
    }

    /** The rows of a chunk, in order, if the table has the columns and there are not too many parameters. */
    method Insert(name: TableName, names: seq<string>, chunk: seq<Row>) returns (ok: bool)
      requires name in db.tables
      modifies this
      ensures statements == old(statements) + 1
      ensures ok <==>
        && !faults(statements)
        && |chunk| * |names| <= PARAMETER_LIMIT
        && name in columns
        && forall c :: c in names ==> c in columns[name]
      ensures ok ==> db == old(db).(tables := old(db).tables[name := old(db).tables[name] + chunk])
    {
      ok := Send();
      if |chunk| * |names| > PARAMETER_LIMIT {
        ok := false;
      }
      if name !in columns || exists c :: c in names && c !in columns[name] {
        ok := false;
      }
      if ok {
        db := db.(tables := db.tables[name := db.tables[name] + chunk]);
      }
    }

    /** A sequence cannot be set below its least value. */
    method SetNext(serial: Serial, value: int) returns (ok: bool)
      modifies this
      ensures statements == old(statements) + 1 && (ok <==> !faults(statements) && value >= 1)
      ensures ok ==> db == old(db).(next := old(db).next[serial := value])
    {
      ok := Send();
      if value < 1 {
        ok := false;
      }
      if ok {
        db := db.(next := db.next[serial := value]);
      }
    }

    method RecordLoad(load: Load) returns (ok: bool)
      modifies this
      ensures statements == old(statements) + 1 && (ok <==> !faults(statements))
      ensures ok ==> db == old(db).(loads := old(db).loads + [load])
    {
      ok := Send();
      if ok {
        db := db.(loads := db.loads + [load]);
      }
    }

    method RecordAndCommit(load: Load) returns (ok: bool)
      modifies this
      ensures ok <==> Clean(faults, old(statements), 2)
      ensures ok ==> statements == old(statements) + 2 && db == old(db).(loads := old(db).loads + [load])
    {
      ok := RecordLoad(load);
      if ok {
        ok := Send();
      }
    }

    // ---- the load ----

    method DropKeys(keys: set<ForeignKey>) returns (ok: bool)
      requires keys <= db.keys
      modifies this
      ensures ok <==> Clean(faults, old(statements), |keys|)
      ensures ok ==> statements == old(statements) + |keys|
      ensures ok ==> db == old(db).(keys := old(db).keys - keys)
    {
      var todo := keys;
      while todo != {}
        invariant todo <= keys && statements + |todo| == old(statements) + |keys|
        invariant Clean(faults, old(statements), statements - old(statements))
        invariant db == old(db).(keys := old(db).keys - (keys - todo))
        decreases |todo|
      {
        var key :| key in todo;
        ok := DropKey(key);
        if !ok {
          return;
        }
        todo := todo - {key};
      }
      ok := true;
    }

    method AddKeys(keys: set<ForeignKey>) returns (ok: bool)
      modifies this
      ensures ok <==> Clean(faults, old(statements), |keys|) && AllHold(keys, old(db).tables)
      ensures ok ==> statements == old(statements) + |keys|
      ensures ok ==> db == old(db).(keys := old(db).keys + keys)
    {
      var todo := keys;
      while todo != {}
        invariant todo <= keys && statements + |todo| == old(statements) + |keys|
        invariant Clean(faults, old(statements), statements - old(statements))
        invariant db == old(db).(keys := old(db).keys + (keys - todo))
        invariant AllHold(keys - todo, db.tables)
        decreases |todo|
      {
        var key :| key in todo;
        ok := AddKey(key);
        if !ok {
          return;
        }
        todo := todo - {key};
      }
      assert keys - todo == keys;
      ok := true;
    }

    method DisableAll(tables: seq<SourceTable>) returns (ok: bool)
      modifies this
      ensures ok <==> Clean(faults, old(statements), |tables|) && Names(tables) <= old(db).tables.Keys
      ensures ok ==> statements == old(statements) + |tables|
      ensures ok ==> db == old(db).(untriggered := old(db).untriggered + Names(tables))
    {
      for i := 0 to |tables|
        invariant statements == old(statements) + i && Clean(faults, old(statements), i)
        invariant db == old(db).(untriggered := old(db).untriggered + Names(tables[..i]))
        invariant Names(tables[..i]) <= db.tables.Keys
      {
        NamesStep(tables, i);
        ok := DisableTriggers(tables[i].name);
        if !ok {
          assert tables[i].name in Names(tables);
          return;
        }
      }
      assert tables[..|tables|] == tables;
      ok := true;
    }

    method EnableAll(tables: seq<SourceTable>) returns (ok: bool)
      requires Names(tables) <= db.tables.Keys
      modifies this
      ensures ok <==> Clean(faults, old(statements), |tables|)
      ensures ok ==> statements == old(statements) + |tables|
      ensures ok ==> db == old(db).(untriggered := old(db).untriggered - Names(tables))
    {
      for i := 0 to |tables|
        invariant statements == old(statements) + i && Clean(faults, old(statements), i)
        invariant db == old(db).(untriggered := old(db).untriggered - Names(tables[..i]))
      {
        NamesStep(tables, i);
        assert tables[i].name in Names(tables);
        ok := EnableTriggers(tables[i].name);
        if !ok {
          return;
        }
      }
      assert tables[..|tables|] == tables;
      ok := true;
    }

    /** The rows of one table, at most 30000 values at a time; the size of the chunks never makes it fail. */
    method CopyTable(table: SourceTable) returns (ok: bool, inserted: nat)
      requires table.name in db.tables
      modifies this
      ensures ok <==> Writable(columns, table) && Clean(faults, old(statements), Chunks(table))
      ensures ok ==> statements == old(statements) + Chunks(table) && inserted == |Expected(table)|
      ensures ok ==>
        db == old(db).(tables := old(db).tables[table.name := old(db).tables[table.name] + Expected(table)])
    {
      inserted := 0;
      var names := Copied(table.columns);
      AppendNothing(db.tables, table.name);
      if |names| == 0 || |table.rows| == 0 {
        assert Expected(table) == [];
        return true, 0;
      }
      ok, inserted := CopyRows(table, names);
    }

    /** The rows from `offset` on that fit one statement. */
    method CopyChunk(table: SourceTable, names: seq<string>, offset: nat, ghost initial: seq<Row>)
        returns (ok: bool, size: nat)
      requires table.name in db.tables && names == Copied(table.columns) && names != [] && offset < |table.rows|
      requires db.tables[table.name] == initial + Expected(table)[..offset]
      modifies this
      ensures statements == old(statements) + 1 && (ok <==> !faults(statements) && Writable(columns, table))
      ensures size == if |table.rows| - offset <= ChunkSize(|names|) then |table.rows| - offset else ChunkSize(|names|)
      ensures ok ==>
        db == old(db).(tables := old(db).tables[table.name := initial + Expected(table)[..offset + size]])
    {
      var chunkSize := ChunkSize(|names|);
      var end := if offset + chunkSize < |table.rows| then offset + chunkSize else |table.rows|;
      var chunk := Projected(table.rows[offset..end], names);
      size := |chunk|;
      ChunkAppended(table, names, offset, end, initial);
      ChunkSendable(size, |names|);
      ok := Insert(table.name, names, chunk);
    }

    method CopyRows(table: SourceTable, names: seq<string>) returns (ok: bool, inserted: nat)
      requires table.name in db.tables && names == Copied(table.columns) && names != [] && table.rows != []
      modifies this
      ensures ok <==> Writable(columns, table) && Clean(faults, old(statements), Chunks(table))
      ensures ok ==> statements == old(statements) + Chunks(table) && inserted == |table.rows|
      ensures ok ==>
        db == old(db).(tables := old(db).tables[table.name := old(db).tables[table.name] + Expected(table)])
    {
      ghost var initial := db.tables[table.name];
      ghost var sent := 0;
      inserted := 0;
      AppendNothing(db.tables, table.name);
      assert Expected(table)[..0] == [];
      while inserted < |table.rows|
        invariant inserted <= |table.rows| && statements == old(statements) + sent
        invariant sent + ChunkCount(|table.rows| - inserted, ChunkSize(|names|)) == Chunks(table)
        invariant Clean(faults, old(statements), sent) && (sent > 0 ==> Writable(columns, table))
        invariant db == old(db).(tables := old(db).tables[table.name := initial + Expected(table)[..inserted]])
        decreases |table.rows| - inserted
      {
        var size;
        ok, size := CopyChunk(table, names, inserted, initial);
        ChunkCountNext(|table.rows| - inserted, ChunkSize(|names|), size);
        if !ok {
          return;
        }
        inserted := inserted + size;
        sent := sent + 1;
      }
      assert Expected(table)[..|table.rows|] == Expected(table);
      ok := true;
    }

    method CopyTables(manifest: seq<SourceTable>) returns (ok: bool, copied: nat)
      requires DistinctNames(manifest)
      requires CopiedTo(db, db, manifest, 0)
      modifies this
      ensures ok <==> AllWritable(columns, manifest) && Clean(faults, old(statements), AllChunks(manifest))
      ensures ok ==> statements == old(statements) + AllChunks(manifest)
      ensures ok ==> copied == CopiedRows(manifest) && CopiedTo(old(db), db, manifest, |manifest|)
    {
      copied := 0;
      for i := 0 to |manifest|
        invariant copied == CopiedRows(manifest[..i])
        invariant CopiedTo(old(db), db, manifest, i)
        invariant AllWritable(columns, manifest[..i])
        invariant statements == old(statements) + AllChunks(manifest[..i])
        invariant Clean(faults, old(statements), AllChunks(manifest[..i]))
      {
        ghost var now := db;
        var inserted;
        CopiedRowsNext(manifest, i);
        ok, inserted := CopyTable(manifest[i]);
        if !ok {
          ChunksWithin(manifest, i);
          CleanPart(faults, old(statements), AllChunks(manifest[..i]), Chunks(manifest[i]), AllChunks(manifest));
          return;
        }
        CopiedToNext(old(db), now, db, manifest, i);
        WritableNext(columns, manifest, i);
        CleanJoin(faults, old(statements), AllChunks(manifest[..i]), Chunks(manifest[i]));
        copied := copied + inserted;
      }
      assert manifest[..|manifest|] == manifest;
      ok := true;
    }

    /** One sequence one above the largest number of its column. */
    method Resync(serial: Serial) returns (ok: bool)
      requires serial in db.next
      modifies this
      ensures statements == old(statements) + 1
      ensures ok <==> !faults(statements) && NextAfter(RowsOf(old(db).tables, serial.table), serial.column) >= 1
      ensures ok ==>
        db == old(db).(next := old(db).next[serial := NextAfter(RowsOf(old(db).tables, serial.table), serial.column)])
    {
      ok := SetNext(serial, NextAfter(RowsOf(db.tables, serial.table), serial.column));
    }

    /** Each sequence of the manifest. */
    method ResyncSequences(serials: set<Serial>) returns (ok: bool)
      requires serials <= db.next.Keys
      modifies this
      ensures ok <==> Clean(faults, old(statements), |serials|) && CanFollow(serials, old(db).tables)
      ensures ok ==> statements == old(statements) + |serials|
      ensures ok ==> Resynced(old(db), db, serials)
    {
      var todo := serials;
      while todo != {}
        invariant todo <= serials && statements + |todo| == old(statements) + |serials|
        invariant Clean(faults, old(statements), statements - old(statements))
        invariant CanFollow(serials - todo, old(db).tables)
        invariant Resynced(old(db), db, serials - todo)
        decreases |todo|
      {
        var serial :| serial in todo;
        ok := Resync(serial);
        if !ok {
          return;
        }
        todo := todo - {serial};
      }
      assert serials - todo == serials;
      ok := true;
    }

    /** Drops the keys, turns the triggers off and empties the tables. */
    method Open(manifest: seq<SourceTable>) returns (ok: bool)
      modifies this
      ensures ok <==>
        && Names(manifest) <= old(db).tables.Keys
        && Clean(faults, old(statements), OpenSteps(old(db), manifest))
      ensures ok ==> statements == old(statements) + OpenSteps(old(db), manifest)
      ensures ok ==> db == Opened(old(db), manifest)
    {
      ghost var from, drops := statements, |Touching(db.keys, Names(manifest))|;
      CleanPart(faults, from, 0, drops, drops + |manifest| + 1);
      CleanPart(faults, from, drops, |manifest|, drops + |manifest| + 1);
      CleanPart(faults, from, drops + |manifest|, 1, drops + |manifest| + 1);
      ok := DropKeys(Touching(db.keys, Names(manifest)));
      if !ok {
        return;
      }
      ok := DisableAll(manifest);
      if !ok {
        return;
      }
      CleanJoin(faults, from, drops, |manifest|);
      ok := Truncate(Names(manifest));
    }

    /** Moves the sequences on, turns the triggers on, puts the keys back, writes the log and commits. */
    method Close(manifest: seq<SourceTable>, keys: set<ForeignKey>, load: Load) returns (ok: bool)
      requires Names(manifest) <= db.tables.Keys
      modifies this
      ensures ok <==>
        && CanFollow(SerialsOf(old(db).next, Names(manifest)), old(db).tables)
        && AllHold(keys, old(db).tables)
        && Clean(faults, old(statements), CloseSteps(old(db), manifest, keys))
      ensures ok ==> statements == old(statements) + CloseSteps(old(db), manifest, keys)
      ensures ok ==> Closed(old(db), db, manifest, keys, load)
    {
      ghost var from := statements;
      ghost var serials := SerialsOf(db.next, Names(manifest));
      ghost var total := CloseSteps(db, manifest, keys);
      CleanPart(faults, from, 0, |serials|, total);
      CleanPart(faults, from, |serials|, |manifest|, total);
      CleanPart(faults, from, |serials| + |manifest|, |keys|, total);
      CleanPart(faults, from, |serials| + |manifest| + |keys|, 2, total);
      ok := ResyncSequences(SerialsOf(db.next, Names(manifest)));
      if !ok {
        return;
      }
      ok := EnableAll(manifest);
      if !ok {
        return;
      }
      CleanJoin(faults, from, |serials|, |manifest|);
      ok := AddKeys(keys);
      if !ok {
        return;
      }
      CleanJoin(faults, from, |serials| + |manifest|, |keys|);
      ok := RecordAndCommit(load);
    }

    /** The statements up to COMMIT: when they succeed, and what they leave. */
    method LoadAll(manifest: seq<SourceTable>, origin: string) returns (ok: bool, copied: nat)
      requires DistinctNames(manifest)
      requires forall s :: s in db.next ==> s.table in db.tables
      modifies this
      ensures ok <==> Loadable(columns, old(db), manifest) && Clean(faults, old(statements), Steps(old(db), manifest))
      ensures ok ==> statements == old(statements) + Steps(old(db), manifest)
      ensures ok ==> LoadedFrom(old(db), db, manifest, origin) && copied == CopiedRows(manifest)
    {
      ghost var from, before := statements, db;
      var keys := Touching(db.keys, Names(manifest));
      copied := 0;
      StepsSplit(faults, before, manifest, from);
      ok := Open(manifest);
      if !ok {
        return;
      }
      OpenedReady(before, manifest);
      ok, copied := CopyTables(manifest);
      if !ok {
        return;
      }
      ghost var filled := db;
      FilledIsFinal(before, filled, manifest);
      ok := Close(manifest, keys, Load(origin, copied, |manifest|));
      if ok {
        LoadedTables(before, filled, manifest);
        LoadedByPhases(before, filled, db, manifest, origin);
        CleanJoin(faults, from, OpenSteps(before, manifest), AllChunks(manifest));
        CleanJoin(faults, from, OpenSteps(before, manifest) + AllChunks(manifest), CloseSteps(filled, manifest, keys));
      }
    }

    /**
     * The whole load. It succeeds, with the manifest in place, every key back and the rest untouched, exactly
     * when the source has seed data that fits the target and no statement fails for reasons of its own;
     * otherwise the target is as it was.
     */
    method SyncSeedData(source: seq<SourceTable>, origin: string) returns (result: Result<(nat, nat)>)
      requires DistinctNames(source)
      requires forall s :: s in db.next ==> s.table in db.tables
      modifies this
      ensures result.Ok? <==>
        && Manifest(source) != []
        && Loadable(columns, old(db), Manifest(source))
        && Clean(faults, old(statements), Steps(old(db), Manifest(source)))
      ensures result.Ok? ==> LoadedFrom(old(db), db, Manifest(source), origin)
      ensures result.Ok? ==> result.value == (CopiedRows(Manifest(source)), |Manifest(source)|)
      ensures result.Err? ==> db == old(db)
    {
      var manifest := Manifest(source);
      if |manifest| == 0 {
        return Err("NothingToCopy");
      }
      ManifestDistinct(source);
      var start := db;
      var ok, copied := LoadAll(manifest, origin);
      if !ok {
        db := start;
        return Err("RolledBack");
      }
      return Ok((copied, |manifest|));
    }
  }

  lemma StepsSplit(faults: nat -> bool, db: Database, manifest: seq<SourceTable>, from: nat)
    ensures var keys := Touching(db.keys, Names(manifest));
            var (a, b) := (OpenSteps(db, manifest), AllChunks(manifest));
            var c := CloseSteps(db, manifest, keys);
            && Steps(db, manifest) == a + b + c
            && (Clean(faults, from, a + b + c) ==>
                  Clean(faults, from, a) && Clean(faults, from + a, b) && Clean(faults, from + a + b, c))
  {
  }

  /** After the tables are emptied the copy can begin. */
  lemma OpenedReady(before: Database, manifest: seq<SourceTable>)
    requires Names(manifest) <= before.tables.Keys
    ensures var db := Opened(before, manifest); CopiedTo(db, db, manifest, 0)
  {
    forall i | 0 <= i < |manifest|
      ensures manifest[i].name in Names(manifest)
    {
    }
  }

  lemma {:induction false} ExpectedByName(manifest: seq<SourceTable>, i: nat)
    requires DistinctNames(manifest) && i < |manifest|
    ensures ExpectedOf(manifest, manifest[i].name) == Expected(manifest[i])
    decreases |manifest|
  {
    if i < |manifest| - 1 {
      var init := manifest[..|manifest| - 1];
      assert init[i] == manifest[i];
      ExpectedByName(init, i);
    }
  }

  /** The copy leaves the final tables; sequences and keys are those of the emptied database. */
  lemma FilledIsFinal(before: Database, filled: Database, manifest: seq<SourceTable>)
    requires DistinctNames(manifest) && Names(manifest) <= before.tables.Keys
    requires CopiedTo(Opened(before, manifest), filled, manifest, |manifest|)
    ensures filled.tables == FinalTables(before.tables, manifest)
    ensures SerialsOf(filled.next, Names(manifest)) == SerialsOf(before.next, Names(manifest))
  {
    forall name | name in before.tables
      ensures filled.tables[name] == FinalTables(before.tables, manifest)[name]
    {
      if name in Names(manifest) {
        var i :| 0 <= i < |manifest| && manifest[i].name == name;
        ExpectedByName(manifest, i);
      }
    }
  }

  lemma LoadedTables(before: Database, filled: Database, manifest: seq<SourceTable>)
    requires CopiedTo(Opened(before, manifest), filled, manifest, |manifest|)
    ensures TablesLoaded(before.tables, filled.tables, manifest)
    ensures filled == Opened(before, manifest).(tables := filled.tables)
  {
  }

  lemma LoadedSequences(before: Database, filled: Database, after: Database, manifest: seq<SourceTable>)
    requires filled.next == Restarted(before.next, Names(manifest)) && after.tables == filled.tables
    requires Resynced(filled, filled.(next := after.next), SerialsOf(filled.next, Names(manifest)))
    ensures SequencesMoved(before, after, Names(manifest))
  {
  }

  lemma LoadedKeys(before: Database, filled: Database, after: Database, names: set<TableName>)
    requires filled.keys == before.keys - Touching(before.keys, names) && after.tables == filled.tables
    requires after.keys == filled.keys + Touching(before.keys, names)
    requires AllHold(Touching(before.keys, names), filled.tables)
    ensures KeysBack(before, after, names)
  {
    forall key | key in before.keys && key.validated && Touches(key, names)
      ensures Holds(key, filled.tables)
    {
      assert key in Touching(before.keys, names);
    }
  }

  lemma TriggersBack(before: set<TableName>, names: set<TableName>)
    ensures (before + names) - names == before - names
  {
  }

  lemma LoadedByPhases(before: Database, filled: Database, after: Database, manifest: seq<SourceTable>, origin: string)
    requires filled == Opened(before, manifest).(tables := filled.tables)
    requires TablesLoaded(before.tables, filled.tables, manifest)
    requires Closed(filled, after, manifest, Touching(before.keys, Names(manifest)),
                    Load(origin, CopiedRows(manifest), |manifest|))
    requires AllHold(Touching(before.keys, Names(manifest)), filled.tables)
    ensures LoadedFrom(before, after, manifest, origin)
  {
    LoadedSequences(before, filled, after, manifest);
    LoadedKeys(before, filled, after, Names(manifest));
    TriggersBack(before.untriggered, Names(manifest));
  }

  /** The first n tables of the manifest are copied, the others of it empty, and the rest as before. */
  predicate CopiedTo(before: Database, now: Database, manifest: seq<SourceTable>, n: nat) {
    && now == before.(tables := now.tables)
    && now.tables.Keys == before.tables.Keys
    && (forall i :: 0 <= i < |manifest| ==>
          manifest[i].name in now.tables && now.tables[manifest[i].name] == if i < n then Expected(manifest[i]) else [])
    && (forall name :: name in now.tables && name !in Names(manifest) ==> now.tables[name] == before.tables[name])
  }

  lemma CopiedToNext(before: Database, now: Database, after: Database, manifest: seq<SourceTable>, n: nat)
    requires DistinctNames(manifest) && n < |manifest| && CopiedTo(before, now, manifest, n)
    requires after == now.(tables := now.tables[manifest[n].name :=
      now.tables[manifest[n].name] + Expected(manifest[n])])
    ensures CopiedTo(before, after, manifest, n + 1)
  {
    assert [] + Expected(manifest[n]) == Expected(manifest[n]);
    assert manifest[n].name in Names(manifest);
    forall i | 0 <= i < |manifest|
      ensures after.tables[manifest[i].name] == if i < n + 1 then Expected(manifest[i]) else []
    {
      assert i != n ==> manifest[i].name != manifest[n].name;
    }
  }

  lemma CopiedRowsNext(manifest: seq<SourceTable>, n: nat)
    requires n < |manifest|
    ensures CopiedRows(manifest[..n + 1]) == CopiedRows(manifest[..n]) + |Expected(manifest[n])|
    ensures AllChunks(manifest[..n + 1]) == AllChunks(manifest[..n]) + Chunks(manifest[n])
  {
    assert manifest[..n + 1][..n] == manifest[..n];
  }

  lemma WritableNext(columns: map<TableName, set<string>>, manifest: seq<SourceTable>, n: nat)
    requires n < |manifest| && AllWritable(columns, manifest[..n]) && Writable(columns, manifest[n])
    ensures AllWritable(columns, manifest[..n + 1])
  {
    var longer := manifest[..n + 1];
    forall i | 0 <= i < |longer|
      ensures Writable(columns, longer[i])
    {
      assert i < n ==> longer[i] == manifest[..n][i];
    }
  }

  lemma {:induction false} ChunksWithin(manifest: seq<SourceTable>, n: nat)
    requires n < |manifest|
    ensures AllChunks(manifest[..n]) + Chunks(manifest[n]) <= AllChunks(manifest)
    decreases |manifest|
  {
    if n < |manifest| - 1 {
      var init := manifest[..|manifest| - 1];
      assert init[..n] == manifest[..n] && init[n] == manifest[n];
      ChunksWithin(init, n);
    }
  }

  lemma AppendNothing(tables: map<TableName, seq<Row>>, name: TableName)
    requires name in tables
    ensures tables[name := tables[name] + []] == tables
  {
    assert tables[name] + [] == tables[name];
  }

  lemma ChunkAppended(table: SourceTable, names: seq<string>, offset: nat, end: nat, initial: seq<Row>)
    requires names == Copied(table.columns) && names != [] && offset <= end <= |table.rows|
    ensures (initial + Expected(table)[..offset]) + Projected(table.rows[offset..end], names) ==
            initial + Expected(table)[..end]
  {
    ProjectedSlice(table.rows, names, offset, end);
  }

  /** A statement has at most 30000 parameters, unless one row alone has more columns than that. */
  lemma ChunkFits(columns: nat, size: nat)
    requires columns > 0 && size <= ChunkSize(columns)
    ensures size * columns <= 30000 || size == 1
  {
    assert MAX_PARAMS == (MAX_PARAMS / columns) * columns + MAX_PARAMS % columns;
    if size > 1 {
      MulMonotone(size, MAX_PARAMS / columns, columns);
    }
  }

  /** And one row more would be over it. */
  lemma ChunkIsLargest(columns: nat)
    requires columns > 0
    ensures (ChunkSize(columns) + 1) * columns > 30000
  {
    assert MAX_PARAMS == (MAX_PARAMS / columns) * columns + MAX_PARAMS % columns;
    MulMonotone(MAX_PARAMS / columns, ChunkSize(columns), columns);
  }

  /** So only a single row with too many columns is more than a statement can take. */
  lemma ChunkSendable(size: nat, columns: nat)
    requires columns > 0 && 0 < size <= ChunkSize(columns)
    ensures size * columns <= 65535 <==> columns <= 65535
  {
    ChunkFits(columns, size);
    MulMonotone(1, size, columns);
  }
}
