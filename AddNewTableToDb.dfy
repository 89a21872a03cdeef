/**
 * `add_new_table_to_db`: refuse a missing database file, then build and run a
 * CREATE TABLE IF NOT EXISTS query. Every sqlite3 failure is reported by returning;
 * only a column without a type raises, an `IndexError` outside any `try`. The file
 * system and sqlite3 are parameters.
 */
module AddNewTableToDb {
  import opened Text
  import opened DdlText
  import CreateNewDb

  /** The query text: the column fragments joined by `", "`. */
  function AddTableQuery(tableName: string, columns: seq<string>, columnTypes: seq<string>,
                         primaryKey: string := "id", primaryKeyType: string := "INTEGER"): string
    requires |columnTypes| >= |columns|
  {
    TableQuery("CREATE TABLE IF NOT EXISTS", tableName, primaryKey, primaryKeyType, Join(ColumnFragments(columns, columnTypes), ", "))
  }

  /**
   * The query starts `CREATE TABLE IF NOT EXISTS <name> (`, ends with `);`, and the
   * primary-key clause comes before the joined column clause.
   */
  lemma AddTableQueryLayout(tableName: string, columns: seq<string>, columnTypes: seq<string>,
                            primaryKey: string, primaryKeyType: string)
    returns (p: nat, c: nat)
    requires |columnTypes| >= |columns|
    ensures var q := AddTableQuery(tableName, columns, columnTypes, primaryKey, primaryKeyType);
      var head := "CREATE TABLE IF NOT EXISTS " + tableName + " (";
      |head| <= |q| && q[..|head|] == head &&
      |q| >= 2 && q[|q| - 2..] == ");" &&
      OccursAt(q, primaryKey + " " + primaryKeyType + " PRIMARY KEY", p) &&
      OccursAt(q, Join(ColumnFragments(columns, columnTypes), ", "), c) &&
      p + |primaryKey + " " + primaryKeyType + " PRIMARY KEY"| < c
  {
    p, c := TableQueryLayout("CREATE TABLE IF NOT EXISTS", tableName, primaryKey, primaryKeyType, Join(ColumnFragments(columns, columnTypes), ", "));
  }

  /** Neighbouring columns appear in order, after the primary key, separated by `", "`. */
  lemma AddColumnsAdjacent(tableName: string, columns: seq<string>, columnTypes: seq<string>,
                           primaryKey: string, primaryKeyType: string, i: nat)
    returns (p: nat, k: nat)
    requires |columnTypes| >= |columns| && i + 1 < |columns|
    ensures var q := AddTableQuery(tableName, columns, columnTypes, primaryKey, primaryKeyType);
      var frags := ColumnFragments(columns, columnTypes);
      OccursAt(q, primaryKey + " " + primaryKeyType + " PRIMARY KEY", p) &&
      OccursAt(q, frags[i] + ", " + frags[i + 1], k) &&
      p < k
  {
    var frags := ColumnFragments(columns, columnTypes);
    var c;
    p, c := AddTableQueryLayout(tableName, columns, columnTypes, primaryKey, primaryKeyType);
    var j := JoinNeighbours(frags, ", ", i);
    OccursWithin(AddTableQuery(tableName, columns, columnTypes, primaryKey, primaryKeyType), Join(frags, ", "), c, frags[i] + ", " + frags[i + 1], j);
    k := c + j;
  }

  /** With two or more columns the separator meets the next fragment's own comma: `", , "`. */
  lemma AddDoubleComma(tableName: string, columns: seq<string>, columnTypes: seq<string>,
                       primaryKey: string, primaryKeyType: string)
    returns (k: nat)
    requires |columnTypes| >= |columns| >= 2
    ensures OccursAt(AddTableQuery(tableName, columns, columnTypes, primaryKey, primaryKeyType), ", , ", k)
  {
    var q := AddTableQuery(tableName, columns, columnTypes, primaryKey, primaryKeyType);
    var frags := ColumnFragments(columns, columnTypes);
    var p, k0 := AddColumnsAdjacent(tableName, columns, columnTypes, primaryKey, primaryKeyType, 0);
    var t := frags[0] + ", " + frags[1];
    assert OccursAt(t, ", , ", |frags[0]|) by {
      assert t[|frags[0]|..|frags[0]| + 4] == ", " + frags[1][..2];
    }
    OccursWithin(q, t, k0, ", , ", |frags[0]|);
    k := k0 + |frags[0]|;
  }

  /** With no columns the column line is empty: only the primary key is defined. */
  lemma AddWithoutColumns(tableName: string, columnTypes: seq<string>, primaryKey: string, primaryKeyType: string)
    ensures AddTableQuery(tableName, [], columnTypes, primaryKey, primaryKeyType) ==
      "CREATE TABLE IF NOT EXISTS " + tableName + " (\n" + Indent + primaryKey + " " + primaryKeyType + " PRIMARY KEY\n" +
      Indent + "\n" + CloseIndent + ");"
  {
    assert ColumnFragments([], columnTypes) == [];
  }

  /** Types beyond the number of columns are never read. */
  lemma AddIgnoresExtraTypes(tableName: string, columns: seq<string>, columnTypes: seq<string>,
                             primaryKey: string, primaryKeyType: string)
    requires |columnTypes| >= |columns|
    ensures AddTableQuery(tableName, columns, columnTypes, primaryKey, primaryKeyType) ==
      AddTableQuery(tableName, columns, columnTypes[..|columns|], primaryKey, primaryKeyType)
  {
    assert ColumnFragments(columns, columnTypes) == ColumnFragments(columns, columnTypes[..|columns|]);
  }

  /** With at most one column no separator appears, and the two helpers differ only in `IF NOT EXISTS`. */
  lemma AgreesWithCreateUpToOneColumn(tableName: string, columns: seq<string>, columnTypes: seq<string>,
                                      primaryKey: string, primaryKeyType: string)
    requires |columnTypes| >= |columns| && |columns| <= 1
    ensures var add := AddTableQuery(tableName, columns, columnTypes, primaryKey, primaryKeyType);
      var create := CreateNewDb.CreateTableQuery(tableName, columns, columnTypes, primaryKey, primaryKeyType);
      |add| == |create| + 14 && add[..26] == "CREATE TABLE IF NOT EXISTS" && create[..12] == "CREATE TABLE" &&
      add[26..] == create[12..]
  {
    var frags := ColumnFragments(columns, columnTypes);
    assert Join(frags, ", ") == Join(frags, " ");
    TableQueryKeyword("CREATE TABLE IF NOT EXISTS", tableName, primaryKey, primaryKeyType, Join(frags, " "));
    TableQueryKeyword("CREATE TABLE", tableName, primaryKey, primaryKeyType, Join(frags, " "));
  }

  /** Every separator is one character longer than in the other helper. */
  lemma LongerThanCreate(tableName: string, columns: seq<string>, columnTypes: seq<string>,
                         primaryKey: string, primaryKeyType: string)
    requires |columnTypes| >= |columns| >= 1
    ensures |AddTableQuery(tableName, columns, columnTypes, primaryKey, primaryKeyType)| ==
      |CreateNewDb.CreateTableQuery(tableName, columns, columnTypes, primaryKey, primaryKeyType)| + 14 + (|columns| - 1)
  {
    var frags := ColumnFragments(columns, columnTypes);
    JoinLength(frags, ", ");
    JoinLength(frags, " ");
  }

  /** How a call ends; every sqlite3 failure is a plain return, a missing column type raises. */
  datatype Outcome = NoDatabase | ConnectFailed | Raised | ExecuteFailed | CommitFailed | Added(query: string)

  /** The whole call: the missing-file return, then connect, execute and commit. */
  function AddNewTableToDbOutcome(dbExists: bool, sqlite: CreateNewDb.SqliteResults,
                                  tableName: string, columns: seq<string>, columnTypes: seq<string>,
                                  primaryKey: string := "id", primaryKeyType: string := "INTEGER"): (o: Outcome)
    ensures o == NoDatabase <==> !dbExists
    ensures o == ConnectFailed <==> dbExists && !sqlite.connectOk
    ensures o == Raised <==> dbExists && sqlite.connectOk && |columnTypes| < |columns|
    ensures o == ExecuteFailed <==> dbExists && sqlite.connectOk && |columnTypes| >= |columns| && !sqlite.executeOk
    ensures o == CommitFailed <==>
      dbExists && sqlite.connectOk && |columnTypes| >= |columns| && sqlite.executeOk && !sqlite.commitOk
    ensures o.Added? <==>
      dbExists && sqlite.connectOk && |columnTypes| >= |columns| && sqlite.executeOk && sqlite.commitOk
    ensures o.Added? ==> o.query == AddTableQuery(tableName, columns, columnTypes, primaryKey, primaryKeyType)
  {
    if !dbExists then NoDatabase
    else if !sqlite.connectOk then ConnectFailed
    else if |columnTypes| < |columns| then Raised
    else if !sqlite.executeOk then ExecuteFailed
    else if !sqlite.commitOk then CommitFailed
    else Added(AddTableQuery(tableName, columns, columnTypes, primaryKey, primaryKeyType))
  }

  /** The query with the fragments joined by a single space, as the other helper does. */
  function AddTableQueryIntended(tableName: string, columns: seq<string>, columnTypes: seq<string>,
                                 primaryKey: string := "id", primaryKeyType: string := "INTEGER"): string
    requires |columnTypes| >= |columns|
  {
    TableQuery("CREATE TABLE IF NOT EXISTS", tableName, primaryKey, primaryKeyType, Join(ColumnFragments(columns, columnTypes), " "))
  }

  /** For every column list, the corrected query is the other helper's query with `IF NOT EXISTS` added. */
  lemma IntendedMatchesCreate(tableName: string, columns: seq<string>, columnTypes: seq<string>,
                              primaryKey: string, primaryKeyType: string)
    requires |columnTypes| >= |columns|
    ensures var add := AddTableQueryIntended(tableName, columns, columnTypes, primaryKey, primaryKeyType);
      var create := CreateNewDb.CreateTableQuery(tableName, columns, columnTypes, primaryKey, primaryKeyType);
      |add| == |create| + 14 && add[..26] == "CREATE TABLE IF NOT EXISTS" && add[26..] == create[12..]
  {
    var clause := Join(ColumnFragments(columns, columnTypes), " ");
    TableQueryKeyword("CREATE TABLE IF NOT EXISTS", tableName, primaryKey, primaryKeyType, clause);
    TableQueryKeyword("CREATE TABLE", tableName, primaryKey, primaryKeyType, clause);
  }
}
