/**
 * `create_new_db`: decide whether an existing database file is removed, then build
 * and run the CREATE TABLE query. The file system, the prompt and sqlite3 are
 * parameters: whether the file exists, the typed answer, and which calls succeed.
 */
module CreateNewDb {
  import opened Text
  import opened DdlText

  /** The query text: the column fragments joined by a single space. */
  function CreateTableQuery(tableName: string, columns: seq<string>, columnTypes: seq<string>,
                            primaryKey: string := "id", primaryKeyType: string := "INTEGER"): string
    requires |columnTypes| >= |columns|
  {
    TableQuery("CREATE TABLE", tableName, primaryKey, primaryKeyType, Join(ColumnFragments(columns, columnTypes), " "))
  }

  /**
   * The query starts `CREATE TABLE <name> (` (no IF NOT EXISTS), ends with `);`, and the
   * primary-key clause comes before the joined column clause.
   */
  lemma CreateTableQueryLayout(tableName: string, columns: seq<string>, columnTypes: seq<string>,
                               primaryKey: string, primaryKeyType: string)
    returns (p: nat, c: nat)
    requires |columnTypes| >= |columns|
    ensures var q := CreateTableQuery(tableName, columns, columnTypes, primaryKey, primaryKeyType);
      var head := "CREATE TABLE " + tableName + " (";
      |head| <= |q| && q[..|head|] == head &&
      |q| >= 2 && q[|q| - 2..] == ");" &&
      OccursAt(q, primaryKey + " " + primaryKeyType + " PRIMARY KEY", p) &&
      OccursAt(q, Join(ColumnFragments(columns, columnTypes), " "), c) &&
      p + |primaryKey + " " + primaryKeyType + " PRIMARY KEY"| < c
  {
    p, c := TableQueryLayout("CREATE TABLE", tableName, primaryKey, primaryKeyType, Join(ColumnFragments(columns, columnTypes), " "));
  }

  /** Neighbouring columns appear in order, after the primary key, separated by one space. */
  lemma CreateColumnsAdjacent(tableName: string, columns: seq<string>, columnTypes: seq<string>,
                              primaryKey: string, primaryKeyType: string, i: nat)
    returns (p: nat, k: nat)
    requires |columnTypes| >= |columns| && i + 1 < |columns|
    ensures var q := CreateTableQuery(tableName, columns, columnTypes, primaryKey, primaryKeyType);
      OccursAt(q, primaryKey + " " + primaryKeyType + " PRIMARY KEY", p) &&
      var frags := ColumnFragments(columns, columnTypes);
      OccursAt(q, frags[i] + " " + frags[i + 1], k) &&
      p < k
  {
    var frags := ColumnFragments(columns, columnTypes);
    var c;
    p, c := CreateTableQueryLayout(tableName, columns, columnTypes, primaryKey, primaryKeyType);
    var j := JoinNeighbours(frags, " ", i);
    OccursWithin(CreateTableQuery(tableName, columns, columnTypes, primaryKey, primaryKeyType), Join(frags, " "), c, frags[i] + " " + frags[i + 1], j);
    k := c + j;
  }

  /** With no columns the column line is empty: only the primary key is defined. */
  lemma CreateWithoutColumns(tableName: string, columnTypes: seq<string>, primaryKey: string, primaryKeyType: string)
    ensures CreateTableQuery(tableName, [], columnTypes, primaryKey, primaryKeyType) ==
      "CREATE TABLE " + tableName + " (\n" + Indent + primaryKey + " " + primaryKeyType + " PRIMARY KEY\n" +
      Indent + "\n" + CloseIndent + ");"
  {
    assert ColumnFragments([], columnTypes) == [];
  }

  /** Types beyond the number of columns are never read. */
  lemma CreateIgnoresExtraTypes(tableName: string, columns: seq<string>, columnTypes: seq<string>,
                                primaryKey: string, primaryKeyType: string)
    requires |columnTypes| >= |columns|
    ensures CreateTableQuery(tableName, columns, columnTypes, primaryKey, primaryKeyType) ==
      CreateTableQuery(tableName, columns, columnTypes[..|columns|], primaryKey, primaryKeyType)
  {
    assert ColumnFragments(columns, columnTypes) == ColumnFragments(columns, columnTypes[..|columns|]);
  }

  /** Two columns, each fragment with its leading comma, joined by one space. */
  lemma CreateColumnClauseExample()
    ensures Join(ColumnFragments(["name", "age"], ["TEXT", "INTEGER"]), " ") == ", name TEXT , age INTEGER"
  {
    var frags := ColumnFragments(["name", "age"], ["TEXT", "INTEGER"]);
    assert frags[0] == ", name TEXT" && frags[1] == ", age INTEGER";
    assert frags[1..] == [", age INTEGER"];
  }

  /** What happens before connecting. */
  datatype Step = RemoveThenConnect | ConnectOnly | ReturnEarly

  /** The exists / drop_existing / prompt branch; `answer` is what `input` returns. */
  function Decide(dbExists: bool, dropExisting: bool, answer: string): Step {
    if dbExists then
      if !dropExisting then (if Lower(answer) == "y" then RemoveThenConnect else ReturnEarly)
      else RemoveThenConnect
    else ConnectOnly
  }

  /** A confirming answer is exactly `y` or `Y`. */
  lemma ConfirmingAnswers(answer: string)
    ensures Lower(answer) == "y" <==> answer == "y" || answer == "Y"
  {
    if Lower(answer) == "y" {
      assert LowerChar(answer[0]) == 'y';
    }
  }

  /**
   * The file is removed exactly when it exists and either dropping was requested or the
   * answer confirmed; the function returns early exactly when it exists, dropping was
   * not requested and the answer did not confirm; otherwise it connects straight away.
   */
  lemma DecideMeaning(dbExists: bool, dropExisting: bool, answer: string)
    ensures Decide(dbExists, dropExisting, answer) == RemoveThenConnect <==>
      dbExists && (dropExisting || answer == "y" || answer == "Y")
    ensures Decide(dbExists, dropExisting, answer) == ReturnEarly <==>
      dbExists && !dropExisting && answer != "y" && answer != "Y"
    ensures Decide(dbExists, dropExisting, answer) == ConnectOnly <==> !dbExists
  {
    ConfirmingAnswers(answer);
  }

  /** The answer only matters when the user is prompted. */
  lemma AnswerReadOnlyWhenPrompted(dbExists: bool, dropExisting: bool, a: string, b: string)
    requires !dbExists || dropExisting
    ensures Decide(dbExists, dropExisting, a) == Decide(dbExists, dropExisting, b)
  {
  }

  /**
   * What the sqlite3 calls report: whether `connect`, `execute` and `commit` succeed.
   * `commit` and `close` share one `try`, so `commitOk` covers both.
   */
  datatype SqliteResults = SqliteResults(connectOk: bool, executeOk: bool, commitOk: bool)

  /**
   * How a call ends. The `raise f"..."` statements, and the `IndexError` of a column
   * without a type, all end the call with an exception.
   */
  datatype Outcome = Declined | Raised | CommitFailed | Created(removedExisting: bool, query: string)

  /** The whole call; `removeOk` says whether `os.remove` succeeds. */
  function CreateNewDbOutcome(dbExists: bool, answer: string, removeOk: bool, sqlite: SqliteResults,
                              tableName: string, columns: seq<string>, columnTypes: seq<string>,
                              primaryKey: string := "id", primaryKeyType: string := "INTEGER",
                              dropExisting: bool := false): (o: Outcome)
    ensures o == Declined <==> Decide(dbExists, dropExisting, answer) == ReturnEarly
    ensures o.Created? <==>
      Decide(dbExists, dropExisting, answer) != ReturnEarly && (dbExists ==> removeOk) &&
      sqlite.connectOk && |columnTypes| >= |columns| && sqlite.executeOk && sqlite.commitOk
    ensures o.Created? ==>
      o.removedExisting == dbExists &&
      o.query == CreateTableQuery(tableName, columns, columnTypes, primaryKey, primaryKeyType)
    ensures o == CommitFailed <==>
      Decide(dbExists, dropExisting, answer) != ReturnEarly && (dbExists ==> removeOk) &&
      sqlite.connectOk && |columnTypes| >= |columns| && sqlite.executeOk && !sqlite.commitOk
    ensures o == Raised <==>
      Decide(dbExists, dropExisting, answer) != ReturnEarly &&
      !((dbExists ==> removeOk) && sqlite.connectOk && |columnTypes| >= |columns| && sqlite.executeOk)
  {
    var step := Decide(dbExists, dropExisting, answer);
    if step == ReturnEarly then Declined
    else if step == RemoveThenConnect && !removeOk then Raised
    else if !sqlite.connectOk then Raised
    else if |columnTypes| < |columns| then Raised
    else if !sqlite.executeOk then Raised
    else if !sqlite.commitOk then CommitFailed
    else Created(step == RemoveThenConnect, CreateTableQuery(tableName, columns, columnTypes, primaryKey, primaryKeyType))
  }
}
