/**
 * The CREATE TABLE template that both SQLite helper scripts fill in: a header line,
 * the primary-key clause, the column clause and the closing parenthesis, with the
 * indentation the scripts' triple-quoted f-strings carry.
 */
module DdlText {
  import opened Text

  const Indent: string := "                                "
  const CloseIndent: string := "                            "

  /** `[f", {columns[i]} {column_types[i]}" for i in range(len(columns))]`; only the first `len(columns)` types are read. */
  function ColumnFragments(columns: seq<string>, columnTypes: seq<string>): (frags: seq<string>)
    requires |columnTypes| >= |columns|
    ensures |frags| == |columns|
    ensures forall i | 0 <= i < |columns| :: frags[i] == ", " + columns[i] + " " + columnTypes[i]
  {
    seq(|columns|, i requires 0 <= i < |columns| => ", " + columns[i] + " " + columnTypes[i])
  }

  function PrimaryKeyClause(primaryKey: string, primaryKeyType: string): string {
    primaryKey + " " + primaryKeyType + " PRIMARY KEY"
  }

  function Header(keyword: string, tableName: string): string {
    keyword + " " + tableName + " ("
  }

  /** The f-string: header, primary key on the next line, then the column clause, then `);`. */
  function TableQuery(keyword: string, tableName: string, primaryKey: string, primaryKeyType: string, columnClause: string): string {
    Header(keyword, tableName) + "\n" + Indent + PrimaryKeyClause(primaryKey, primaryKeyType) + "\n" +
    Indent + columnClause + "\n" + CloseIndent + ");"
  }

  /**
   * Where the parts sit: the query starts with the header and ends with `);`, and the
   * primary-key clause (at `p`) comes before the column clause (at `c`).
   */
  lemma TableQueryLayout(keyword: string, tableName: string, primaryKey: string, primaryKeyType: string, columnClause: string)
    returns (p: nat, c: nat)
    ensures var q := TableQuery(keyword, tableName, primaryKey, primaryKeyType, columnClause);
      |Header(keyword, tableName)| <= |q| && q[..|Header(keyword, tableName)|] == Header(keyword, tableName) &&
      |q| >= 2 && q[|q| - 2..] == ");" &&
      OccursAt(q, PrimaryKeyClause(primaryKey, primaryKeyType), p) &&
      OccursAt(q, columnClause, c) &&
      p + |PrimaryKeyClause(primaryKey, primaryKeyType)| < c
  {
    var head := Header(keyword, tableName);
    var pkc := PrimaryKeyClause(primaryKey, primaryKeyType);
    var front := head + "\n" + Indent;
    var middle := front + pkc + "\n" + Indent;
    var q := TableQuery(keyword, tableName, primaryKey, primaryKeyType, columnClause);
    assert q == middle + columnClause + "\n" + CloseIndent + ");";
    p := |front|;
    c := |middle|;
    assert q[..|head|] == head;
    assert q[p..p + |pkc|] == pkc;
    assert q[c..c + |columnClause|] == columnClause;
  }

  /** The keyword is a plain prefix: the rest of the text does not depend on it. */
  lemma TableQueryKeyword(keyword: string, tableName: string, primaryKey: string, primaryKeyType: string, columnClause: string)
    ensures TableQuery(keyword, tableName, primaryKey, primaryKeyType, columnClause) ==
      keyword + TableQuery("", tableName, primaryKey, primaryKeyType, columnClause)
  {
  }
}
