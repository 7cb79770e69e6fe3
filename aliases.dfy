/** The alias table both loaders build: rows are already-tokenised records
    (column name to cell text); a row that has the name column and the alias
    column binds that name to that alias, and a later row for the same name
    replaces an earlier one (an insertion into a `HashMap` in Rust, a `dict`
    in Python). */
module AliasTable {

  type Row = map<string, string>

  predicate HasColumns(row: Row, nameKey: string, aliasKey: string)
  {
    nameKey in row && aliasKey in row
  }

  /** The table after inserting the usable rows of `rows` in order. */
  function Collect(rows: seq<Row>, nameKey: string, aliasKey: string): map<string, string>
    decreases |rows|
  {
    if |rows| == 0 then map[]
    else
      var table := Collect(rows[..|rows| - 1], nameKey, aliasKey);
      var row := rows[|rows| - 1];
      if HasColumns(row, nameKey, aliasKey) then table[row[nameKey] := row[aliasKey]] else table
  }

  /** Inserting one more row. */
  lemma CollectAppend(rows: seq<Row>, row: Row, nameKey: string, aliasKey: string)
    ensures Collect(rows + [row], nameKey, aliasKey) ==
      var table := Collect(rows, nameKey, aliasKey);
      if HasColumns(row, nameKey, aliasKey) then table[row[nameKey] := row[aliasKey]] else table
  {
    var all := rows + [row];
    assert all[..|all| - 1] == rows;
  }

  /** The names in the table are exactly the names of the usable rows. */
  lemma {:induction false} CollectKeys(rows: seq<Row>, nameKey: string, aliasKey: string, name: string)
    ensures name in Collect(rows, nameKey, aliasKey) <==>
      exists i :: 0 <= i < |rows| && HasColumns(rows[i], nameKey, aliasKey) && rows[i][nameKey] == name
    decreases |rows|
  {
    if |rows| > 0 {
      var init := rows[..|rows| - 1];
      CollectKeys(init, nameKey, aliasKey, name);
      if name in Collect(init, nameKey, aliasKey) {
        var i :| 0 <= i < |init| && HasColumns(init[i], nameKey, aliasKey) && init[i][nameKey] == name;
        assert rows[i] == init[i];
      }
      if exists i :: 0 <= i < |rows| && HasColumns(rows[i], nameKey, aliasKey) && rows[i][nameKey] == name {
        var i :| 0 <= i < |rows| && HasColumns(rows[i], nameKey, aliasKey) && rows[i][nameKey] == name;
        if i < |init| { assert init[i] == rows[i]; }
      }
    }
  }

  /** A name is bound to the alias of the last usable row that carries it. */
  lemma {:induction false} CollectLastWins(rows: seq<Row>, nameKey: string, aliasKey: string, i: nat)
    requires i < |rows| && HasColumns(rows[i], nameKey, aliasKey)
    requires forall j :: i < j < |rows| && HasColumns(rows[j], nameKey, aliasKey) ==> rows[j][nameKey] != rows[i][nameKey]
    ensures var table := Collect(rows, nameKey, aliasKey);
      rows[i][nameKey] in table && table[rows[i][nameKey]] == rows[i][aliasKey]
    decreases |rows|
  {
    var init := rows[..|rows| - 1];
    if i < |init| {
      forall j | i < j < |init| && HasColumns(init[j], nameKey, aliasKey)
        ensures init[j][nameKey] != init[i][nameKey]
      {
        assert init[j] == rows[j];
      }
      CollectLastWins(init, nameKey, aliasKey, i);
    }
  }

  /** The table is empty exactly when no row is usable. */
  lemma CollectEmpty(rows: seq<Row>, nameKey: string, aliasKey: string)
    ensures |Collect(rows, nameKey, aliasKey)| == 0 <==> forall i :: 0 <= i < |rows| ==> !HasColumns(rows[i], nameKey, aliasKey)
  {
    var table := Collect(rows, nameKey, aliasKey);
    if |table| == 0 {
      forall i | 0 <= i < |rows| ensures !HasColumns(rows[i], nameKey, aliasKey) {
        if HasColumns(rows[i], nameKey, aliasKey) {
          CollectKeys(rows, nameKey, aliasKey, rows[i][nameKey]);
        }
      }
    } else {
      var name :| name in table;
      CollectKeys(rows, nameKey, aliasKey, name);
    }
  }
}
