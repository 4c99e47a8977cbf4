/** The column-to-dictionary conversion shared by every model
    (app/models/base.py, `BaseModel.to_dict`). */
module BaseModel {
  import opened Values

  /** A row as its table's columns give it: (column name, attribute value), in column order. */
  type Row = seq<(string, Value)>

  function Names(row: Row): set<string> {
    set p | p in row :: p.0
  }

  predicate DistinctNames(row: Row) {
    forall i, j :: 0 <= i < j < |row| ==> row[i].0 != row[j].0
  }

  lemma NamesSnoc(row: Row)
    requires row != []
    ensures Names(row) == Names(row[..|row| - 1]) + {row[|row| - 1].0}
  {
    var init := row[..|row| - 1];
    assert row == init + [row[|row| - 1]];
    assert forall p :: p in row <==> p in init || p == row[|row| - 1];
  }

  /** `{column.name: getattr(self, column.name) for column in self.__table__.columns}`:
      one key per column name and no other. */
  function ToDict(row: Row): (d: map<string, Value>)
    ensures d.Keys == Names(row)
  {
    if row == [] then map[]
    else
      NamesSnoc(row);
      ToDict(row[..|row| - 1])[row[|row| - 1].0 := row[|row| - 1].1]
  }

  /** When every column's value is the attribute of that name, so is every
      entry of the dictionary. */
  lemma {:induction false} ToDictFromAttributes(row: Row, attr: string -> Option<Value>)
    requires forall i :: 0 <= i < |row| ==> attr(row[i].0) == Some(row[i].1)
    ensures forall k :: k in ToDict(row) ==> attr(k) == Some(ToDict(row)[k])
  {
    if row != [] {
      var init := row[..|row| - 1];
      assert forall i :: 0 <= i < |init| ==> init[i] == row[i];
      ToDictFromAttributes(init, attr);
    }
  }

  /** A column no later column shadows keeps its value in the dictionary. */
  lemma {:induction false} ToDictLookup(row: Row, i: nat)
    requires i < |row|
    requires forall j :: i < j < |row| ==> row[j].0 != row[i].0
    ensures row[i].0 in ToDict(row) && ToDict(row)[row[i].0] == row[i].1
  {
    NamesSnoc(row);
    if i < |row| - 1 {
      var init := row[..|row| - 1];
      assert init[i] == row[i];
      ToDictLookup(init, i);
    }
  }
}
