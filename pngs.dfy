/** The row filter of `get_pngs` in tippecanews/utils/retrievers.py: every `<tr>` of the
    persona-non-grata table, given as the texts of its `<td>` cells, becomes a row of
    stripped cell texts, and rows without cells are dropped. */
module Pngs {
  import opened Strings

  /** `[i.text.strip() for i in td]`: one cell per cell, each its own cell's text with the
      whitespace at both ends cut and none left, and a cell is empty exactly when its text was
      blank. */
  function StripCells(cells: seq<string>): (r: seq<string>)
    ensures |r| == |cells|
    ensures forall k :: 0 <= k < |r| ==> CutOf(cells[k], r[k])
    ensures forall k :: 0 <= k < |r| ==> Strip(r[k]) == r[k]
    ensures forall k :: 0 <= k < |r| ==> (r[k] == [] <==> AllSpace(cells[k]))
  {
    StripCellFacts(cells);
    seq(|cells|, k requires 0 <= k < |cells| => Strip(cells[k]))
  }

  lemma StripCellFacts(cells: seq<string>)
    ensures forall k :: 0 <= k < |cells| ==> Strip(Strip(cells[k])) == Strip(cells[k])
    ensures forall k :: 0 <= k < |cells| ==> (Strip(cells[k]) == [] <==> AllSpace(cells[k]))
    ensures forall k :: 0 <= k < |cells| ==> CutOf(cells[k], Strip(cells[k]))
  {
    forall k | 0 <= k < |cells|
      ensures Strip(Strip(cells[k])) == Strip(cells[k])
      ensures Strip(cells[k]) == [] <==> AllSpace(cells[k])
      ensures CutOf(cells[k], Strip(cells[k]))
    {
      StripIdempotent(cells[k]);
      StripEmptyIffAllSpace(cells[k]);
      StripIsCut(cells[k]);
    }
  }

  /** `kept` is `row` cell by cell, each with the whitespace at its ends cut. */
  predicate CutRow(row: seq<string>, kept: seq<string>) {
    |row| == |kept| && forall j :: 0 <= j < |kept| ==> CutOf(row[j], kept[j])
  }

  /** `kept` is some row of the table with its cells cut. */
  predicate FromSomeRow(table: seq<seq<string>>, kept: seq<string>) {
    exists t :: 0 <= t < |table| && CutRow(table[t], kept)
  }

  /** The rows `get_pngs` returns for the table. */
  function Kept(table: seq<seq<string>>): seq<seq<string>> {
    if table == [] then []
    else Kept(table[..|table| - 1])
         + (if |table[|table| - 1]| != 0 then [StripCells(table[|table| - 1])] else [])
  }

  /** The number of rows with at least one cell. */
  function NonEmptyRows(table: seq<seq<string>>): nat {
    if table == [] then 0
    else NonEmptyRows(table[..|table| - 1]) + (if |table[|table| - 1]| != 0 then 1 else 0)
  }

  /** No kept row is empty and every kept cell is stripped; one row per row with cells; and
      every kept row is a row of the table with the whitespace cut from each of its cells. */
  lemma {:induction false} KeptShape(table: seq<seq<string>>)
    ensures |Kept(table)| == NonEmptyRows(table)
    ensures forall i :: 0 <= i < |Kept(table)| ==> Kept(table)[i] != []
    ensures forall i, j :: 0 <= i < |Kept(table)| && 0 <= j < |Kept(table)[i]| ==>
              Strip(Kept(table)[i][j]) == Kept(table)[i][j]
    ensures forall i :: 0 <= i < |Kept(table)| ==> FromSomeRow(table, Kept(table)[i])
  {
    if table != [] {
      var init, row := table[..|table| - 1], table[|table| - 1];
      KeptShape(init);
      var r := Kept(table);
      forall i, j | 0 <= i < |r| && 0 <= j < |r[i]| ensures Strip(r[i][j]) == r[i][j] {
        if i < |Kept(init)| {
          assert r[i] == Kept(init)[i];
        } else {
          assert r[i] == StripCells(row);
          StripIdempotent(row[j]);
        }
      }
      forall i | 0 <= i < |r| ensures FromSomeRow(table, r[i]) {
        if i < |Kept(init)| {
          assert r[i] == Kept(init)[i];
          var t :| 0 <= t < |init| && CutRow(init[t], r[i]);
          assert table[t] == init[t];
        } else {
          assert r[i] == StripCells(row);
          assert CutRow(table[|table| - 1], r[i]);
        }
      }
    }
  }

  /** Filtering splits over the table: the kept rows keep the table's order. */
  lemma {:induction false} KeptAppend(a: seq<seq<string>>, b: seq<seq<string>>)
    ensures Kept(a + b) == Kept(a) + Kept(b)
    decreases |b|
  {
    if b == [] {
      assert a + b == a;
    } else {
      var binit := b[..|b| - 1];
      assert (a + b)[..|a + b| - 1] == a + binit;
      assert (a + b)[|a + b| - 1] == b[|b| - 1];
      KeptAppend(a, binit);
    }
  }

  /** A row without cells leaves no trace. */
  lemma CellLessRowDropped(a: seq<seq<string>>, b: seq<seq<string>>)
    ensures Kept(a + [[]] + b) == Kept(a + b)
  {
    KeptAppend(a + [[]], b);
    KeptAppend(a, [[]]);
    KeptAppend(a, b);
  }

  /** A row with cells is kept even when every cell is empty or whitespace. */
  lemma BlankCellsKept(a: seq<seq<string>>, row: seq<string>, b: seq<seq<string>>)
    requires row != [] && forall k :: 0 <= k < |row| ==> AllSpace(row[k])
    ensures Kept(a + [row] + b) == Kept(a) + [StripCells(row)] + Kept(b)
    ensures forall k :: 0 <= k < |row| ==> StripCells(row)[k] == []
  {
    KeptAppend(a + [row], b);
    KeptAppend(a, [row]);
    forall k | 0 <= k < |row| ensures StripCells(row)[k] == [] {
      StripEmptyIffAllSpace(row[k]);
    }
  }

  /** The loop of `get_pngs` over the table rows. */
  method GetPngs(table: seq<seq<string>>) returns (rows: seq<seq<string>>)
    ensures rows == Kept(table)
    ensures |rows| == NonEmptyRows(table)
    ensures forall i, j :: 0 <= i < |rows| && 0 <= j < |rows[i]| ==> Strip(rows[i][j]) == rows[i][j]
  {
    rows := [];
    for i := 0 to |table|
      invariant rows == Kept(table[..i])
    {
      assert table[..i + 1][..i] == table[..i];
      var row := StripCells(table[i]);
      if |row| != 0 {
        rows := rows + [row];
      }
    }
    assert table[..|table|] == table;
    KeptShape(table);
  }
}
