/** The transition table: one flat buffer, addressed by state and symbol. */
module AcTable {

  const MAX_NARROW_STATES := 0x1_0000

  lemma CellBound(row: nat, col: nat, count: nat, stride: nat)
    requires row < count && col < stride
    ensures row * stride + col < count * stride
  {
    assert count * stride == row * stride + stride + (count - row - 1) * stride;
  }

  lemma CellsApart(row: nat, col: nat, row': nat, col': nat, stride: nat)
    requires col < stride && col' < stride && row < row'
    ensures row * stride + col < row' * stride + col'
  {
    CellBound(row, col, row', stride);
  }

  function SetCell(rows: seq<seq<nat>>, r: nat, c: nat, t: nat): seq<seq<nat>>
    requires r < |rows| && c < |rows[r]|
  {
    var row: seq<nat> := rows[r][c := t];
    rows[r := row]
  }

  class Table {
    const stride: nat
    const count: nat
    /** Cells are 16 bits wide when every state fits. */
    const narrow: bool
    const cells: array<nat>
    /** The table as one row of answers per state. */
    ghost var rows: seq<seq<nat>>

    ghost predicate CellIs(r: nat, c: nat, t: nat)
      reads cells
    {
      r * stride + c < cells.Length && cells[r * stride + c] == t < count
    }

    ghost predicate Valid()
      reads this, cells
    {
      && cells.Length == count * stride
      && narrow == (count <= MAX_NARROW_STATES)
      && |rows| == count
      && (forall r :: 0 <= r < count ==> |rows[r]| == stride)
      && (forall r, c :: 0 <= r < count && 0 <= c < stride ==> CellIs(r, c, rows[r][c]))
    }

    constructor (states: nat, width: nat)
      ensures Valid() && count == states && stride == width && fresh(cells)
      ensures forall r, c :: 0 <= r < states && 0 <= c < width ==> rows[r][c] == 0
    {
      count, stride, narrow := states, width, states <= MAX_NARROW_STATES;
      cells := new nat[states * width](_ => 0);
      rows := seq(states, _ => seq(width, _ => 0));
      new;
      forall r, c | 0 <= r < count && 0 <= c < stride ensures CellIs(r, c, rows[r][c]) {
        CellBound(r, c, count, stride);
      }
    }

    method Transition(state: nat, symbol: nat) returns (t: nat)
      requires Valid() && state < count && symbol < stride
      ensures t == rows[state][symbol] && t < count
    {
      assert CellIs(state, symbol, rows[state][symbol]);
      t := cells[state * stride + symbol];
    }

    /** Stores a state, truncated to the cell width: nothing is lost, and no other cell changes. */
    method SetTransition(state: nat, symbol: nat, t: nat)
      requires Valid() && state < count && symbol < stride && t < count
      modifies this`rows, cells
      ensures Valid() && rows == SetCell(old(rows), state, symbol, t)
    {
      CellBound(state, symbol, count, stride);
      ghost var before := rows;
      cells[state * stride + symbol] := if narrow then t % 0x1_0000 else t;
      rows := SetCell(rows, state, symbol, t);
      forall r, c | 0 <= r < count && 0 <= c < stride ensures CellIs(r, c, rows[r][c]) {
        assert old(CellIs(r, c, before[r][c]));
        if r < state {
          CellsApart(r, c, state, symbol, stride);
        } else if state < r {
          CellsApart(state, symbol, r, c, stride);
        }
      }
    }

    /** Starts the row of a state as a copy of another row. */
    method CopyRow(state: nat, from: nat)
      requires Valid() && state < count && from < count
      modifies this`rows, cells
      ensures Valid() && rows == old(rows)[state := old(rows)[from]]
    {
      ghost var before := rows;
      for symbol := 0 to stride
        invariant Valid()
        invariant rows == before[state := rows[state]]
        invariant forall c :: 0 <= c < symbol ==> rows[state][c] == before[from][c]
        invariant state == from ==> rows[state] == before[state]
      {
        var t := Transition(from, symbol);
        SetTransition(state, symbol, t);
      }
      assert rows[state] == before[from];
    }
  }
}
