/** FastMatrix: a sparse matrix of `rows` by `cols` cells kept as an ordered
    map from row to an ordered map from column to value. Absent cells read as
    the template default `def`. Indices are std::size_t, modelled as `nat`. */
module FastMatrices {
  import opened Common

  type Cells = map<int, map<int, int>>

  /** A value is stored at (r, c). */
  predicate Stored(m: Cells, r: int, c: int)
  {
    r in m && c in m[r]
  }

  predicate InBounds(rows: nat, cols: nat, r: int, c: int)
  {
    0 <= r < rows && 0 <= c < cols
  }

  /** The effect of add: a cell outside the bounds or already stored is
      left alone; otherwise the value is stored, creating the row map when
      the row has none. */
  function AddCell(m: Cells, rows: nat, cols: nat, v: int, r: int, c: int): (m': Cells)
    ensures forall r', c' :: Stored(m', r', c') <==>
      Stored(m, r', c') || (r' == r && c' == c && InBounds(rows, cols, r, c))
    ensures forall r', c' :: Stored(m, r', c') ==> Stored(m', r', c') && m'[r'][c'] == m[r'][c']
    ensures InBounds(rows, cols, r, c) && !Stored(m, r, c) ==> Stored(m', r, c) && m'[r][c] == v
  {
    if !InBounds(rows, cols, r, c) || Stored(m, r, c) then m
    else if r !in m then m[r := map[c := v]]
    else m[r := m[r][c := v]]
  }

  /** The effect of remove: the cell at (r, c) is erased when it is stored;
      its row keeps a (possibly empty) map. */
  function RemoveCell(m: Cells, rows: nat, cols: nat, r: int, c: int): (m': Cells)
    ensures forall r', c' :: Stored(m', r', c') <==>
      Stored(m, r', c') && !(r' == r && c' == c && InBounds(rows, cols, r, c))
    ensures forall r', c' :: Stored(m', r', c') ==> Stored(m, r', c') && m'[r'][c'] == m[r'][c']
    ensures forall r' :: r' in m' <==> r' in m
  {
    if !InBounds(rows, cols, r, c) || !Stored(m, r, c) then m
    else m[r := m[r] - {c}]
  }

  /** Adding the triples (value, row, column) of `ts` in turn. */
  function AddAll(m: Cells, rows: nat, cols: nat, ts: seq<(int, nat, nat)>): Cells
  {
    if ts == [] then m
    else
      var t := ts[|ts| - 1];
      AddCell(AddAll(m, rows, cols, ts[..|ts| - 1]), rows, cols, t.0, t.1, t.2)
  }

  /** The stored cells of row `i` among its first `j` columns, as
      (value, row, column) triples in column order. */
  function RowTriples(m: Cells, i: nat, j: nat): seq<(int, nat, nat)>
  {
    if j == 0 then []
    else RowTriples(m, i, j - 1) + (if Stored(m, i, j - 1) then [(m[i][j - 1], i, j - 1)] else [])
  }

  /** The stored cells among the first `i` rows and `cols` columns, in
      row-major order. */
  function Triples(m: Cells, i: nat, cols: nat): seq<(int, nat, nat)>
  {
    if i == 0 then [] else Triples(m, i - 1, cols) + RowTriples(m, i - 1, cols)
  }

  /** The text tokens of the triples, value then row then column. */
  /** A text of whole "value row col" triples whose indices are not
      negative. */
  predicate TriplesText(t: seq<int>)
  {
    if t == [] then true
    else |t| >= 3 && t[|t| - 2] >= 0 && t[|t| - 1] >= 0 && TriplesText(t[..|t| - 3])
  }

  /** The tokens of the triples, value then row then column. */
  function Flatten(ts: seq<(int, nat, nat)>): (tokens: seq<int>)
    ensures |tokens| == 3 * |ts|
  {
    if ts == [] then []
    else
      var t := ts[|ts| - 1];
      Flatten(ts[..|ts| - 1]) + [t.0, t.1, t.2]
  }

  lemma {:induction false} FlattenAppend(ts: seq<(int, nat, nat)>, us: seq<(int, nat, nat)>)
    ensures Flatten(ts + us) == Flatten(ts) + Flatten(us)
    decreases |us|
  {
    if us == [] {
      assert ts + us == ts;
    } else {
      assert (ts + us)[..|ts + us| - 1] == ts + us[..|us| - 1];
      FlattenAppend(ts, us[..|us| - 1]);
    }
  }

  /** The triples of a token text, in order. */
  function Chunks(t: seq<int>): (ts: seq<(int, nat, nat)>)
    requires TriplesText(t)
    ensures 3 * |ts| == |t|
  {
    if t == [] then []
    else Chunks(t[..|t| - 3]) + [(t[|t| - 3], t[|t| - 2], t[|t| - 1])]
  }

  /** Flatten produces a triples text, and Chunks undoes it. */
  lemma {:induction false} ChunksFlatten(ts: seq<(int, nat, nat)>)
    ensures TriplesText(Flatten(ts)) && Chunks(Flatten(ts)) == ts
  {
    if ts != [] {
      var f := Flatten(ts);
      assert f[..|f| - 3] == Flatten(ts[..|ts| - 1]);
      ChunksFlatten(ts[..|ts| - 1]);
    }
  }

  /** Every whole-triple prefix of a triples text is one, and its triples
      are a prefix of the text's triples. */
  lemma {:induction false} TriplesPrefix(t: seq<int>, n: nat)
    requires TriplesText(t) && 3 * n <= |t|
    ensures TriplesText(t[..3 * n])
    ensures Chunks(t[..3 * n]) == Chunks(t)[..n]
  {
    if 3 * n == |t| {
      assert t[..3 * n] == t;
    } else {
      var L := |Chunks(t)|;
      assert n < L;
      TriplesPrefix(t[..|t| - 3], n);
      assert t[..|t| - 3][..3 * n] == t[..3 * n];
    }
  }

  /** The text write emits for row `i` among its first `j` columns:
      "value row col" for each stored cell, in column order. */
  function RowText(m: Cells, i: nat, j: nat): seq<int>
  {
    if j == 0 then []
    else RowText(m, i, j - 1) + (if Stored(m, i, j - 1) then [m[i][j - 1], i, j - 1] else [])
  }

  /** The text write emits for the first `i` rows, in row-major order. */
  function MatrixText(m: Cells, i: nat, cols: nat): seq<int>
  {
    if i == 0 then [] else MatrixText(m, i - 1, cols) + RowText(m, i - 1, cols)
  }

  /** The token text that write produces in text mode. */
  function WriteTokens(m: Cells, rows: nat, cols: nat): seq<int>
  {
    [rows, cols] + MatrixText(m, rows, cols)
  }

  /** The text write emits is the flattening of the row-major triples. */
  lemma {:induction false} MatrixTextTriples(m: Cells, i: nat, cols: nat)
    ensures MatrixText(m, i, cols) == Flatten(Triples(m, i, cols))
  {
    if i > 0 {
      var pre, row := Triples(m, i - 1, cols), RowTriples(m, i - 1, cols);
      var text, rowText := MatrixText(m, i - 1, cols), RowText(m, i - 1, cols);
      assert text == Flatten(pre) by { MatrixTextTriples(m, i - 1, cols); }
      assert rowText == Flatten(row) by { RowTextTriples(m, i - 1, cols); }
      assert Flatten(pre + row) == Flatten(pre) + Flatten(row) by { FlattenAppend(pre, row); }
    }
  }

  lemma {:induction false} RowTextTriples(m: Cells, i: nat, j: nat)
    ensures RowText(m, i, j) == Flatten(RowTriples(m, i, j))
  {
    if j > 0 {
      RowTextTriples(m, i, j - 1);
      var row := RowTriples(m, i, j - 1);
      if Stored(m, i, j - 1) {
        var t: (int, nat, nat) := (m[i][j - 1], i, j - 1);
        assert RowTriples(m, i, j) == row + [t];
        assert (row + [t])[..|row|] == row;
      } else {
        assert RowTriples(m, i, j) == row;
      }
    }
  }

  /** Text that read accepts: the two sizes, then whole triples. */
  predicate WellFormed(tokens: seq<int>)
  {
    |tokens| >= 2 && tokens[0] >= 0 && tokens[1] >= 0 && TriplesText(tokens[2..])
  }

  /** What read leaves: the sizes from the text, every triple added in turn,
      then one more add of the last triple read (or of `leftover`, the
      uninitialised variables, when the text holds no triple), because the
      loop runs once more after extraction fails. */
  function ReadCells(m: Cells, tokens: seq<int>, leftover: (int, nat, nat)): Cells
    requires WellFormed(tokens)
  {
    var rows: nat := tokens[0];
    var cols: nat := tokens[1];
    var ts := Chunks(tokens[2..]);
    var last := if ts == [] then leftover else ts[|ts| - 1];
    AddCell(AddAll(m, rows, cols, ts), rows, cols, last.0, last.1, last.2)
  }

  /** `a` holds exactly the cells of `m` in the row-major prefix that ends
      before (i, j), with the same values. */
  ghost predicate HoldsPrefix(a: Cells, m: Cells, cols: nat, i: nat, j: nat)
  {
    (forall r, c :: Stored(a, r, c) <==> Stored(m, r, c) && 0 <= r && 0 <= c < cols && (r < i || (r == i && c < j))) &&
    (forall r, c :: Stored(a, r, c) ==> a[r][c] == m[r][c])
  }

  /** Adding cell (i, j) of `m`, when it is stored, extends the prefix by
      one column. */
  lemma {:induction false} HoldsStep(a: Cells, m: Cells, rows: nat, cols: nat, i: nat, j: nat)
    requires HoldsPrefix(a, m, cols, i, j) && i < rows && j < cols
    ensures HoldsPrefix(if Stored(m, i, j) then AddCell(a, rows, cols, m[i][j], i, j) else a, m, cols, i, j + 1)
  {
  }

  /** A prefix that covers a whole row is the prefix up to the next row. */
  lemma {:induction false} HoldsRow(a: Cells, m: Cells, cols: nat, i: nat)
    requires HoldsPrefix(a, m, cols, i, cols)
    ensures HoldsPrefix(a, m, cols, i + 1, 0)
  {
  }

  /** One more column of row `i`: the prefix grows by cell (i, j - 1). */
  lemma {:induction false} AddColumn(m: Cells, rows: nat, cols: nat, i: nat, j: nat)
    requires i < rows && 0 < j <= cols
    requires HoldsPrefix(AddAll(map[], rows, cols, Triples(m, i, cols) + RowTriples(m, i, j - 1)), m, cols, i, j - 1)
    ensures HoldsPrefix(AddAll(map[], rows, cols, Triples(m, i, cols) + RowTriples(m, i, j)), m, cols, i, j)
  {
    var before := Triples(m, i, cols) + RowTriples(m, i, j - 1);
    var a := AddAll(map[], rows, cols, before);
    HoldsStep(a, m, rows, cols, i, j - 1);
    if Stored(m, i, j - 1) {
      var ts: seq<(int, nat, nat)> := before + [(m[i][j - 1], i, j - 1)];
      assert Triples(m, i, cols) + RowTriples(m, i, j) == ts;
      assert ts[..|ts| - 1] == before;
    } else {
      assert Triples(m, i, cols) + RowTriples(m, i, j) == before;
    }
  }

  lemma {:induction false} AddRowPrefix(m: Cells, rows: nat, cols: nat, i: nat, j: nat)
    requires i < rows && j <= cols
    ensures HoldsPrefix(AddAll(map[], rows, cols, Triples(m, i, cols) + RowTriples(m, i, j)), m, cols, i, j)
  {
    var pre := Triples(m, i, cols);
    if j == 0 {
      assert pre + RowTriples(m, i, 0) == pre;
      if i > 0 {
        var prev := Triples(m, i - 1, cols) + RowTriples(m, i - 1, cols);
        AddRowPrefix(m, rows, cols, i - 1, cols);
        HoldsRow(AddAll(map[], rows, cols, prev), m, cols, i - 1);
        assert pre == prev;
      }
    } else {
      AddRowPrefix(m, rows, cols, i, j - 1);
      AddColumn(m, rows, cols, i, j);
    }
  }

  /** Adding the row-major triples of `m` to an empty matrix of the same
      size stores exactly the cells of `m` inside the bounds. */
  lemma {:induction false} AddAllTriples(m: Cells, rows: nat, cols: nat)
    ensures HoldsPrefix(AddAll(map[], rows, cols, Triples(m, rows, cols)), m, cols, rows, 0)
  {
    if rows > 0 {
      AddRowPrefix(m, rows, cols, rows - 1, cols);
      assert Triples(m, rows, cols) == Triples(m, rows - 1, cols) + RowTriples(m, rows - 1, cols);
    }
  }

  /** Adding the last triple once more changes nothing. */
  lemma {:induction false} AddAgain(m: Cells, rows: nat, cols: nat, ts: seq<(int, nat, nat)>)
    requires ts != []
    ensures AddCell(AddAll(m, rows, cols, ts), rows, cols, ts[|ts| - 1].0, ts[|ts| - 1].1, ts[|ts| - 1].2)
      == AddAll(m, rows, cols, ts)
  {
  }

  /** Reading the text that write produced into an empty matrix gives back
      the sizes and every stored cell inside the bounds, provided the text
      holds at least one triple. */
  lemma {:induction false} ReadWrite(m: Cells, rows: nat, cols: nat, leftover: (int, nat, nat))
    requires Triples(m, rows, cols) != []
    ensures WellFormed(WriteTokens(m, rows, cols))
    ensures HoldsPrefix(ReadCells(map[], WriteTokens(m, rows, cols), leftover), m, cols, rows, 0)
  {
    var ts := Triples(m, rows, cols);
    var tokens := WriteTokens(m, rows, cols);
    MatrixTextTriples(m, rows, cols);
    assert tokens[2..] == Flatten(ts);
    ChunksFlatten(ts);
    AddAllTriples(m, rows, cols);
    AddAgain(map[], rows, cols, ts);
  }

  /** With an empty text of triples, the extra add stores the leftover
      values when they fall inside the bounds. */
  lemma {:induction false} ReadEmptyAddsLeftover(v: int)
    ensures ReadCells(map[], [1, 1], (v, 0, 0)) == map[0 := map[0 := v]]
  {
    assert [1, 1][2..] == [];
  }

  /** The loops of write: the sizes, then the cells row by row. */
  method WriteText(m: Cells, rows: nat, cols: nat) returns (tokens: seq<int>)
    ensures tokens == WriteTokens(m, rows, cols)
  {
    tokens := [rows, cols];
    for ii := 0 to rows
      invariant tokens == [rows, cols] + MatrixText(m, ii, cols)
    {
      var text := WriteRow(m, ii, cols);
      tokens := tokens + text;
    }
  }

  /** The inner loop of write: the cells of row `i`, column by column. */
  method WriteRow(m: Cells, i: nat, cols: nat) returns (text: seq<int>)
    ensures text == RowText(m, i, cols)
  {
    text := [];
    for j := 0 to cols
      invariant text == RowText(m, i, j)
    {
      if i in m && j in m[i] {
        text := text + [m[i][j], i, j];
      }
    }
  }

  class FastMatrix {
    var rows: nat
    var cols: nat
    /** The template parameter `def`: the value absent cells stand for. */
    const def: int
    var matrix: Cells

    constructor (rows: nat, cols: nat, def: int)
      ensures this.rows == rows && this.cols == cols && this.def == def && matrix == map[]
    {
      this.rows := rows;
      this.cols := cols;
      this.def := def;
      matrix := map[];
    }

    /** Stores `data` at (row, col) unless that is outside the bounds or
        already stored. */
    method Add(data: int, row: nat, col: nat)
      modifies this
      ensures rows == old(rows) && cols == old(cols)
      ensures matrix == AddCell(old(matrix), rows, cols, data, row, col)
    {
      if row >= rows { return; }
      if col >= cols { return; }
      if row in matrix && col in matrix[row] { return; }
      if row !in matrix {
        matrix := matrix[row := map[col := data]];
      } else {
        matrix := matrix[row := matrix[row][col := data]];
      }
    }

    /** Whether a value is stored at (row, col) inside the bounds. */
    method Find(row: nat, col: nat) returns (found: bool)
      ensures found <==> InBounds(rows, cols, row, col) && Stored(matrix, row, col)
    {
      if row >= rows { return false; }
      if col >= cols { return false; }
      found := row in matrix && col in matrix[row];
    }

    /** The value stored at (row, col): out_of_range outside the bounds,
        runtime_error for an absent cell. */
    method Get(row: nat, col: nat) returns (r: Result<int>)
      ensures !InBounds(rows, cols, row, col) ==> r == Err(OutOfRange)
      ensures InBounds(rows, cols, row, col) && !Stored(matrix, row, col) ==> r == Err(RuntimeError)
      ensures InBounds(rows, cols, row, col) && Stored(matrix, row, col) ==> r == Ok(matrix[row][col])
    {
      if row >= rows { return Err(OutOfRange); }
      if col >= cols { return Err(OutOfRange); }
      if !(row in matrix && col in matrix[row]) { return Err(RuntimeError); }
      return Ok(matrix[row][col]);
    }

    /** Assigning through the reference get returns: the same errors as Get,
        otherwise the stored value is replaced. */
    method AssignAt(row: nat, col: nat, v: int) returns (r: Result<()>)
      modifies this
      ensures rows == old(rows) && cols == old(cols)
      ensures !InBounds(rows, cols, row, col) ==> r == Err(OutOfRange) && matrix == old(matrix)
      ensures InBounds(rows, cols, row, col) && !Stored(old(matrix), row, col)
        ==> r == Err(RuntimeError) && matrix == old(matrix)
      ensures InBounds(rows, cols, row, col) && Stored(old(matrix), row, col)
        ==> r == Ok(()) && matrix == old(matrix)[row := old(matrix)[row][col := v]]
    {
      if row >= rows { return Err(OutOfRange); }
      if col >= cols { return Err(OutOfRange); }
      if !(row in matrix && col in matrix[row]) { return Err(RuntimeError); }
      matrix := matrix[row := matrix[row][col := v]];
      return Ok(());
    }

    /** Erases the value at (row, col); nothing happens outside the bounds
        or at an absent cell. */
    method Remove(row: nat, col: nat)
      modifies this
      ensures rows == old(rows) && cols == old(cols)
      ensures matrix == RemoveCell(old(matrix), rows, cols, row, col)
    {
      if row >= rows { return; }
      if col >= cols { return; }
      if !(row in matrix && col in matrix[row]) { return; }
      matrix := matrix[row := matrix[row] - {col}];
    }

    method GetDefault() returns (d: int)
      ensures d == def
    {
      d := def;
    }

    /** The text form: the sizes, then "value row col" for every stored cell
        in row-major order. */
    method Write() returns (tokens: seq<int>)
      ensures tokens == WriteTokens(matrix, rows, cols)
    {
      tokens := WriteText(matrix, rows, cols);
    }

    /** Reads the text form: takes the sizes, then adds each triple, then
        adds the last one read once more. */
    method Read(tokens: seq<int>, leftover: (int, nat, nat))
      requires WellFormed(tokens)
      modifies this
      ensures rows == tokens[0] && cols == tokens[1]
      ensures matrix == ReadCells(old(matrix), tokens, leftover)
    {
      rows := tokens[0];
      cols := tokens[1];
      var data, row, col := leftover.0, leftover.1, leftover.2;
      ghost var text := tokens[2..];
      ghost var ts := Chunks(text);
      ghost var m0 := matrix;
      var i := 2;
      ghost var n := 0;
      while i < |tokens|
        invariant i == 2 + 3 * n && 3 * n <= |text|
        invariant rows == tokens[0] && cols == tokens[1]
        invariant matrix == AddAll(m0, rows, cols, ts[..n])
        invariant (data, row, col) == if n == 0 then leftover else ts[n - 1]
        decreases |tokens| - i
      {
        TriplesPrefix(text, n + 1);
        assert text[..3 * (n + 1)][..3 * n] == text[..3 * n];
        TriplesPrefix(text, n);
        data, row, col := tokens[i], tokens[i + 1], tokens[i + 2];
        Add(data, row, col);
        assert ts[..n + 1][..n] == ts[..n];
        i := i + 3;
        n := n + 1;
      }
      assert ts[..n] == ts;
      Add(data, row, col);
    }
  }
}
