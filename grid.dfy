/** The grid of cells: each cell's buffer of candidate tile ids, of which the
    first `numOptions` are live, its collapsed flag and its cached entropy;
    and the cell operations `cell_reset`, `grid_create`, `grid_reset` and
    `cell_collapse`. */
module Grid {
  import opened Tiles
  import opened Entropy

  /** A cell. `options` is the buffer of num_tiles slots the cell owns; only
      its first `numOptions` slots are candidates, the rest keep whatever was
      last written there. `isNew` is the redraw mark (`new` in the source).
      The cell's heap slot (`heap_idx`) is kept by the heap, see Heap. */
  datatype Cell = Cell(row: int, col: int, collapsed: bool, options: seq<int>, numOptions: int,
                       entropy: Entropy, isNew: bool)

  /** The ids 0 .. n-1: the global tile table copied into a cell. */
  function AllTiles(n: nat): (s: seq<int>)
    ensures |s| == n && forall k :: 0 <= k < n ==> s[k] == k
  {
    seq(n, k => k)
  }

  /** A cell's buffer holds num_tiles ids of the table and its count fits. */
  predicate CellOk(cell: Cell, n: nat)
  {
    && |cell.options| == n
    && 0 <= cell.numOptions <= n
    && forall k :: 0 <= k < n ==> 0 <= cell.options[k] < n
  }

  /** The live candidates of a cell. */
  function Candidates(cell: Cell): seq<int>
    requires 0 <= cell.numOptions <= |cell.options|
  {
    cell.options[..cell.numOptions]
  }

  /** The cell that `cell_reset` leaves: all tiles, INFINITY, uncollapsed. */
  function Reset(cell: Cell, n: nat): (r: Cell)
    ensures CellOk(r, n) && Candidates(r) == AllTiles(n)
    ensures !r.collapsed && r.entropy == Infinite && r.isNew
    ensures r.row == cell.row && r.col == cell.col
  {
    assert AllTiles(n)[..n] == AllTiles(n);
    cell.(options := AllTiles(n), numOptions := n, isNew := true, entropy := Infinite, collapsed := false)
  }

  /** Whether `grid_reset` resets a cell: uncollapsed and not already holding
      as many options as there are tiles. */
  predicate NeedsReset(cell: Cell, n: nat)
  {
    !cell.collapsed && cell.numOptions != n
  }

  /** The cells `grid_reset` leaves. */
  function Refreshed(cells: seq<Cell>, n: nat): (r: seq<Cell>)
    ensures |r| == |cells|
  {
    seq(|cells|, k requires 0 <= k < |cells| => if NeedsReset(cells[k], n) then Reset(cells[k], n) else cells[k])
  }

  /** The cells left by `cell_reset` on every cell. */
  function AllReset(cells: seq<Cell>, n: nat): (r: seq<Cell>)
    ensures |r| == |cells|
  {
    seq(|cells|, k requires 0 <= k < |cells| => Reset(cells[k], n))
  }

  /** The cells `grid_create` makes. */
  function Created(rows: nat, cols: nat, n: nat): (r: seq<Cell>)
    requires 0 < cols
    ensures |r| == rows * cols
  {
    seq(rows * cols, k => Cell(k / cols, k % cols, false, AllTiles(n), n, Infinite, false))
  }

  /** Slots i and j trade entries: the swap of `cell_collapse`, and of
      `sift_up` and `sift_down` in the heap. */
  function Swap<T>(s: seq<T>, i: int, j: int): (r: seq<T>)
    requires 0 <= i < |s| && 0 <= j < |s|
    ensures |r| == |s| && r[i] == s[j] && r[j] == s[i]
    ensures forall k :: 0 <= k < |s| && k != i && k != j ==> r[k] == s[k]
  {
    s[i := s[j]][j := s[i]]
  }

  /** Swapping inside the first n slots permutes them and keeps the rest. */
  lemma SwapPermutes<T>(s: seq<T>, i: int, j: int, n: int)
    requires 0 <= i < n && 0 <= j < n && n <= |s|
    ensures multiset(Swap(s, i, j)[..n]) == multiset(s[..n])
    ensures Swap(s, i, j)[n..] == s[n..]
  {
    var r := Swap(s, i, j);
    if i != j {
      assert r[..n] == s[..n][i := s[j]][j := s[i]];
    } else {
      assert r == s;
    }
  }

  /** The sum of the first k weights: the source's `cumulative_weight[k]`. */
  function Prefix(ws: seq<real>, k: int): (s: real)
    requires 0 <= k <= |ws|
    ensures k == 0 ==> s == 0.0
    ensures k == |ws| ==> s == Sum(ws)
    ensures Positive(ws) ==> 0.0 <= s
  {
    assert ws[..|ws|] == ws;
    if Positive(ws) then
      assert Positive(ws[..k]);
      SumBounds(ws[..k]);
      Sum(ws[..k])
    else
      Sum(ws[..k])
  }

  lemma {:induction false} PrefixMonotone(ws: seq<real>, i: int, j: int)
    requires Positive(ws) && 0 <= i <= j <= |ws|
    ensures Prefix(ws, i) <= Prefix(ws, j)
    ensures i < j ==> Prefix(ws, i) < Prefix(ws, j)
    decreases j - i
  {
    if i < j {
      PrefixMonotone(ws, i, j - 1);
      assert ws[..j][..j - 1] == ws[..j - 1];
    }
  }

  /** The reference pick: the first option, scanning from r, whose
      cumulative interval (cw[p], cw[p+1]] holds v. */
  function PickFrom(ws: seq<real>, v: real, r: int): (p: int)
    requires Positive(ws) && 0 <= r < |ws| && Prefix(ws, r) < v <= Sum(ws)
    ensures r <= p < |ws| && Prefix(ws, p) < v <= Prefix(ws, p + 1)
    decreases |ws| - r
  {
    assert ws[..|ws|] == ws;
    if v <= Prefix(ws, r + 1) then r else PickFrom(ws, v, r + 1)
  }

  /** The option a draw 0 < v <= total selects. */
  function Pick(ws: seq<real>, v: real): (p: int)
    requires Positive(ws) && 0.0 < v <= Sum(ws)
    ensures 0 <= p < |ws| && Prefix(ws, p) < v <= Prefix(ws, p + 1)
  {
    PickFrom(ws, v, 0)
  }

  /** With positive weights the cumulative intervals are disjoint, so only
      one option's interval holds v. */
  lemma PickUnique(ws: seq<real>, v: real, r: int)
    requires Positive(ws) && 0 <= r < |ws| && Prefix(ws, r) < v <= Prefix(ws, r + 1)
    ensures 0.0 < v <= Sum(ws) && r == Pick(ws, v)
  {
    PrefixMonotone(ws, 0, r);
    PrefixMonotone(ws, r + 1, |ws|);
    assert ws[..|ws|] == ws;
    var p := Pick(ws, v);
    if p < r {
      PrefixMonotone(ws, p + 1, r);
    } else if r < p {
      PrefixMonotone(ws, r + 1, p);
    }
  }

  /** The weighted pick of `cell_collapse`: cumulative weights, then the
      binary search for v. For 0 < v <= total it finds the one option whose
      cumulative interval (cw[r], cw[r+1]] holds v, so a uniform draw picks
      each option with probability proportional to its weight. */
  method PickOption(ws: seq<real>, v: real) returns (r: int)
    requires Positive(ws) && 0.0 < v <= Sum(ws)
    ensures 0 <= r < |ws|
    ensures Prefix(ws, r) < v <= Prefix(ws, r + 1)
    ensures r == Pick(ws, v)
  {
    var n := |ws|;
    var cw := new real[n + 1];
    cw[0] := 0.0;
    var i := 0;
    while i < n
      invariant 0 <= i <= n
      invariant forall k :: 0 <= k <= i ==> cw[k] == Prefix(ws, k)
    {
      assert ws[..i + 1][..i] == ws[..i];
      cw[i + 1] := cw[i] + ws[i];
      i := i + 1;
    }
    assert ws[..n] == ws;
    assert cw[n] == Sum(ws);
    var l := 0;
    r := n;
    while l <= r
      invariant 0 <= l <= n + 1 && -1 <= r <= n && l <= r + 1
      invariant forall k :: 0 <= k <= n ==> cw[k] == Prefix(ws, k)
      invariant cw[0] == 0.0 && cw[n] == Sum(ws)
      invariant forall k :: 0 <= k < l ==> cw[k] < v
      invariant forall k :: r < k <= n ==> cw[k] >= v
      decreases r - l
    {
      var m := l + (r - l) / 2;
      if cw[m] < v {
        forall k | 0 <= k <= m
          ensures cw[k] < v
        {
          PrefixMonotone(ws, k, m);
        }
        l := m + 1;
      } else {
        forall k | m <= k <= n
          ensures cw[k] >= v
        {
          PrefixMonotone(ws, m, k);
        }
        r := m - 1;
      }
    }
    PickUnique(ws, v, r);
  }

  lemma {:induction false} MulAtLeast(a: int, b: int)
    requires a >= 1 && b >= 0
    ensures a * b >= b
    decreases a
  {
    if a > 1 {
      MulAtLeast(a - 1, b);
      assert a * b == (a - 1) * b + b;
    }
  }

  /** Row-major indexing: cell (r, c) of a rows x cols grid sits at
      r * cols + c, and division by cols gives the row and column back. */
  lemma CellIndex(r: int, c: int, rows: int, cols: int)
    requires 0 <= r < rows && 0 <= c < cols
    ensures 0 <= r * cols + c < rows * cols
    ensures (r * cols + c) / cols == r && (r * cols + c) % cols == c
  {
    MulAtLeast(rows - r, cols);
    assert rows * cols - r * cols == (rows - r) * cols;
    var k := r * cols + c;
    var q, m := k / cols, k % cols;
    assert k == q * cols + m && 0 <= m < cols;
    if q < r {
      MulAtLeast(r - q, cols);
    } else if q > r {
      MulAtLeast(q - r, cols);
    }
  }

  /** The cell `cell_collapse` leaves for a draw v: the picked option
      swapped into slot 0, one option, collapsed and marked new. */
  function Collapsed(lib: seq<Tile>, cell: Cell, v: real): (next: Cell)
    requires Library(lib) && CellOk(cell, |lib|)
    requires 0.0 < v <= Sum(WeightsOf(lib, Candidates(cell)))
    ensures CellOk(next, |lib|) && next.collapsed && next.numOptions == 1
    ensures next.row == cell.row && next.col == cell.col && next.entropy == cell.entropy
  {
    var ws := WeightsOf(lib, Candidates(cell));
    assert Positive(ws);
    cell.(collapsed := true, isNew := true, options := Swap(cell.options, 0, Pick(ws, v)), numOptions := 1)
  }

  /** The cell the backtrack reopens from its recorded count: with a
      non-zero count, the tried option (slot 0) is swapped to the end of the
      recorded range and dropped; with none, the cell is reset. */
  function Reopened(cell: Cell, count: int, n: nat): (next: Cell)
    requires CellOk(cell, n) && 0 <= count <= n
    ensures CellOk(next, n) && !next.collapsed && next.isNew
  {
    if count != 0 then
      cell.(numOptions := count - 1, isNew := true, collapsed := false, options := Swap(cell.options, 0, count - 1))
    else Reset(cell, n)
  }

  /** A reopened cell holds the recorded options but the tried one. */
  lemma ReopenedOptions(cell: Cell, count: int, n: nat)
    requires CellOk(cell, n) && 0 < count <= n
    ensures multiset(Candidates(Reopened(cell, count, n))) + multiset{cell.options[0]} == multiset(cell.options[..count])
  {
    var s := Swap(cell.options, 0, count - 1);
    SwapPermutes(cell.options, 0, count - 1, count);
    assert s[..count] == s[..count - 1] + [s[count - 1]];
  }

  /** The solver's grid, created once with all cells holding every tile. */
  class Grid {
    const rows: nat
    const cols: nat
    const numTiles: nat
    const cells: array<Cell>

    ghost predicate Valid()
      reads this, cells
    {
      cells.Length == rows * cols && forall k :: 0 <= k < cells.Length ==> CellOk(cells[k], numTiles)
    }

    /** `grid_create`: rows * cols cells in row-major order, each uncollapsed
        with every tile and entropy INFINITY. */
    constructor (rows: nat, cols: nat, numTiles: nat)
      ensures Valid() && fresh(cells)
      ensures this.rows == rows && this.cols == cols && this.numTiles == numTiles
      ensures forall k :: 0 <= k < cells.Length ==>
        cells[k] == Cell(k / cols, k % cols, false, AllTiles(numTiles), numTiles, Infinite, false)
    {
      var a := new Cell[rows * cols];
      var i := 0;
      while i < rows * cols
        invariant 0 <= i <= rows * cols
        invariant forall k :: 0 <= k < i ==>
          a[k] == Cell(k / cols, k % cols, false, AllTiles(numTiles), numTiles, Infinite, false)
      {
        a[i] := Cell(i / cols, i % cols, false, AllTiles(numTiles), numTiles, Infinite, false);
        i := i + 1;
      }
      this.rows := rows;
      this.cols := cols;
      this.numTiles := numTiles;
      this.cells := a;
    }

    /** `cell_reset` on cell i. */
    method ResetCell(i: int)
      requires Valid() && 0 <= i < cells.Length
      modifies cells
      ensures Valid()
      ensures cells[..] == old(cells[..])[i := Reset(old(cells[i]), numTiles)]
    {
      cells[i] := Reset(cells[i], numTiles);
    }

    /** The reopening of the popped cell in the solver's backtrack: restore
        its recorded count, mark it new and uncollapsed, then swap the tried
        option (slot 0) with the last recorded one and drop it, or reset the
        cell when the count is 0. */
    method Reopen(i: int, count: int)
      requires Valid() && 0 <= i < cells.Length && 0 <= count <= numTiles
      modifies cells
      ensures Valid()
      ensures cells[..] == old(cells[..])[i := Reopened(old(cells[i]), count, numTiles)]
    {
      cells[i] := cells[i].(numOptions := count, isNew := true, collapsed := false);
      if cells[i].numOptions != 0 {
        var prev := cells[i];
        cells[i] := prev.(options := Swap(prev.options, 0, prev.numOptions - 1), numOptions := prev.numOptions - 1);
      } else {
        ResetCell(i);
      }
    }

    /** `grid_reset`: reset every uncollapsed cell whose option count is not
        num_tiles; collapsed cells and full cells are left alone. */
    method ResetUnsettled()
      requires Valid()
      modifies cells
      ensures Valid()
      ensures forall k :: 0 <= k < cells.Length ==>
        cells[k] == if NeedsReset(old(cells[k]), numTiles) then Reset(old(cells[k]), numTiles) else old(cells[k])
      ensures cells[..] == Refreshed(old(cells[..]), numTiles)
    {
      var i := 0;
      while i < rows * cols
        invariant 0 <= i <= rows * cols
        invariant Valid()
        invariant forall k :: 0 <= k < i ==>
          cells[k] == if NeedsReset(old(cells[k]), numTiles) then Reset(old(cells[k]), numTiles) else old(cells[k])
        invariant forall k :: i <= k < cells.Length ==> cells[k] == old(cells[k])
      {
        if NeedsReset(cells[i], numTiles) {
          cells[i] := Reset(cells[i], numTiles);
        }
        i := i + 1;
      }
    }

    /** The loop of the solver's restart: `cell_reset` on every cell. */
    method ResetAll()
      requires Valid()
      modifies cells
      ensures Valid()
      ensures forall k :: 0 <= k < cells.Length ==> cells[k] == Reset(old(cells[k]), numTiles)
      ensures cells[..] == AllReset(old(cells[..]), numTiles)
    {
      var i := 0;
      while i < rows * cols
        invariant 0 <= i <= rows * cols
        invariant Valid()
        invariant forall k :: 0 <= k < i ==> cells[k] == Reset(old(cells[k]), numTiles)
        invariant forall k :: i <= k < cells.Length ==> cells[k] == old(cells[k])
      {
        cells[i] := Reset(cells[i], numTiles);
        i := i + 1;
      }
    }

    /** `cell_collapse` on cell i with the draw v (`rand() / RAND_MAX` times
        the total weight): pick option r by weight, swap it into slot 0, mark
        the cell collapsed with one option. The first old `numOptions` slots
        are permuted, the rest of the buffer is kept. */
    method Collapse(lib: seq<Tile>, i: int, v: real) returns (r: int)
      requires Valid() && Library(lib) && |lib| == numTiles && 0 <= i < cells.Length
      requires 0.0 < v <= Sum(WeightsOf(lib, Candidates(cells[i])))
      modifies cells
      ensures Valid()
      ensures 0 <= r < old(cells[i].numOptions)
      ensures var ws := WeightsOf(lib, Candidates(old(cells[i])));
        Prefix(ws, r) < v <= Prefix(ws, r + 1)
      ensures r == Pick(WeightsOf(lib, Candidates(old(cells[i]))), v)
      ensures cells[..] == old(cells[..])[i := Collapsed(lib, old(cells[i]), v)]
      ensures cells[i].options[0] == old(cells[i].options[r])
      ensures multiset(cells[i].options[..old(cells[i].numOptions)]) == multiset(Candidates(old(cells[i])))
    {
      var cell := cells[i];
      var ws := WeightsOf(lib, Candidates(cell));
      r := PickOption(ws, v);
      SwapPermutes(cell.options, 0, r, cell.numOptions);
      cells[i] := cell.(collapsed := true, isNew := true, options := Swap(cell.options, 0, r), numOptions := 1);
    }
  }
}
