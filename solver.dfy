/** The solver loop: the tail of `wfc_init` and `wfc_step`. Each step
    either takes the lowest-entropy open cell from the heap, records it on
    the decision stack, collapses it and propagates (an advance); or, after
    a conflict, pops the last decision and reopens that cell without the
    option that was tried (a backtrack); or, with no open cell left, starts
    over from one random cell (a restart). */
module Solver {
  import opened Tiles
  import opened Entropy
  import opened Grid
  import opened Heap
  import opened Levels
  import opened Propagation

  /** A decision on the stack (`StackNode`): the collapsed cell and the
      number of options it had just before it was collapsed. */
  datatype Record = Record(r: int, c: int, options: int)

  /** What one `wfc_step` did. `Aborted` is a step whose weighted pick
      draws 0, where the assertion in `cell_collapse` stops the program. */
  datatype Outcome = Advanced | Backtracked | Restarted | Aborted

  function PosOf(rec: Record): Pos
  {
    Pos(rec.r, rec.c)
  }

  /** The cells not collapsed: those `heap_reset` puts in the heap. */
  function Open(cells: seq<Cell>): set<int>
  {
    set k | 0 <= k < |cells| && !cells[k].collapsed
  }

  /** The cell with row-major index idx: row idx / cols, column idx % cols. */
  function Origin(idx: int, cols: int): Pos
    requires 0 < cols
  {
    Pos(idx / cols, idx % cols)
  }

  /** Splitting an index of the grid into row and column is inverse to
      row-major indexing. */
  lemma OriginRoundTrip(idx: int, rows: int, cols: int)
    requires 0 < cols && 0 <= idx < rows * cols
    ensures InBounds(Origin(idx, cols), rows, cols) && Idx(Origin(idx, cols), cols) == idx
  {
    var q := idx / cols;
    if q >= rows {
      assert (q - rows) * cols >= 0;
      assert q * cols >= rows * cols;
    }
  }

  /** The origin the restart propagates from, as written: row idx / rows. */
  function RestartOriginAsWritten(idx: int, rows: int, cols: int): (p: Pos)
    requires 0 < rows && 0 < cols
    ensures rows == cols ==> p == Origin(idx, cols)
  {
    Pos(idx / rows, idx % cols)
  }

  /** On a grid that is not square the restart propagates from the wrong
      cell: on 3 x 1 the cell collapsed for idx 2 is (2, 0), but the sweep
      starts at (0, 0); on 1 x 3 it starts at row 2, outside the grid. */
  lemma RestartOriginMisplaced()
    ensures Origin(2, 1) == Pos(2, 0) && RestartOriginAsWritten(2, 3, 1) == Pos(0, 0)
    ensures InBounds(Origin(2, 3), 1, 3) && !InBounds(RestartOriginAsWritten(2, 1, 3), 1, 3)
  {
  }

  /** A total of positive weights is positive exactly when there is a
      weight. */
  lemma TotalPositive(ws: seq<real>)
    requires Positive(ws)
    ensures 0.0 <= Sum(ws) && (0.0 < Sum(ws) <==> ws != [])
  {
    SumBounds(ws);
  }

  /** A fraction 0 <= u <= 1 of a non-negative total is at most the total,
      and positive exactly when u and the total are. */
  lemma Fraction(u: real, total: real)
    requires 0.0 <= u <= 1.0 && 0.0 <= total
    ensures u * total <= total && (0.0 < u * total <==> 0.0 < u && 0.0 < total)
  {
    assert (1.0 - u) * total >= 0.0;
    if 0.0 < u && 0.0 < total {
      assert u * total > 0.0;
    }
  }

  /** The draw of `cell_collapse` for u = `rand() / RAND_MAX`: u times the
      total weight of the cell's options. */
  function Draw(lib: seq<Tile>, cell: Cell, u: real): real
    requires Library(lib) && CellOk(cell, |lib|)
  {
    u * Sum(WeightsOf(lib, Candidates(cell)))
  }

  /** For 0 <= u <= 1 the draw is at most the total weight, and a valid
      pick (above 0) exactly when u > 0 and the cell has an option. */
  lemma DrawBounds(lib: seq<Tile>, cell: Cell, u: real)
    requires Library(lib) && CellOk(cell, |lib|) && 0.0 <= u <= 1.0
    ensures Draw(lib, cell, u) <= Sum(WeightsOf(lib, Candidates(cell)))
    ensures 0.0 < Draw(lib, cell, u) <==> 0.0 < u && 0 < cell.numOptions
  {
    var ws := WeightsOf(lib, Candidates(cell));
    assert Positive(ws);
    TotalPositive(ws);
    assert ws != [] <==> 0 < cell.numOptions;
    Fraction(u, Sum(ws));
  }

  /** The grid with cell k collapsed by the draw u. */
  function Taken(lib: seq<Tile>, rows: int, cols: int, cells: seq<Cell>, k: int, u: real): (c: seq<Cell>)
    requires Library(lib) && CellsOk(cells, rows, cols, |lib|) && 0 <= k < |cells|
    requires 0.0 < u <= 1.0 && 0 < cells[k].numOptions
    ensures CellsOk(c, rows, cols, |lib|)
  {
    DrawBounds(lib, cells[k], u);
    cells[k := Collapsed(lib, cells[k], Draw(lib, cells[k], u))]
  }

  /** Cell k collapsed by the draw u, then the propagation from it, over
      the cells then open, to the given depth: the common tail of
      `wfc_init`, the advance and the restart. */
  function Decided(lib: seq<Tile>, rows: int, cols: int, depth: int, cells: seq<Cell>, k: int, u: real): (t: Sweep)
    requires Library(lib) && CellsOk(cells, rows, cols, |lib|) && 0 < cols && 0 <= k < |cells|
    requires 0.0 < u <= 1.0 && 0 < cells[k].numOptions
    ensures CellsOk(t.cells, rows, cols, |lib|)
  {
    OriginRoundTrip(k, rows, cols);
    var c := Taken(lib, rows, cols, cells, k, u);
    Propagated(lib, rows, cols, Open(c), c, Origin(k, cols), depth)
  }

  /** A decision collapses cell k, which keeps the option it picked; no
      other cell changes its collapsed flag, and the other collapsed cells
      are left alone. */
  lemma DecidedCells(lib: seq<Tile>, rows: int, cols: int, depth: int, cells: seq<Cell>, k: int, u: real, j: int)
    requires Library(lib) && CellsOk(cells, rows, cols, |lib|) && 0 < cols && 0 <= k < |cells|
    requires 0.0 < u <= 1.0 && 0 < cells[k].numOptions && 0 <= j < |cells|
    ensures var t := Decided(lib, rows, cols, depth, cells, k, u);
      && (t.cells[j].collapsed <==> cells[j].collapsed || j == k)
      && (j == k ==> t.cells[j] == Taken(lib, rows, cols, cells, k, u)[k])
      && (j != k && cells[j].collapsed ==> t.cells[j] == cells[j])
  {
    OriginRoundTrip(k, rows, cols);
    var c := Taken(lib, rows, cols, cells, k, u);
    PropagationKeeps(lib, rows, cols, Open(c), c, Origin(k, cols), depth, j);
  }

  /** A decision leaves one more collapsed cell: the open cells but k. */
  lemma DecidedOpen(lib: seq<Tile>, rows: int, cols: int, depth: int, cells: seq<Cell>, k: int, u: real)
    requires Library(lib) && CellsOk(cells, rows, cols, |lib|) && 0 < cols && 0 <= k < |cells|
    requires 0.0 < u <= 1.0 && 0 < cells[k].numOptions
    ensures Open(Decided(lib, rows, cols, depth, cells, k, u).cells) == Open(cells) - {k}
  {
    var t := Decided(lib, rows, cols, depth, cells, k, u);
    forall j | 0 <= j < |cells|
      ensures t.cells[j].collapsed <==> cells[j].collapsed || j == k
    {
      DecidedCells(lib, rows, cols, depth, cells, k, u, j);
    }
  }

  /** A restart leaves exactly one collapsed cell, the one it collapses. */
  lemma RestartOpen(lib: seq<Tile>, rows: int, cols: int, depth: int, cells: seq<Cell>, k: int, u: real)
    requires Library(lib) && 0 < |lib| && |cells| == rows * cols && 0 < cols && 0 <= k < |cells| && 0.0 < u <= 1.0
    ensures CellsOk(AllReset(cells, |lib|), rows, cols, |lib|)
    ensures var t := Decided(lib, rows, cols, depth, AllReset(cells, |lib|), k, u);
      forall j :: 0 <= j < |cells| ==> (j in Open(t.cells) <==> j != k)
  {
    var c := AllReset(cells, |lib|);
    assert forall j :: 0 <= j < |cells| ==> j in Open(c);
    DecidedOpen(lib, rows, cols, depth, c, k, u);
  }

  /** The grid `grid_reset` leaves is still well formed. */
  lemma RefreshedOk(cells: seq<Cell>, rows: int, cols: int, n: nat)
    requires CellsOk(cells, rows, cols, n)
    ensures CellsOk(Refreshed(cells, n), rows, cols, n)
    ensures forall k :: 0 <= k < |cells| ==> Refreshed(cells, n)[k].collapsed == cells[k].collapsed
    ensures forall k :: 0 <= k < |cells| && cells[k].collapsed ==> Refreshed(cells, n)[k] == cells[k]
  {
  }

  /** The grid after `grid_reset` with the popped cell reopened. */
  function Unwound(n: nat, rows: int, cols: int, cells: seq<Cell>, top: Record): (c: seq<Cell>)
    requires CellsOk(cells, rows, cols, n) && InBounds(PosOf(top), rows, cols) && 0 <= top.options <= n
    ensures CellsOk(c, rows, cols, n)
  {
    RefreshedOk(cells, rows, cols, n);
    var r := Refreshed(cells, n);
    CellIndex(top.r, top.c, rows, cols);
    r[Idx(PosOf(top), cols) := Reopened(r[Idx(PosOf(top), cols)], top.options, n)]
  }

  /** The grid the backtrack leaves: `grid_reset`, the popped cell
      reopened, then a propagation from it over the whole grid (depth
      rows * cols), over the cells then open. */
  function Undone(lib: seq<Tile>, rows: int, cols: int, cells: seq<Cell>, top: Record): (t: Sweep)
    requires Library(lib) && CellsOk(cells, rows, cols, |lib|) && InBounds(PosOf(top), rows, cols)
    requires 0 <= top.options <= |lib|
    ensures CellsOk(t.cells, rows, cols, |lib|)
  {
    var c := Unwound(|lib|, rows, cols, cells, top);
    Propagated(lib, rows, cols, Open(c), c, PosOf(top), rows * cols)
  }

  /** A backtrack reopens the popped cell, which the propagation from it
      leaves as reopened; no other cell changes its collapsed flag, and the
      other collapsed cells are left alone. */
  lemma UndoneCells(lib: seq<Tile>, rows: int, cols: int, cells: seq<Cell>, top: Record, j: int)
    requires Library(lib) && CellsOk(cells, rows, cols, |lib|) && InBounds(PosOf(top), rows, cols)
    requires 0 <= top.options <= |lib| && At(cells, rows, cols, PosOf(top)).collapsed && 0 <= j < |cells|
    ensures var t := Undone(lib, rows, cols, cells, top); var k := Idx(PosOf(top), cols);
      && (t.cells[j].collapsed <==> cells[j].collapsed && j != k)
      && (j == k ==> t.cells[j] == Reopened(cells[k], top.options, |lib|))
      && (j != k && cells[j].collapsed ==> t.cells[j] == cells[j])
  {
    RefreshedOk(cells, rows, cols, |lib|);
    CellIndex(top.r, top.c, rows, cols);
    var c := Unwound(|lib|, rows, cols, cells, top);
    PropagationKeeps(lib, rows, cols, Open(c), c, PosOf(top), rows * cols, j);
  }

  /** A backtrack leaves one fewer collapsed cell: the open cells and
      the popped one. */
  lemma UndoneOpen(lib: seq<Tile>, rows: int, cols: int, cells: seq<Cell>, top: Record)
    requires Library(lib) && CellsOk(cells, rows, cols, |lib|) && InBounds(PosOf(top), rows, cols)
    requires 0 <= top.options <= |lib| && At(cells, rows, cols, PosOf(top)).collapsed
    ensures Open(Undone(lib, rows, cols, cells, top).cells) == Open(cells) + {Idx(PosOf(top), cols)}
  {
    var t := Undone(lib, rows, cols, cells, top);
    forall j | 0 <= j < |cells|
      ensures t.cells[j].collapsed <==> cells[j].collapsed && j != Idx(PosOf(top), cols)
    {
      UndoneCells(lib, rows, cols, cells, top, j);
    }
  }

  /** The heap holds exactly the open cells, each keyed by its cached
      entropy: what `heap_reset` builds and every step keeps. */
  ghost predicate Keyed(heap: EntropyHeap, h: Snapshot, cells: seq<Cell>)
  {
    && |cells| == heap.rows * heap.cols
    && forall k :: 0 <= k < |cells| ==> EntryOf(h, heap.cols, k) == heap.Expected(cells, k)
  }

  lemma KeyedHeld(heap: EntropyHeap, h: Snapshot, cells: seq<Cell>)
    requires Keyed(heap, h, cells)
    ensures Held(h, heap.rows, heap.cols) == Open(cells)
  {
  }

  /** The root of the heap names an open cell and carries its position and
      cached entropy. */
  lemma RootOpen(heap: EntropyHeap, h: Snapshot, cells: seq<Cell>)
    requires Consistent(h, heap.rows, heap.cols) && Keyed(heap, h, cells) && 0 < h.size
    ensures var k := CellOf(h.slots[0], heap.cols);
      && 0 <= k < |cells| && !cells[k].collapsed
      && h.slots[0] == HeapNode(k / heap.cols, k % heap.cols, cells[k].entropy)
  {
    var k := CellOf(h.slots[0], heap.cols);
    assert EntryOf(h, heap.cols, k) == Some(h.slots[0]);
  }

  /** On an ordered heap no open cell has a lower cached entropy than the
      root's. */
  lemma RootMinimal(heap: EntropyHeap, h: Snapshot, cells: seq<Cell>)
    requires Consistent(h, heap.rows, heap.cols) && Keyed(heap, h, cells) && 0 < h.size
    requires HeapOrdered(Live(h))
    ensures forall j :: 0 <= j < |cells| && !cells[j].collapsed ==> !Less(cells[j].entropy, h.slots[0].entropy)
  {
    RootIsMin(Live(h));
    forall j | 0 <= j < |cells| && !cells[j].collapsed
      ensures !Less(cells[j].entropy, h.slots[0].entropy)
    {
      assert heap.Expected(cells, j).Some?;
      assert Live(h)[h.idx[j]].entropy == cells[j].entropy;
    }
  }

  /** The heap is empty exactly when every cell is collapsed. */
  lemma EmptyHeapAllCollapsed(heap: EntropyHeap, h: Snapshot, cells: seq<Cell>)
    requires Consistent(h, heap.rows, heap.cols) && Keyed(heap, h, cells)
    ensures h.size == 0 <==> forall j :: 0 <= j < |cells| ==> cells[j].collapsed
  {
    if 0 < h.size {
      RootOpen(heap, h, cells);
    } else {
      forall j | 0 <= j < |cells|
        ensures cells[j].collapsed
      {
        assert EntryOf(h, heap.cols, j).None?;
      }
    }
  }

  /** Taking cell k's entry out of the heap and collapsing the cell keeps
      the heap keyed. */
  lemma KeyedTaken(heap: EntropyHeap, h0: Snapshot, h1: Snapshot, cells: seq<Cell>, cells': seq<Cell>, root: HeapNode)
    requires Keyed(heap, h0, cells) && WithoutEntry(h0, h1, heap.cols, root)
    requires 0 <= CellOf(root, heap.cols) < |cells| == |cells'| && cells'[CellOf(root, heap.cols)].collapsed
    requires forall j :: 0 <= j < |cells| && j != CellOf(root, heap.cols) ==> cells'[j] == cells[j]
    ensures Keyed(heap, h1, cells')
  {
  }

  /** A propagation over the open cells keeps the heap keyed: it re-keys a
      cell whenever it changes that cell's entropy. */
  lemma KeyedSwept(heap: EntropyHeap, h0: Snapshot, h1: Snapshot, lib: seq<Tile>, cells: seq<Cell>, o: Pos, depth: int)
    requires Keyed(heap, h0, cells) && Library(lib) && CellsOk(cells, heap.rows, heap.cols, |lib|)
    requires InBounds(o, heap.rows, heap.cols)
    requires var t := Propagated(lib, heap.rows, heap.cols, Open(cells), cells, o, depth);
      Rekeyed(h0, h1, heap.cols, t.cells, t.rekeyed)
    ensures Keyed(heap, h1, Propagated(lib, heap.rows, heap.cols, Open(cells), cells, o, depth).cells)
  {
    var t := Propagated(lib, heap.rows, heap.cols, Open(cells), cells, o, depth);
    forall k | 0 <= k < |cells|
      ensures EntryOf(h1, heap.cols, k) == heap.Expected(t.cells, k)
    {
      PropagationRekeyed(lib, heap.rows, heap.cols, Open(cells), cells, o, depth, k);
      PropagationKeeps(lib, heap.rows, heap.cols, Open(cells), cells, o, depth, k);
    }
  }

  /** Record i names a collapsed cell whose first `options` slots still
      hold the candidates it had before it was collapsed, `pre[i]`. */
  predicate Kept(rec: Record, m: multiset<int>, cell: Cell)
  {
    cell.collapsed && 0 <= rec.options <= |cell.options| && multiset(cell.options[..rec.options]) == m
  }

  /** The decision stack: every record kept, no two for the same cell. */
  ghost predicate Stacked(stack: seq<Record>, pre: seq<multiset<int>>, cells: seq<Cell>, rows: int, cols: int)
  {
    && |cells| == rows * cols && |pre| == |stack|
    && (forall i :: 0 <= i < |stack| ==>
          InBounds(PosOf(stack[i]), rows, cols) && Kept(stack[i], pre[i], At(cells, rows, cols, PosOf(stack[i]))))
    && (forall i, j :: 0 <= i < j < |stack| ==> PosOf(stack[i]) != PosOf(stack[j]))
  }

  /** Distinct indices below n are at most n. */
  lemma {:induction false} DistinctBound(ks: seq<int>, n: int)
    requires 0 <= n
    requires forall i :: 0 <= i < |ks| ==> 0 <= ks[i] < n
    requires forall i, j :: 0 <= i < j < |ks| ==> ks[i] != ks[j]
    ensures |ks| <= n
    decreases |ks|
  {
    if ks != [] {
      var x := ks[|ks| - 1];
      var rest := ks[..|ks| - 1];
      var squeezed := seq(|rest|, i requires 0 <= i < |rest| => if rest[i] > x then rest[i] - 1 else rest[i]);
      forall i | 0 <= i < |squeezed|
        ensures 0 <= squeezed[i] < n - 1
      {
        assert rest[i] == ks[i] && ks[i] != ks[|ks| - 1];
      }
      forall i, j | 0 <= i < j < |squeezed|
        ensures squeezed[i] != squeezed[j]
      {
        assert rest[i] != rest[j] && rest[i] != x && rest[j] != x;
      }
      DistinctBound(squeezed, n - 1);
    }
  }

  /** With an open cell k there is room on the stack for one more record,
      and no record names k. */
  lemma StackRoom(stack: seq<Record>, pre: seq<multiset<int>>, cells: seq<Cell>, rows: int, cols: int, k: int)
    requires Stacked(stack, pre, cells, rows, cols) && 0 < cols && 0 <= k < |cells| && !cells[k].collapsed
    ensures |stack| < rows * cols
    ensures forall i :: 0 <= i < |stack| ==> PosOf(stack[i]) != Origin(k, cols)
  {
    OriginRoundTrip(k, rows, cols);
    var ks := seq(|stack|, i requires 0 <= i < |stack| => Idx(PosOf(stack[i]), cols)) + [k];
    forall i | 0 <= i < |ks|
      ensures 0 <= ks[i] < rows * cols
      ensures i < |stack| ==> ks[i] != k
    {
      if i < |stack| {
        assert At(cells, rows, cols, PosOf(stack[i])).collapsed;
      }
    }
    forall i, j | 0 <= i < j < |ks|
      ensures ks[i] != ks[j]
    {
      if j < |stack| && ks[i] == ks[j] {
        IdxInjective(PosOf(stack[i]), PosOf(stack[j]), rows, cols);
      }
    }
    MulAtLeast(rows, cols);
    DistinctBound(ks, rows * cols);
  }

  /** A change that leaves the collapsed cells alone keeps the stack. */
  lemma StackedCollapsedKept(stack: seq<Record>, pre: seq<multiset<int>>, cells: seq<Cell>, cells': seq<Cell>,
                             rows: int, cols: int)
    requires Stacked(stack, pre, cells, rows, cols) && |cells'| == |cells|
    requires forall k :: 0 <= k < |cells| && cells[k].collapsed ==> cells'[k] == cells[k]
    ensures Stacked(stack, pre, cells', rows, cols)
  {
    forall i | 0 <= i < |stack|
      ensures Kept(stack[i], pre[i], At(cells', rows, cols, PosOf(stack[i])))
    {
      assert At(cells, rows, cols, PosOf(stack[i])).collapsed;
    }
  }

  /** Pushing a kept record for a cell no record names keeps the stack. */
  lemma StackedPush(stack: seq<Record>, pre: seq<multiset<int>>, cells: seq<Cell>, rows: int, cols: int,
                    rec: Record, m: multiset<int>)
    requires Stacked(stack, pre, cells, rows, cols) && InBounds(PosOf(rec), rows, cols)
    requires Kept(rec, m, At(cells, rows, cols, PosOf(rec)))
    requires forall i :: 0 <= i < |stack| ==> PosOf(stack[i]) != PosOf(rec)
    ensures Stacked(stack + [rec], pre + [m], cells, rows, cols)
  {
    var stack', pre' := stack + [rec], pre + [m];
    assert forall i :: 0 <= i < |stack| ==> stack'[i] == stack[i] && pre'[i] == pre[i];
  }

  /** An advance pushes a record for the cell it takes, which keeps the
      stack; there is room on it for that record. */
  lemma PushStacked(stack: seq<Record>, pre: seq<multiset<int>>, lib: seq<Tile>, rows: int, cols: int,
                    cells: seq<Cell>, k: int, u: real)
    requires Library(lib) && CellsOk(cells, rows, cols, |lib|) && 0 < cols && 0 <= k < |cells|
    requires 0.0 < u <= 1.0 && 0 < cells[k].numOptions && !cells[k].collapsed
    requires Stacked(stack, pre, cells, rows, cols)
    ensures |stack| < rows * cols
    ensures Stacked(stack + [Record(k / cols, k % cols, cells[k].numOptions)], pre + [multiset(Candidates(cells[k]))],
                    Taken(lib, rows, cols, cells, k, u), rows, cols)
  {
    var c := Taken(lib, rows, cols, cells, k, u);
    StackedCollapsedKept(stack, pre, cells, c, rows, cols);
    StackRoom(stack, pre, cells, rows, cols, k);
    OriginRoundTrip(k, rows, cols);
    var ws := WeightsOf(lib, Candidates(cells[k]));
    assert Positive(ws);
    DrawBounds(lib, cells[k], u);
    SwapPermutes(cells[k].options, 0, Pick(ws, Draw(lib, cells[k], u)), cells[k].numOptions);
    var rec := Record(k / cols, k % cols, cells[k].numOptions);
    assert At(c, rows, cols, PosOf(rec)) == c[k];
    StackedPush(stack, pre, c, rows, cols, rec, multiset(Candidates(cells[k])));
  }

  /** Popping the last record keeps the rest of the stack, none of whose
      records names the popped record's cell. */
  lemma StackedPop(stack: seq<Record>, pre: seq<multiset<int>>, cells: seq<Cell>, rows: int, cols: int)
    requires Stacked(stack, pre, cells, rows, cols) && 0 < |stack|
    ensures Stacked(stack[..|stack| - 1], pre[..|pre| - 1], cells, rows, cols)
    ensures forall i :: 0 <= i < |stack| - 1 ==> PosOf(stack[i]) != PosOf(stack[|stack| - 1])
  {
    var n := |stack| - 1;
    assert forall i :: 0 <= i < n ==> stack[..n][i] == stack[i] && pre[..n][i] == pre[i];
  }

  /** A change that leaves alone every collapsed cell but one no record
      names keeps the stack. */
  lemma StackedKeptBut(stack: seq<Record>, pre: seq<multiset<int>>, cells: seq<Cell>, cells': seq<Cell>,
                       rows: int, cols: int, q: Pos)
    requires Stacked(stack, pre, cells, rows, cols) && |cells'| == |cells| && InBounds(q, rows, cols)
    requires forall i :: 0 <= i < |stack| ==> PosOf(stack[i]) != q
    requires forall k :: 0 <= k < |cells| && cells[k].collapsed && k != Idx(q, cols) ==> cells'[k] == cells[k]
    ensures Stacked(stack, pre, cells', rows, cols)
  {
    forall i | 0 <= i < |stack|
      ensures Kept(stack[i], pre[i], At(cells', rows, cols, PosOf(stack[i])))
    {
      var p := PosOf(stack[i]);
      assert At(cells, rows, cols, p).collapsed;
      if Idx(p, cols) == Idx(q, cols) {
        IdxInjective(p, q, rows, cols);
      }
    }
  }

  /** A backtrack pops the last record and reopens its cell, which keeps
      the rest of the stack. */
  lemma PopStacked(stack: seq<Record>, pre: seq<multiset<int>>, lib: seq<Tile>, rows: int, cols: int, cells: seq<Cell>)
    requires Library(lib) && CellsOk(cells, rows, cols, |lib|) && Stacked(stack, pre, cells, rows, cols) && 0 < |stack|
    ensures var top := stack[|stack| - 1];
      && InBounds(PosOf(top), rows, cols) && 0 <= top.options <= |lib| && At(cells, rows, cols, PosOf(top)).collapsed
      && Stacked(stack[..|stack| - 1], pre[..|pre| - 1], Unwound(|lib|, rows, cols, cells, top), rows, cols)
  {
    var n := |stack| - 1;
    var top := stack[n];
    assert Kept(top, pre[n], At(cells, rows, cols, PosOf(top)));
    StackedPop(stack, pre, cells, rows, cols);
    RefreshedOk(cells, rows, cols, |lib|);
    StackedKeptBut(stack[..n], pre[..n], cells, Unwound(|lib|, rows, cols, cells, top), rows, cols, PosOf(top));
  }

  /** The solver's state: the tile library, the grid, the heap of open
      cells, the decision stack and the conflict flag of `wfc_step`.
      `pre` is, for each record, the candidates its cell had before it was
      collapsed. */
  class Wfc {
    const lib: seq<Tile>
    const depth: int
    const grid: Grid
    const heap: EntropyHeap
    var stack: seq<Record>
    var conflict: bool
    ghost var pre: seq<multiset<int>>

    ghost predicate Valid()
      reads this, grid, grid.cells, heap, heap.slots, heap.heapIdx
    {
      && grid.Valid() && heap.Valid() && Library(lib) && 0 < |lib| == grid.numTiles
      && grid.rows == heap.rows && grid.cols == heap.cols && 0 < grid.rows && 0 < grid.cols
      && HeapOrdered(heap.Entries())
      && Keyed(heap, heap.State(), grid.cells[..])
      && Stacked(stack, pre, grid.cells[..], grid.rows, grid.cols)
    }

    /** `propogate_options` from cell (r, c) as the solver calls it: the
        grid ends as the propagation over the open cells says, and the
        heap stays ordered and keyed, so the solver's state stays valid. */
    method Spread(r: int, c: int, d: int) returns (ok: bool)
      requires Valid() && 0 <= r < grid.rows && 0 <= c < grid.cols
      modifies grid.cells, heap, heap.slots, heap.heapIdx
      ensures Valid()
      ensures var t := Propagated(lib, grid.rows, grid.cols, Open(old(grid.cells[..])), old(grid.cells[..]), Pos(r, c), d);
        grid.cells[..] == t.cells && ok == t.ok
    {
      ghost var c0 := grid.cells[..];
      ghost var h0 := heap.State();
      KeyedHeld(heap, h0, c0);
      ok := Propagate(grid, heap, lib, r, c, d);
      ghost var t := Propagated(lib, grid.rows, grid.cols, Open(c0), c0, Pos(r, c), d);
      KeyedSwept(heap, h0, heap.State(), lib, c0, Pos(r, c), d);
      forall k | 0 <= k < |c0| && c0[k].collapsed
        ensures t.cells[k] == c0[k]
      {
        PropagationKeeps(lib, grid.rows, grid.cols, Open(c0), c0, Pos(r, c), d, k);
      }
      StackedCollapsedKept(stack, pre, c0, t.cells, grid.rows, grid.cols);
    }

    /** The tail of `wfc_init`: create the grid, collapse cell idx by the
        draw u, build the heap and propagate from that cell. The stack is
        empty and there is no conflict. */
    constructor (lib: seq<Tile>, rows: nat, cols: nat, depth: int, idx: int, u: real)
      requires Library(lib) && 0 < |lib| && 0 < rows && 0 < cols && 0 <= idx < rows * cols && 0.0 < u <= 1.0
      ensures Valid() && fresh(grid) && fresh(grid.cells) && fresh(heap) && fresh(heap.slots) && fresh(heap.heapIdx)
      ensures this.lib == lib && this.depth == depth && grid.rows == rows && grid.cols == cols
      ensures stack == [] && !conflict
      ensures grid.cells[..] == Decided(lib, rows, cols, depth, Created(rows, cols, |lib|), idx, u).cells
    {
      this.lib := lib;
      this.depth := depth;
      grid := new Grid(rows, cols, |lib|);
      heap := new EntropyHeap(rows, cols);
      stack := [];
      conflict := false;
      pre := [];
      new;
      assert grid.cells[..] == Created(rows, cols, |lib|);
      DrawBounds(lib, grid.cells[idx], u);
      var v := Draw(lib, grid.cells[idx], u);
      var _ := grid.Collapse(lib, idx, v);
      heap.Reset(grid.cells[..]);
      OriginRoundTrip(idx, rows, cols);
      var o := Origin(idx, cols);
      var _ := Spread(o.r, o.c, depth);
    }

    /** The first half of the advance: take the root of the heap, cell k,
        out of the heap, push its record and collapse it by the draw u. */
    method Take(u: real, k: int) returns (root: HeapNode)
      requires Valid() && 0 < heap.size && 0.0 < u <= 1.0
      requires k == CellOf(heap.slots[0], heap.cols) && 0 <= k < grid.cells.Length && 0 < grid.cells[k].numOptions
      modifies this, grid.cells, heap, heap.slots, heap.heapIdx
      ensures Valid() && conflict == old(conflict)
      ensures root.r == k / grid.cols && root.c == k % grid.cols && old(|stack|) < grid.rows * grid.cols
      ensures stack == old(stack) + [Record(k / grid.cols, k % grid.cols, old(grid.cells[k].numOptions))]
      ensures pre == old(pre) + [multiset(Candidates(old(grid.cells[k])))]
      ensures grid.cells[..] == Taken(lib, grid.rows, grid.cols, old(grid.cells[..]), k, u)
    {
      ghost var c0 := grid.cells[..];
      ghost var h0 := heap.State();
      RootOpen(heap, h0, c0);
      var cell := grid.cells[k];
      DrawBounds(lib, cell, u);
      var v := Draw(lib, cell, u);
      PushStacked(stack, pre, lib, grid.rows, grid.cols, c0, k, u);
      root := heap.Extract();
      var _ := grid.Collapse(lib, k, v);
      assert conflict == old(conflict);
      stack := stack + [Record(root.r, root.c, cell.numOptions)];
      pre := pre + [multiset(Candidates(cell))];
      assert grid.cells[..] == Taken(lib, grid.rows, grid.cols, c0, k, u);
      KeyedTaken(heap, h0, heap.State(), c0, grid.cells[..], root);
      assert Stacked(stack, pre, grid.cells[..], grid.rows, grid.cols);
    }

    /** The advance of `wfc_step`: take the heap's root, the open cell of
        lowest cached entropy; record it with its option count; collapse it
        by the draw u and propagate from it. A failed propagation sets the
        conflict flag. A draw of 0 aborts the step before anything changes. */
    method Advance(u: real) returns (out: Outcome)
      requires Valid() && 0 < heap.size && 0.0 <= u <= 1.0
      modifies this, grid.cells, heap, heap.slots, heap.heapIdx
      ensures Valid()
      ensures var k := old(CellOf(heap.slots[0], heap.cols));
        && 0 <= k < grid.cells.Length && !old(grid.cells[k].collapsed)
        && (forall j :: 0 <= j < grid.cells.Length && !old(grid.cells[j].collapsed) ==>
              !Less(old(grid.cells[j].entropy), old(grid.cells[k].entropy)))
        && (out == Aborted <==> u == 0.0 || old(grid.cells[k].numOptions) == 0)
      ensures out == Aborted ==> unchanged(this, grid.cells, heap, heap.slots, heap.heapIdx)
      ensures out != Aborted ==> var k := old(CellOf(heap.slots[0], heap.cols));
        && out == Advanced && old(|stack|) < grid.rows * grid.cols
        && stack == old(stack) + [Record(k / grid.cols, k % grid.cols, old(grid.cells[k].numOptions))]
        && pre == old(pre) + [multiset(Candidates(old(grid.cells[k])))]
        && var t := Decided(lib, grid.rows, grid.cols, depth, old(grid.cells[..]), k, u);
           grid.cells[..] == t.cells && conflict == (old(conflict) || !t.ok)
    {
      ghost var c0 := grid.cells[..];
      RootOpen(heap, heap.State(), c0);
      RootMinimal(heap, heap.State(), c0);
      var k := heap.slots[0].r * grid.cols + heap.slots[0].c;
      DrawBounds(lib, grid.cells[k], u);
      if !(0.0 < Draw(lib, grid.cells[k], u)) {
        return Aborted;
      }
      var root := Take(u, k);
      OriginRoundTrip(k, grid.rows, grid.cols);
      var ok := Spread(root.r, root.c, depth);
      if !ok {
        conflict := true;
      }
      out := Advanced;
    }

    /** The first half of the backtrack: `grid_reset`, pop the last
        record and reopen its cell without the option that was tried (or
        reset it if it had none), rebuild the heap, and clear the conflict
        unless the reopened cell is left with no options. */
    method Unwind() returns (top: Record)
      requires Valid() && 0 < |stack|
      modifies this, grid.cells, heap, heap.slots, heap.heapIdx
      ensures Valid()
      ensures top == old(stack[|stack| - 1]) && stack == old(stack[..|stack| - 1]) && pre == old(pre[..|pre| - 1])
      ensures InBounds(PosOf(top), grid.rows, grid.cols) && 0 <= top.options <= |lib|
      ensures grid.cells[..] == Unwound(|lib|, grid.rows, grid.cols, old(grid.cells[..]), top)
      ensures conflict == (old(conflict) && top.options == 1)
    {
      var rows, cols := grid.rows, grid.cols;
      ghost var c0 := grid.cells[..];
      PopStacked(stack, pre, lib, rows, cols, c0);
      grid.ResetUnsettled();
      top := stack[|stack| - 1];
      stack := stack[..|stack| - 1];
      pre := pre[..|pre| - 1];
      CellIndex(top.r, top.c, rows, cols);
      var k := top.r * cols + top.c;
      grid.Reopen(k, top.options);
      assert grid.cells[..] == Unwound(|lib|, rows, cols, c0, top);
      heap.Reset(grid.cells[..]);
      if grid.cells[k].numOptions != 0 {
        conflict := false;
      }
    }

    /** The backtrack of `wfc_step`: unwind the last decision, then
        propagate from its cell over the whole grid, ignoring the result. */
    method Backtrack()
      requires Valid() && 0 < |stack|
      modifies this, grid.cells, heap, heap.slots, heap.heapIdx
      ensures Valid()
      ensures stack == old(stack[..|stack| - 1]) && pre == old(pre[..|pre| - 1])
      ensures var top := old(stack[|stack| - 1]);
        && InBounds(PosOf(top), grid.rows, grid.cols) && 0 <= top.options <= |lib|
        && var t := Undone(lib, grid.rows, grid.cols, old(grid.cells[..]), top);
           grid.cells[..] == t.cells && conflict == (old(conflict) && top.options == 1)
      ensures var top := old(stack[|stack| - 1]); var k := Idx(PosOf(top), grid.cols);
        && 0 <= k < grid.cells.Length && old(grid.cells[k].collapsed) && !grid.cells[k].collapsed
        && (top.options != 0 ==> multiset(Candidates(grid.cells[k])) + multiset{old(grid.cells[k].options[0])} == old(pre[|pre| - 1]))
        && (top.options == 0 ==> Candidates(grid.cells[k]) == AllTiles(|lib|))
    {
      ghost var c0 := grid.cells[..];
      ghost var top0 := stack[|stack| - 1];
      ghost var m := pre[|pre| - 1];
      assert Kept(top0, m, At(c0, grid.rows, grid.cols, PosOf(top0)));
      CellIndex(top0.r, top0.c, grid.rows, grid.cols);
      ghost var k := Idx(PosOf(top0), grid.cols);
      UndoneCells(lib, grid.rows, grid.cols, c0, top0, k);
      if top0.options != 0 {
        ReopenedOptions(c0[k], top0.options, |lib|);
      }
      var top := Unwind();
      var _ := Spread(top.r, top.c, grid.rows * grid.cols);
    }

    /** The restart of `wfc_step`: reset every cell, collapse cell idx by
        the draw u, rebuild the heap, propagate from that cell (ignoring the
        result) and empty the stack. A draw of 0 aborts the step before
        anything changes. */
    method Restart(u: real, idx: int) returns (out: Outcome)
      requires Valid() && 0.0 <= u <= 1.0 && 0 <= idx < grid.rows * grid.cols
      modifies this, grid.cells, heap, heap.slots, heap.heapIdx
      ensures Valid()
      ensures out == Aborted <==> u == 0.0
      ensures out == Aborted ==> unchanged(this, grid.cells, heap, heap.slots, heap.heapIdx)
      ensures out != Aborted ==>
        && out == Restarted && stack == [] && conflict == old(conflict)
        && grid.cells[..] == Decided(lib, grid.rows, grid.cols, depth, AllReset(old(grid.cells[..]), |lib|), idx, u).cells
    {
      var rows, cols := grid.rows, grid.cols;
      if !(0.0 < u) {
        return Aborted;
      }
      grid.ResetAll();
      DrawBounds(lib, grid.cells[idx], u);
      var v := Draw(lib, grid.cells[idx], u);
      var _ := grid.Collapse(lib, idx, v);
      heap.Reset(grid.cells[..]);
      stack := [];
      pre := [];
      OriginRoundTrip(idx, rows, cols);
      var o := Origin(idx, cols);
      var _ := Spread(o.r, o.c, depth);
      out := Restarted;
    }

    /** As written, backtracking the only record, one whose cell had a
        single option, reopens that cell with no option: the conflict flag
        stays set and the stack is empty, so the next `wfc_step` takes the
        backtrack branch again and pops `stack[-1]`. */
    method StrandedBacktrack(r: int, c: int)
      requires Valid() && conflict && stack == [Record(r, c, 1)]
      modifies this, grid.cells, heap, heap.slots, heap.heapIdx
      ensures Valid() && conflict && stack == []
    {
      Backtrack();
    }

    /** `wfc_step`. u is the step's `rand() / RAND_MAX` and idx the
        restart's `rand() % (rows * cols)`. After a conflict it backtracks;
        otherwise it advances while some cell is open and restarts once all
        are collapsed. A conflict with no record left to pop starts over and
        clears the conflict, where the source pops `stack[-1]`. */
    method Step(u: real, idx: int) returns (out: Outcome)
      requires Valid() && 0.0 <= u <= 1.0 && 0 <= idx < grid.rows * grid.cols
      modifies this, grid.cells, heap, heap.slots, heap.heapIdx
      ensures Valid()
      ensures old(conflict) && old(stack) != [] ==> out == Backtracked && |stack| == old(|stack|) - 1
      ensures old(conflict) && old(stack) == [] ==>
        (out == Restarted && stack == [] && !conflict) || (out == Aborted && conflict)
      ensures !old(conflict) && (exists j :: 0 <= j < grid.cells.Length && !old(grid.cells[j].collapsed)) ==>
        (out == Advanced && |stack| == old(|stack|) + 1) || out == Aborted
      ensures !old(conflict) && (forall j :: 0 <= j < grid.cells.Length ==> old(grid.cells[j].collapsed)) ==>
        (out == Restarted && stack == [] && !conflict) || out == Aborted
      ensures out == Aborted ==> unchanged(this, grid.cells, heap, heap.slots, heap.heapIdx)
      ensures out == Aborted ==> (
        || u == 0.0
        || (&& !old(conflict) && old(heap.size) > 0
            && var k := old(CellOf(heap.slots[0], heap.cols));
               0 <= k < grid.cells.Length && old(grid.cells[k].numOptions) == 0))
      ensures out == Advanced ==> (
        && !old(conflict) && old(heap.size) > 0 && 0.0 < u
        && var k := old(CellOf(heap.slots[0], heap.cols));
           && 0 <= k < grid.cells.Length && 0 < old(grid.cells[k].numOptions)
           && stack == old(stack) + [Record(k / grid.cols, k % grid.cols, old(grid.cells[k].numOptions))]
           && var t := Decided(lib, grid.rows, grid.cols, depth, old(grid.cells[..]), k, u);
              grid.cells[..] == t.cells && conflict == !t.ok)
      ensures out == Backtracked ==> (
        && old(conflict) && old(stack) != [] && stack == old(stack[..|stack| - 1])
        && var top := old(stack[|stack| - 1]);
           && InBounds(PosOf(top), grid.rows, grid.cols) && 0 <= top.options <= |lib|
           && grid.cells[..] == Undone(lib, grid.rows, grid.cols, old(grid.cells[..]), top).cells
           && conflict == (top.options == 1))
      ensures out == Restarted ==> (
        && stack == [] && !conflict && 0.0 < u
        && grid.cells[..] == Decided(lib, grid.rows, grid.cols, depth, AllReset(old(grid.cells[..]), |lib|), idx, u).cells)
    {
      EmptyHeapAllCollapsed(heap, heap.State(), grid.cells[..]);
      if heap.size > 0 && !conflict {
        out := Advance(u);
      } else if conflict && stack != [] {
        Backtrack();
        out := Backtracked;
      } else {
        out := Restart(u, idx);
        if out == Restarted {
          conflict := false;
        }
      }
    }
  }
}
