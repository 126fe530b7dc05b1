/** Constraint propagation as the source runs it: the depth-labelled
    queue loop, its per-cell steps and the heap re-keying, each proved
    against the level-by-level model of module `Levels`. */
module Propagation {
  import opened Tiles
  import opened Entropy
  import opened Grid
  import opened Heap
  import opened Levels

  /** `Tracks` as one fact: the level and run lemmas pass it along whole
      rather than conjunct by conjunct. */
  ghost predicate Carried(lib: seq<Tile>, init: seq<Cell>, rows: int, cols: int, o: Pos, held: set<int>, s: Sweep, bound: int)
  {
    Tracks(lib, init, rows, cols, o, held, s, bound)
  }

  /** One visit of a level: the rest of the level runs from the visited
      sweep, which keeps the invariant. */
  lemma VisitStep(lib: seq<Tile>, init: seq<Cell>, rows: int, cols: int, o: Pos, held: set<int>,
                  s: Sweep, f: seq<Pos>, i: int, bound: int) returns (t: Sweep)
    requires Library(lib) && CellsOk(s.cells, rows, cols, |lib|) && s.ok
    requires AllInBounds(f, rows, cols) && 0 <= i < |f| && Dist(f[i], o) <= bound
    ensures CellsOk(t.cells, rows, cols, |lib|)
    ensures Level(lib, rows, cols, held, s, f, i) == Level(lib, rows, cols, held, t, f, i + 1)
    ensures Carried(lib, init, rows, cols, o, held, s, bound) ==> Carried(lib, init, rows, cols, o, held, t, bound)
  {
    t := Visit(lib, rows, cols, held, s, f[i]);
    VisitTracks(lib, init, rows, cols, o, held, s, f[i], bound);
  }

  /** A level keeps the sweep's invariant: visiting f in order. */
  lemma LevelTracks(lib: seq<Tile>, init: seq<Cell>, rows: int, cols: int, o: Pos, held: set<int>,
                    s: Sweep, f: seq<Pos>, bound: int)
    requires Library(lib) && CellsOk(s.cells, rows, cols, |lib|)
    requires AllInBounds(f, rows, cols) && forall j :: 0 <= j < |f| ==> Dist(f[j], o) <= bound
    requires Carried(lib, init, rows, cols, o, held, s, bound)
    ensures Carried(lib, init, rows, cols, o, held, Level(lib, rows, cols, held, s, f, 0), bound)
  {
    var t, i := s, 0;
    while i < |f| && t.ok
      invariant 0 <= i <= |f| && CellsOk(t.cells, rows, cols, |lib|)
      invariant Level(lib, rows, cols, held, s, f, 0) == Level(lib, rows, cols, held, t, f, i)
      invariant Carried(lib, init, rows, cols, o, held, t, bound)
    {
      t := VisitStep(lib, init, rows, cols, o, held, t, f, i, bound);
      i := i + 1;
    }
  }

  /** The remaining levels keep it, level L's cells being at most L steps
      from the origin. */
  lemma {:induction false} RunTracks(lib: seq<Tile>, init: seq<Cell>, rows: int, cols: int, o: Pos, held: set<int>,
                                     s: Sweep, f: seq<Pos>, level: int, depth: int)
    requires Carried(lib, init, rows, cols, o, held, s, level - 1) && level - 1 <= depth
    requires AllInBounds(f, rows, cols) && forall j :: 0 <= j < |f| ==> Dist(f[j], o) <= level
    ensures Carried(lib, init, rows, cols, o, held, Run(lib, rows, cols, held, s, f, level, depth), depth)
    decreases depth + 1 - level
  {
    if level <= depth && s.ok {
      LevelTracks(lib, init, rows, cols, o, held, s, f, level);
      NextLevelNear(rows, cols, f, o, level);
      RunTracks(lib, init, rows, cols, o, held, Level(lib, rows, cols, held, s, f, 0), NextLevel(rows, cols, f), level + 1, depth);
    }
  }

  /** The whole sweep keeps it with bound depth. */
  lemma PropagatedTracks(lib: seq<Tile>, rows: int, cols: int, held: set<int>, cells: seq<Cell>, o: Pos, depth: int)
    requires Library(lib) && CellsOk(cells, rows, cols, |lib|) && InBounds(o, rows, cols)
    ensures Tracks(lib, cells, rows, cols, o, held, Propagated(lib, rows, cols, held, cells, o, depth), depth)
  {
    var s0 := Sweep(cells, {Idx(o, cols)}, true, {});
    forall q | InBounds(q, rows, cols) && Idx(q, cols) in s0.visited
      ensures q == o
    {
      IdxInjective(q, o, rows, cols);
    }
    if depth >= 0 {
      RunTracks(lib, cells, rows, cols, o, held, s0, [o], 0, depth);
    }
  }

  /** The cells a propagation leaves alone: the origin, every collapsed
      cell and every cell more than `depth` steps from the origin. No cell
      changes its position or its collapsed flag. */
  lemma PropagationFrozen(lib: seq<Tile>, rows: int, cols: int, held: set<int>, cells: seq<Cell>, o: Pos, depth: int, q: Pos)
    requires Library(lib) && CellsOk(cells, rows, cols, |lib|) && InBounds(o, rows, cols) && InBounds(q, rows, cols)
    ensures var t := Propagated(lib, rows, cols, held, cells, o, depth);
      && (q == o || Dist(q, o) > depth || At(cells, rows, cols, q).collapsed ==> At(t.cells, rows, cols, q) == At(cells, rows, cols, q))
      && At(t.cells, rows, cols, q).collapsed == At(cells, rows, cols, q).collapsed
      && At(t.cells, rows, cols, q).row == At(cells, rows, cols, q).row
      && At(t.cells, rows, cols, q).col == At(cells, rows, cols, q).col
  {
    PropagatedTracks(lib, rows, cols, held, cells, o, depth);
    var t := Propagated(lib, rows, cols, held, cells, o, depth);
    var k := Idx(q, cols);
    assert At(t.cells, rows, cols, q) == t.cells[k] && At(cells, rows, cols, q) == cells[k];
    if q != o && Dist(q, o) > depth {
      assert k !in t.visited;
    }
  }

  /** A propagation reports success exactly when no cell lost its last
      option: every cell left with no options already had none. */
  lemma PropagationConflict(lib: seq<Tile>, rows: int, cols: int, held: set<int>, cells: seq<Cell>, o: Pos, depth: int)
    requires Library(lib) && CellsOk(cells, rows, cols, |lib|) && InBounds(o, rows, cols)
    ensures var t := Propagated(lib, rows, cols, held, cells, o, depth);
      t.ok <==> forall k :: 0 <= k < |cells| && t.cells[k].numOptions == 0 ==> cells[k].numOptions == 0
  {
    PropagatedTracks(lib, rows, cols, held, cells, o, depth);
  }

  /** The cells whose heap entries a propagation re-keys: exactly those in
      the heap whose count changed to another non-zero count; each gets
      the entropy of its new options, and every other cell keeps its
      entropy. A cell whose count changed is marked for redrawing. */
  lemma PropagationRekeyed(lib: seq<Tile>, rows: int, cols: int, held: set<int>, cells: seq<Cell>, o: Pos, depth: int, k: int)
    requires Library(lib) && CellsOk(cells, rows, cols, |lib|) && InBounds(o, rows, cols) && 0 <= k < |cells|
    ensures var t := Propagated(lib, rows, cols, held, cells, o, depth);
      && (k in t.rekeyed <==> k in held && t.cells[k].numOptions != cells[k].numOptions && t.cells[k].numOptions != 0)
      && (k in t.rekeyed ==> t.cells[k].entropy == EntropyOf(WeightsOf(lib, Candidates(t.cells[k]))))
      && (k !in t.rekeyed ==> t.cells[k].entropy == cells[k].entropy)
      && (t.cells[k].numOptions != cells[k].numOptions ==> t.cells[k].isNew)
  {
    PropagatedTracks(lib, rows, cols, held, cells, o, depth);
  }

  /** The same for a cell named by its index: a collapsed cell and the
      origin are left alone, and no cell changes its collapsed flag. */
  lemma PropagationKeeps(lib: seq<Tile>, rows: int, cols: int, held: set<int>, cells: seq<Cell>, o: Pos, depth: int, k: int)
    requires Library(lib) && CellsOk(cells, rows, cols, |lib|) && InBounds(o, rows, cols) && 0 <= k < |cells|
    ensures var t := Propagated(lib, rows, cols, held, cells, o, depth);
      && t.cells[k].collapsed == cells[k].collapsed
      && (cells[k].collapsed || k == Idx(o, cols) ==> t.cells[k] == cells[k])
  {
    PropagatedTracks(lib, rows, cols, held, cells, o, depth);
  }

  /** One row of `set_options`: mark every tile that the neighbour of p
      in direction d allows on its opposite side, or every tile when p has
      no neighbour there. The other rows are kept. */
  method MarkDirection(lib: seq<Tile>, cells: array<Cell>, rows: int, cols: int, p: Pos, d: int, marks: array2<bool>)
    requires Library(lib) && CellsOk(cells[..], rows, cols, |lib|) && InBounds(p, rows, cols) && IsDirection(d)
    requires marks.Length0 == 4 && marks.Length1 == MAX_TILES
    modifies marks
    ensures forall t :: 0 <= t < |lib| ==> (marks[d, t] <==> t in DirUnion(lib, cells[..], rows, cols, p, d))
    ensures forall e, t :: 0 <= e < 4 && e != d && 0 <= t < MAX_TILES ==> marks[e, t] == old(marks[e, t])
  {
    var nt := |lib|;
    NeighbourInBounds(rows, cols, p, d);
    var nb := Neighbour(rows, cols, p, d);
    forall t | 0 <= t < nt {
      marks[d, t] := nb.None?;
    }
    if nb.Some? {
      var q := nb.value;
      CellIndex(q.r, q.c, rows, cols);
      var adj := cells[Idx(q, cols)];
      assert CellOk(adj, nt);
      var e := Opposite(d);
      var j := 0;
      while j < adj.numOptions
        invariant 0 <= j <= adj.numOptions
        invariant forall e, t :: 0 <= e < 4 && e != d && 0 <= t < MAX_TILES ==> marks[e, t] == old(marks[e, t])
        invariant forall t :: 0 <= t < nt ==> (marks[d, t] <==> t in Reach(lib, adj.options[..j], e))
      {
        var list := lib[adj.options[j]].options[e];
        ghost var before := Reach(lib, adj.options[..j], e);
        var k := 0;
        while k < |list|
          invariant 0 <= k <= |list|
          invariant forall e, t :: 0 <= e < 4 && e != d && 0 <= t < MAX_TILES ==> marks[e, t] == old(marks[e, t])
          invariant forall t :: 0 <= t < nt ==> (marks[d, t] <==> t in before || t in list[..k])
        {
          marks[d, list[k]] := true;
          assert list[..k + 1] == list[..k] + [list[k]];
          k := k + 1;
        }
        assert list[..k] == list;
        assert adj.options[..j + 1][..j] == adj.options[..j];
        j := j + 1;
      }
      assert Candidates(adj) == adj.options[..j];
    } else {
      forall t | 0 <= t < nt
        ensures t in Elems(AllTiles(nt))
      {
        assert AllTiles(nt)[t] == t;
      }
    }
  }

  /** The options loops of `propogate_options` for cell p: fill the four
      rows of `set_options`, then write the tiles marked in all four rows,
      in id order, over the front of p's buffer. Returns the new buffer and
      the new count; the grid is not touched. */
  method NewOptions(lib: seq<Tile>, cells: array<Cell>, rows: int, cols: int, p: Pos) returns (buf: seq<int>, n: int)
    requires Library(lib) && CellsOk(cells[..], rows, cols, |lib|) && InBounds(p, rows, cols)
    ensures var opts := Picked(Unions(lib, cells[..], rows, cols, p), |lib|);
      n == |opts| && buf == opts + At(cells[..], rows, cols, p).options[n..]
  {
    var nt := |lib|;
    ghost var us := Unions(lib, cells[..], rows, cols, p);
    var marks := new bool[4, MAX_TILES]((e, t) => false);
    var d := 0;
    while d < 4
      invariant 0 <= d <= 4
      invariant forall e, t :: 0 <= e < d && 0 <= t < nt ==> (marks[e, t] <==> t in us[e])
    {
      MarkDirection(lib, cells, rows, cols, p, d, marks);
      d := d + 1;
    }
    CellIndex(p.r, p.c, rows, cols);
    buf, n := Collect(marks, nt, cells[Idx(p, cols)].options, us);
  }

  /** The final loop of the options computation: each tile id marked in
      all four rows of `set_options` is written, in id order, to the next
      slot of the buffer. */
  method Collect(marks: array2<bool>, nt: int, own: seq<int>, ghost us: seq<set<int>>) returns (buf: seq<int>, n: int)
    requires marks.Length0 == 4 && 0 <= nt <= marks.Length1 && |own| == nt && |us| == 4
    requires forall e, t :: 0 <= e < 4 && 0 <= t < nt ==> (marks[e, t] <==> t in us[e])
    ensures n == |Picked(us, nt)| && buf == Picked(us, nt) + own[n..]
  {
    buf := own;
    n := 0;
    var t := 0;
    while t < nt
      invariant 0 <= t <= nt
      invariant n == |Picked(us, t)| && buf == Picked(us, t) + own[n..]
    {
      var all := true;
      var i := 0;
      while i < 4
        invariant 0 <= i <= 4
        invariant all <==> forall e :: 0 <= e < i ==> marks[e, t]
      {
        all := all && marks[i, t];
        i := i + 1;
      }
      assert all <==> InAll(us, t);
      if all {
        buf := buf[n := t];
        n := n + 1;
      }
      t := t + 1;
    }
  }

  /** The cells in the heap. */
  ghost function Held(h: Snapshot, rows: int, cols: int): set<int>
  {
    set k | 0 <= k < rows * cols && EntryOf(h, cols, k).Some?
  }

  /** The heap h is h0 with the entries of the re-keyed cells keyed by
      those cells' entropies, and nothing else changed. */
  ghost predicate Rekeyed(h0: Snapshot, h: Snapshot, cols: int, cells: seq<Cell>, rekeyed: set<int>)
  {
    && (forall k :: k in rekeyed ==> 0 <= k < |cells| && EntryOf(h0, cols, k).Some?)
    && forall k :: EntryOf(h, cols, k) ==
         if k in rekeyed then Some(EntryOf(h0, cols, k).value.(entropy := cells[k].entropy)) else EntryOf(h0, cols, k)
  }

  /** The visited marks as an array. */
  ghost predicate Marks(visited: array<bool>, vs: set<int>)
    reads visited
  {
    forall k :: 0 <= k < visited.Length ==> (visited[k] <==> k in vs)
  }

  /** Re-keying one more cell k, not yet re-keyed, whose entry now carries
      the entropy of its cell in the new grid, keeps `Rekeyed`. */
  lemma RekeyOne(h0: Snapshot, h1: Snapshot, h2: Snapshot, cols: int, cells: seq<Cell>, cells': seq<Cell>,
                 rekeyed: set<int>, k: int)
    requires Rekeyed(h0, h1, cols, cells, rekeyed) && k !in rekeyed && 0 <= k < |cells| == |cells'|
    requires EntryOf(h0, cols, k).Some?
    requires forall j :: 0 <= j < |cells| && j != k ==> cells'[j] == cells[j]
    requires forall j :: (EntryOf(h2, cols, j) ==
      if j == k then Some(EntryOf(h1, cols, k).value.(entropy := cells'[k].entropy)) else EntryOf(h1, cols, j))
    ensures Rekeyed(h0, h2, cols, cells', rekeyed + {k})
  {
  }

  /** Changing a cell that is not re-keyed keeps `Rekeyed`. */
  lemma RekeyNone(h0: Snapshot, h: Snapshot, cols: int, cells: seq<Cell>, cells': seq<Cell>, rekeyed: set<int>, k: int)
    requires Rekeyed(h0, h, cols, cells, rekeyed) && k !in rekeyed && |cells| == |cells'|
    requires forall j :: 0 <= j < |cells| && j != k ==> cells'[j] == cells[j]
    ensures Rekeyed(h0, h, cols, cells', rekeyed)
  {
  }

  /** The re-keying in `propogate_options`: take the cell's entry out of
      slot idx and put it back keyed by e. Every other cell keeps its
      entry. */
  method Rekey(h: EntropyHeap, idx: int, e: Entropy, ghost k: int)
    requires h.Valid() && h.Holds(k) && idx == h.heapIdx[k]
    modifies h, h.slots, h.heapIdx
    ensures h.Valid()
    ensures forall j :: (EntryOf(h.State(), h.cols, j) ==
      if j == k then Some(EntryOf(old(h.State()), h.cols, k).value.(entropy := e)) else EntryOf(old(h.State()), h.cols, j))
    ensures old(HeapOrdered(h.Entries())) ==> HeapOrdered(h.Entries())
  {
    var node := h.RemoveOrdered(idx);
    h.Insert(node.(entropy := e));
  }

  /** What follows the options loops for cell k, given its new buffer and
      count: on a change of count the cell is marked new and found in the
      heap; a count of 0 is a conflict (false), and otherwise a cell in the
      heap gets its entropy computed and its entry re-keyed. */
  method Recount(h: EntropyHeap, lib: seq<Tile>, p: Pos, cell: Cell, buf: seq<int>, n: int,
                 ghost held: set<int>, ghost h0: Snapshot, ghost cells: seq<Cell>, ghost rekeyed: set<int>)
    returns (next: Cell, ok: bool)
    requires h.Valid() && Library(lib) && InBounds(p, h.rows, h.cols) && |cells| == h.rows * h.cols
    requires 0 <= n <= |buf| && forall i :: 0 <= i < |buf| ==> 0 <= buf[i] < |lib|
    requires Idx(p, h.cols) !in rekeyed
    requires held == Held(h0, h.rows, h.cols) && Rekeyed(h0, h.State(), h.cols, cells, rekeyed)
    modifies h, h.slots, h.heapIdx
    ensures h.Valid()
    ensures var k := Idx(p, h.cols);
      && next == Recounted(lib, cell, buf, n, k in held)
      && ok == !(n != cell.numOptions && n == 0)
      && Rekeyed(h0, h.State(), h.cols, Put(cells, h.rows, h.cols, p, next),
                 if n != cell.numOptions && n != 0 && k in held then rekeyed + {k} else rekeyed)
    ensures old(HeapOrdered(h.Entries())) ==> HeapOrdered(h.Entries())
  {
    var rows, cols := h.rows, h.cols;
    CellIndex(p.r, p.c, rows, cols);
    var k := p.r * cols + p.c;
    ghost var h1 := h.State();
    next := cell.(options := buf);
    ok := true;
    if n != cell.numOptions {
      next := next.(numOptions := n, isNew := true);
      var idx := h.Find(p.r, p.c);
      assert h.Lookup(k) == EntryOf(h0, cols, k);
      assert k in held <==> EntryOf(h0, cols, k).Some?;
      if n == 0 {
        ok := false;
      } else if idx >= 0 {
        var e := CalcEntropy(lib, buf, n);
        next := next.(entropy := e);
        Rekey(h, idx, e, k);
        RekeyOne(h0, h1, h.State(), cols, cells, Put(cells, rows, cols, p, next), rekeyed, k);
      }
    }
    if h.State() == h1 {
      RekeyNone(h0, h1, cols, cells, Put(cells, rows, cols, p, next), rekeyed, k);
    }
  }

  /** The options loops and what follows them for an uncollapsed cell p:
      the cell becomes its `NewCell`; on a change of count to 0 the result
      is false, and on a change to another count a cell in the heap has its
      entry re-keyed by the new entropy. */
  method UpdateCell(g: Grid, h: EntropyHeap, lib: seq<Tile>, p: Pos,
                    ghost held: set<int>, ghost h0: Snapshot, ghost rekeyed: set<int>) returns (ok: bool)
    requires g.Valid() && h.Valid() && Library(lib) && |lib| == g.numTiles
    requires g.rows == h.rows && g.cols == h.cols && InBounds(p, g.rows, g.cols)
    requires Idx(p, g.cols) !in rekeyed
    requires held == Held(h0, g.rows, g.cols) && Rekeyed(h0, h.State(), g.cols, g.cells[..], rekeyed)
    modifies g.cells, h, h.slots, h.heapIdx
    ensures g.Valid() && h.Valid()
    ensures var k := Idx(p, g.cols);
      var next := NewCell(lib, g.rows, g.cols, held, old(g.cells[..]), p);
      var changed := next.numOptions != At(old(g.cells[..]), g.rows, g.cols, p).numOptions;
      && g.cells[..] == Put(old(g.cells[..]), g.rows, g.cols, p, next)
      && ok == !(changed && next.numOptions == 0)
      && Rekeyed(h0, h.State(), g.cols, g.cells[..],
                 if changed && next.numOptions != 0 && k in held then rekeyed + {k} else rekeyed)
    ensures old(HeapOrdered(h.Entries())) ==> HeapOrdered(h.Entries())
  {
    var rows, cols := g.rows, g.cols;
    CellIndex(p.r, p.c, rows, cols);
    var k := p.r * cols + p.c;
    ghost var cs := g.cells[..];
    var cell := g.cells[k];
    var buf, n := NewOptions(lib, g.cells, rows, cols, p);
    assert buf[..n] == Picked(Unions(lib, cs, rows, cols, p), |lib|);
    var next;
    next, ok := Recount(h, lib, p, cell, buf, n, held, h0, cs, rekeyed);
    assert CellOk(next, |lib|);
    g.cells[k] := next;
    assert g.cells[..] == Put(cs, rows, cols, p, next);
  }

  /** What `propogate_options` does with one dequeued cell once its
      neighbours are queued: skip it if visited, else mark it, and update
      it unless it is collapsed. Returns false on a conflict. */
  method VisitCell(g: Grid, h: EntropyHeap, lib: seq<Tile>, visited: array<bool>, p: Pos,
                   ghost held: set<int>, ghost s: Sweep, ghost h0: Snapshot, ghost ordered: bool)
    returns (ok: bool, ghost t: Sweep)
    requires g.Valid() && h.Valid() && Library(lib) && |lib| == g.numTiles
    requires g.rows == h.rows && g.cols == h.cols && InBounds(p, g.rows, g.cols)
    requires visited.Length == g.rows * g.cols && Marks(visited, s.visited)
    requires s.cells == g.cells[..] && s.ok && s.rekeyed <= s.visited
    requires held == Held(h0, g.rows, g.cols) && Rekeyed(h0, h.State(), g.cols, s.cells, s.rekeyed)
    requires ordered ==> HeapOrdered(h.Entries())
    modifies g.cells, visited, h, h.slots, h.heapIdx
    ensures g.Valid() && h.Valid()
    ensures t == Visit(lib, g.rows, g.cols, held, s, p)
    ensures g.cells[..] == t.cells && Marks(visited, t.visited) && ok == t.ok
      && Rekeyed(h0, h.State(), g.cols, t.cells, t.rekeyed)
    ensures ordered ==> HeapOrdered(h.Entries())
  {
    CellIndex(p.r, p.c, g.rows, g.cols);
    var k := p.r * g.cols + p.c;
    ok := true;
    assert visited[k] <==> k in s.visited;
    assert At(s.cells, g.rows, g.cols, p) == g.cells[k];
    if !visited[k] {
      visited[k] := true;
      if !g.cells[k].collapsed {
        ok := UpdateCell(g, h, lib, p, held, h0, s.rekeyed);
      }
    }
    t := Visit(lib, g.rows, g.cols, held, s, p);
  }

  /** A queue entry: a cell and its distance in steps of the sweep. */
  datatype QueueNode = QueueNode(r: int, c: int, depth: int)

  /** Cells queued with one depth. */
  function Tagged(ps: seq<Pos>, d: int): (q: seq<QueueNode>)
    ensures |q| == |ps| && forall i :: 0 <= i < |ps| ==> q[i] == QueueNode(ps[i].r, ps[i].c, d)
  {
    seq(|ps|, i requires 0 <= i < |ps| => QueueNode(ps[i].r, ps[i].c, d))
  }

  lemma TaggedAppend(a: seq<Pos>, b: seq<Pos>, d: int)
    ensures Tagged(a + b, d) == Tagged(a, d) + Tagged(b, d)
  {
  }

  /** Queue the in-grid neighbours of a dequeued entry, one step deeper:
      up, down, left and right. */
  method Enqueue(queue: seq<QueueNode>, rows: int, cols: int, node: QueueNode) returns (q: seq<QueueNode>)
    ensures q == queue + Tagged(Neighbours(rows, cols, Pos(node.r, node.c)), node.depth + 1)
  {
    var d := node.depth + 1;
    ghost var ns: seq<Pos> := [];
    q := queue;
    if node.r > 0 {
      q, ns := Queued(queue, q, ns, Pos(node.r - 1, node.c), d);
    }
    if node.r < rows - 1 {
      q, ns := Queued(queue, q, ns, Pos(node.r + 1, node.c), d);
    }
    if node.c > 0 {
      q, ns := Queued(queue, q, ns, Pos(node.r, node.c - 1), d);
    }
    if node.c < cols - 1 {
      q, ns := Queued(queue, q, ns, Pos(node.r, node.c + 1), d);
    }
    assert ns == Neighbours(rows, cols, Pos(node.r, node.c));
  }

  /** Append one tagged cell to the queue that already holds `ns` after
      `queue`. */
  method Queued(queue: seq<QueueNode>, q: seq<QueueNode>, ghost ns: seq<Pos>, p: Pos, d: int)
    returns (q': seq<QueueNode>, ghost ns': seq<Pos>)
    requires q == queue + Tagged(ns, d)
    ensures q' == q + [QueueNode(p.r, p.c, d)] && ns' == ns + [p] && q' == queue + Tagged(ns', d)
  {
    q' := q + [QueueNode(p.r, p.c, d)];
    ns' := ns + [p];
    TaggedAppend(ns, [p], d);
  }

  /** Levels over empty frontiers change nothing. */
  lemma {:induction false} RunEmpty(lib: seq<Tile>, rows: int, cols: int, held: set<int>, s: Sweep, level: int, depth: int)
    requires Library(lib) && CellsOk(s.cells, rows, cols, |lib|)
    ensures Run(lib, rows, cols, held, s, [], level, depth) == s
    decreases depth + 1 - level
  {
    if level <= depth && s.ok {
      RunEmpty(lib, rows, cols, held, s, level + 1, depth);
    }
  }

  lemma NextLevelSnoc(rows: int, cols: int, f: seq<Pos>, i: int)
    requires 0 <= i < |f|
    ensures NextLevel(rows, cols, f[..i + 1]) == NextLevel(rows, cols, f[..i]) + Neighbours(rows, cols, f[i])
  {
    assert f[..i + 1][..i] == f[..i];
  }

  /** Where a sweep at position i of level L, whose frontier is f, ends. */
  function Pending(lib: seq<Tile>, rows: int, cols: int, held: set<int>, s: Sweep, f: seq<Pos>, i: int, level: int, depth: int): Sweep
    requires Library(lib) && CellsOk(s.cells, rows, cols, |lib|) && AllInBounds(f, rows, cols) && 0 <= i <= |f|
  {
    if level <= depth then
      NextLevelNear(rows, cols, f, Pos(0, 0), rows + cols);
      Run(lib, rows, cols, held, Level(lib, rows, cols, held, s, f, i), NextLevel(rows, cols, f), level + 1, depth)
    else s
  }

  /** Visiting the next cell of the level moves the sweep along without
      changing where it ends; a conflict ends it there. */
  lemma PendingStep(lib: seq<Tile>, rows: int, cols: int, held: set<int>, s: Sweep, f: seq<Pos>, i: int, level: int, depth: int)
    requires Library(lib) && CellsOk(s.cells, rows, cols, |lib|) && AllInBounds(f, rows, cols) && 0 <= i < |f|
    requires s.ok && level <= depth
    ensures var t := Visit(lib, rows, cols, held, s, f[i]);
      && Pending(lib, rows, cols, held, s, f, i, level, depth) == Pending(lib, rows, cols, held, t, f, i + 1, level, depth)
      && (!t.ok ==> Pending(lib, rows, cols, held, s, f, i, level, depth) == t)
  {
    var t := Visit(lib, rows, cols, held, s, f[i]);
    assert Level(lib, rows, cols, held, s, f, i) == Level(lib, rows, cols, held, t, f, i + 1);
    NextLevelNear(rows, cols, f, Pos(0, 0), rows + cols);
  }

  /** At the end of a level the sweep goes on with the next level. */
  lemma PendingNext(lib: seq<Tile>, rows: int, cols: int, held: set<int>, s: Sweep, f: seq<Pos>, level: int, depth: int)
    requires Library(lib) && CellsOk(s.cells, rows, cols, |lib|) && AllInBounds(f, rows, cols)
    requires s.ok && level <= depth
    ensures AllInBounds(NextLevel(rows, cols, f), rows, cols)
    ensures Pending(lib, rows, cols, held, s, f, |f|, level, depth)
         == Pending(lib, rows, cols, held, s, NextLevel(rows, cols, f), 0, level + 1, depth)
  {
    NextLevelNear(rows, cols, f, Pos(0, 0), rows + cols);
    var nf := NextLevel(rows, cols, f);
    NextLevelNear(rows, cols, nf, Pos(0, 0), rows + cols + 1);
  }

  /** The queue at position i of frontier f, at depth `level`: the rest
      of the frontier, then the neighbours of the part already taken, one
      deeper. */
  predicate QueueAt(queue: seq<QueueNode>, rows: int, cols: int, f: seq<Pos>, i: int, level: int)
    requires 0 <= i <= |f|
  {
    queue == Tagged(f[i..], level) + Tagged(NextLevel(rows, cols, f[..i]), level + 1)
  }

  /** Taking the head of x, a, b and appending c leaves a, b and c. */
  lemma Shift(q: seq<QueueNode>, x: QueueNode, a: seq<QueueNode>, b: seq<QueueNode>, c: seq<QueueNode>)
    requires q == [x] + a + b
    ensures q[0] == x && q[1..] + c == a + (b + c)
  {
    assert q[1..] == a + b;
  }

  /** The queue after taking the entry for f[i] and queueing its
      neighbours. */
  lemma QueueStep(f: seq<Pos>, i: int, level: int, rows: int, cols: int, queue: seq<QueueNode>)
    requires 0 <= i < |f| && queue == Tagged(f[i..], level) + Tagged(NextLevel(rows, cols, f[..i]), level + 1)
    ensures queue[0] == QueueNode(f[i].r, f[i].c, level)
    ensures queue[1..] + Tagged(Neighbours(rows, cols, f[i]), level + 1)
         == Tagged(f[i + 1..], level) + Tagged(NextLevel(rows, cols, f[..i + 1]), level + 1)
  {
    assert f[i..] == [f[i]] + f[i + 1..];
    TaggedAppend([f[i]], f[i + 1..], level);
    NextLevelSnoc(rows, cols, f, i);
    TaggedAppend(NextLevel(rows, cols, f[..i]), Neighbours(rows, cols, f[i]), level + 1);
    Shift(queue, QueueNode(f[i].r, f[i].c, level), Tagged(f[i + 1..], level),
          Tagged(NextLevel(rows, cols, f[..i]), level + 1), Tagged(Neighbours(rows, cols, f[i]), level + 1));
  }

  /** At the end of a level the queue holds exactly the next level. */
  lemma QueueNext(f: seq<Pos>, level: int, rows: int, cols: int, queue: seq<QueueNode>)
    requires queue == Tagged(f[|f|..], level) + Tagged(NextLevel(rows, cols, f[..|f|]), level + 1)
    ensures var nf := NextLevel(rows, cols, f);
      queue == Tagged(nf[0..], level + 1) + Tagged(NextLevel(rows, cols, nf[..0]), level + 2)
  {
    assert f[..|f|] == f;
    var nf := NextLevel(rows, cols, f);
    assert nf[0..] == nf && nf[..0] == [];
  }

  /** One dequeued entry of `propogate_options` within the depth: queue its
      neighbours and visit its cell. The queue moves one place along the
      frontier and the sweep takes the same step. */
  method VisitNext(g: Grid, h: EntropyHeap, lib: seq<Tile>, visited: array<bool>, rest: seq<QueueNode>, node: QueueNode,
                   depth: int, ghost held: set<int>, ghost h0: Snapshot, ghost s: Sweep,
                   ghost f: seq<Pos>, ghost i: int, ghost level: int, ghost ordered: bool)
    returns (queue: seq<QueueNode>, ok: bool, ghost t: Sweep)
    requires g.Valid() && h.Valid() && Library(lib) && |lib| == g.numTiles && g.rows == h.rows && g.cols == h.cols
    requires visited.Length == g.rows * g.cols && Marks(visited, s.visited)
    requires s.cells == g.cells[..] && s.ok && s.rekeyed <= s.visited
    requires held == Held(h0, g.rows, g.cols) && Rekeyed(h0, h.State(), g.cols, s.cells, s.rekeyed)
    requires AllInBounds(f, g.rows, g.cols) && 0 <= i < |f| && 0 <= level <= depth
    requires node == QueueNode(f[i].r, f[i].c, level)
    requires rest + Tagged(Neighbours(g.rows, g.cols, f[i]), level + 1)
          == Tagged(f[i + 1..], level) + Tagged(NextLevel(g.rows, g.cols, f[..i + 1]), level + 1)
    requires ordered ==> HeapOrdered(h.Entries())
    modifies g.cells, visited, h, h.slots, h.heapIdx
    ensures g.Valid() && h.Valid()
    ensures QueueAt(queue, g.rows, g.cols, f, i + 1, level)
    ensures t == Visit(lib, g.rows, g.cols, held, s, f[i]) && CellsOk(t.cells, g.rows, g.cols, |lib|)
    ensures g.cells[..] == t.cells && Marks(visited, t.visited) && ok == t.ok && t.rekeyed <= t.visited
      && Rekeyed(h0, h.State(), g.cols, t.cells, t.rekeyed)
      && Pending(lib, g.rows, g.cols, held, s, f, i, level, depth) == Pending(lib, g.rows, g.cols, held, t, f, i + 1, level, depth)
      && (!t.ok ==> Pending(lib, g.rows, g.cols, held, s, f, i, level, depth) == t)
    ensures ordered ==> HeapOrdered(h.Entries())
  {
    var p := Pos(node.r, node.c);
    assert p == f[i];
    queue := Enqueue(rest, g.rows, g.cols, node);
    PendingStep(lib, g.rows, g.cols, held, s, f, i, level, depth);
    ok, t := VisitCell(g, h, lib, visited, p, held, s, h0, ordered);
  }

  /** Where the queue loop stands before it takes the head of the queue:
      at the end of a level it goes on with the next one. That changes
      neither the queue nor where the sweep ends, and the head of a
      non-empty queue is the next cell of that frontier. */
  lemma Settle(lib: seq<Tile>, rows: int, cols: int, held: set<int>, s: Sweep, f: seq<Pos>, i: int, level: int,
               depth: int, queue: seq<QueueNode>) returns (f1: seq<Pos>, i1: int, l1: int)
    requires Library(lib) && CellsOk(s.cells, rows, cols, |lib|) && s.ok
    requires AllInBounds(f, rows, cols) && 0 <= i <= |f| && 0 <= level && (i == |f| ==> level <= depth)
    requires QueueAt(queue, rows, cols, f, i, level) && |queue| > 0
    ensures AllInBounds(f1, rows, cols) && 0 <= i1 < |f1| && 0 <= l1
      && ((l1 == level + 1 && level <= depth) || (l1 == level && f1 == f && i1 == i))
      && queue[0] == QueueNode(f1[i1].r, f1[i1].c, l1)
      && queue[1..] + Tagged(Neighbours(rows, cols, f1[i1]), l1 + 1)
         == Tagged(f1[i1 + 1..], l1) + Tagged(NextLevel(rows, cols, f1[..i1 + 1]), l1 + 1)
      && Pending(lib, rows, cols, held, s, f, i, level, depth) == Pending(lib, rows, cols, held, s, f1, i1, l1, depth)
  {
    if i == |f| {
      PendingNext(lib, rows, cols, held, s, f, level, depth);
      QueueNext(f, level, rows, cols, queue);
      f1, i1, l1 := NextLevel(rows, cols, f), 0, level + 1;
    } else {
      f1, i1, l1 := f, i, level;
    }
    QueueStep(f1, i1, l1, rows, cols, queue);
  }

  /** One pass of the queue loop of `propogate_options`: at the end of a
      level go on with the next one, then take the head of the queue; past
      the depth the sweep stops, otherwise the entry is expanded and
      visited, and a conflict stops the sweep. `fin` is where the sweep
      ends; a pass that does not stop leaves a sweep that ends there too. */
  method Step(g: Grid, h: EntropyHeap, lib: seq<Tile>, visited: array<bool>, queue: seq<QueueNode>, depth: int,
              ghost held: set<int>, ghost h0: Snapshot, ghost ordered: bool, ghost fin: Sweep, ghost s: Sweep,
              ghost f: seq<Pos>, ghost i: int, ghost level: int)
    returns (queue': seq<QueueNode>, stop: bool, ok: bool, ghost s': Sweep, ghost f': seq<Pos>, ghost i': int, ghost level': int)
    requires g.Valid() && h.Valid() && Library(lib) && |lib| == g.numTiles && g.rows == h.rows && g.cols == h.cols
    requires visited.Length == g.rows * g.cols && Marks(visited, s.visited)
    requires s.cells == g.cells[..] && s.ok && s.rekeyed <= s.visited
    requires held == Held(h0, g.rows, g.cols) && Rekeyed(h0, h.State(), g.cols, s.cells, s.rekeyed)
    requires ordered ==> HeapOrdered(h.Entries())
    requires AllInBounds(f, g.rows, g.cols) && 0 <= i <= |f| && 0 <= level && (i == |f| ==> level <= depth)
    requires QueueAt(queue, g.rows, g.cols, f, i, level) && |queue| > 0
    requires fin == Pending(lib, g.rows, g.cols, held, s, f, i, level, depth)
    modifies g.cells, visited, h, h.slots, h.heapIdx
    ensures g.Valid() && h.Valid()
    ensures g.cells[..] == s'.cells && Marks(visited, s'.visited) && s'.rekeyed <= s'.visited
    ensures Rekeyed(h0, h.State(), g.cols, s'.cells, s'.rekeyed)
    ensures ordered ==> HeapOrdered(h.Entries())
    ensures stop ==> fin == s' && ok == s'.ok
    ensures !stop ==> && ok && s'.ok && AllInBounds(f', g.rows, g.cols) && 0 <= i' <= |f'| && (i' == |f'| ==> level' <= depth)
                      && QueueAt(queue', g.rows, g.cols, f', i', level')
                      && fin == Pending(lib, g.rows, g.cols, held, s', f', i', level', depth)
                      && ((level' == level + 1 && level <= depth) || (level' == level && f' == f && i' == i + 1))
  {
    var rows, cols := g.rows, g.cols;
    s' := s;
    f', i', level' := Settle(lib, rows, cols, held, s, f, i, level, depth, queue);
    var node := queue[0];
    if node.depth > depth {
      return queue[1..], true, true, s', f', i', level';
    }
    queue', ok, s' := VisitNext(g, h, lib, visited, queue[1..], node, depth, held, h0, s', f', i', level', ordered);
    i' := i' + 1;
    stop := !ok;
  }

  /** The queue loop of `propogate_options`: the queue holds the rest of
      frontier f from position i at depth `level`, then the neighbours of
      the part already taken, one deeper. The loop ends where the sweep
      does, with false on a conflict. */
  method Drain(g: Grid, h: EntropyHeap, lib: seq<Tile>, visited: array<bool>, queue0: seq<QueueNode>, depth: int,
               ghost held: set<int>, ghost h0: Snapshot, ghost s0: Sweep,
               ghost f0: seq<Pos>, ghost i0: int, ghost level0: int) returns (ok: bool)
    requires g.Valid() && h.Valid() && Library(lib) && |lib| == g.numTiles && g.rows == h.rows && g.cols == h.cols
    requires visited.Length == g.rows * g.cols && Marks(visited, s0.visited)
    requires s0.cells == g.cells[..] && s0.ok && s0.rekeyed <= s0.visited
    requires held == Held(h0, g.rows, g.cols) && Rekeyed(h0, h.State(), g.cols, s0.cells, s0.rekeyed)
    requires AllInBounds(f0, g.rows, g.cols) && 0 <= i0 <= |f0| && 0 <= level0 && (i0 == |f0| ==> level0 <= depth)
    requires QueueAt(queue0, g.rows, g.cols, f0, i0, level0)
    modifies g.cells, visited, h, h.slots, h.heapIdx
    ensures g.Valid() && h.Valid()
    ensures var t := Pending(lib, g.rows, g.cols, held, s0, f0, i0, level0, depth);
      && g.cells[..] == t.cells && ok == t.ok
      && Rekeyed(h0, h.State(), g.cols, t.cells, t.rekeyed)
    ensures old(HeapOrdered(h.Entries())) ==> HeapOrdered(h.Entries())
  {
    var rows, cols := g.rows, g.cols;
    ghost var fin := Pending(lib, rows, cols, held, s0, f0, i0, level0, depth);
    ghost var ordered := HeapOrdered(h.Entries());
    ghost var s, f, i, level := s0, f0, i0, level0;
    var queue := queue0;
    ok := true;
    while |queue| > 0
      invariant g.Valid() && h.Valid()
      invariant g.cells[..] == s.cells && Marks(visited, s.visited) && s.rekeyed <= s.visited
      invariant Rekeyed(h0, h.State(), cols, s.cells, s.rekeyed)
      invariant ordered ==> HeapOrdered(h.Entries())
      invariant AllInBounds(f, rows, cols) && 0 <= i <= |f| && 0 <= level && (i == |f| ==> level <= depth)
      invariant QueueAt(queue, rows, cols, f, i, level)
      invariant ok && s.ok && fin == Pending(lib, rows, cols, held, s, f, i, level, depth)
      decreases depth + 1 - level, |f| - i
    {
      var stop;
      queue, stop, ok, s, f, i, level := Step(g, h, lib, visited, queue, depth, held, h0, ordered, fin, s, f, i, level);
      if stop {
        return;
      }
    }
    assert f[..i] == f;
    RunEmpty(lib, rows, cols, held, s, level + 1, depth);
  }

  /** `propogate_options` from cell (r, c) with the given depth: a FIFO
      queue of cells tagged with their depth, starting with (r, c) at depth
      0, already marked visited; each dequeued cell deeper than `depth` ends
      the sweep, and otherwise queues its neighbours and is visited. A
      conflict ends the sweep with false. The grid and the heap end as the
      sweep `Propagated` says, and an ordered heap stays ordered. */
  method Propagate(g: Grid, h: EntropyHeap, lib: seq<Tile>, r: int, c: int, depth: int) returns (ok: bool)
    requires g.Valid() && h.Valid() && Library(lib) && |lib| == g.numTiles
    requires g.rows == h.rows && g.cols == h.cols && 0 <= r < g.rows && 0 <= c < g.cols
    modifies g.cells, h, h.slots, h.heapIdx
    ensures g.Valid() && h.Valid()
    ensures var t := Propagated(lib, g.rows, g.cols, Held(old(h.State()), g.rows, g.cols), old(g.cells[..]), Pos(r, c), depth);
      && g.cells[..] == t.cells && ok == t.ok
      && Rekeyed(old(h.State()), h.State(), g.cols, t.cells, t.rekeyed)
    ensures old(HeapOrdered(h.Entries())) ==> HeapOrdered(h.Entries())
  {
    var rows, cols := g.rows, g.cols;
    ghost var o := Pos(r, c);
    ghost var s := Sweep(g.cells[..], {Idx(o, cols)}, true, {});
    CellIndex(r, c, rows, cols);
    var visited := new bool[rows * cols]((k) => false);
    visited[r * cols + c] := true;
    var queue := [QueueNode(r, c, 0)];
    assert queue == Tagged([o][0..], 0) + Tagged(NextLevel(rows, cols, [o][..0]), 1);
    ok := Drain(g, h, lib, visited, queue, depth, Held(h.State(), rows, cols), h.State(), s, [o], 0, 0);
  }

}
