/** The reference model of constraint propagation, `propogate_options`: a
    breadth-first sweep out from a cell, bounded in depth, that recomputes
    each visited uncollapsed cell's options from its four neighbours and
    notes which cells the heap must re-key. The sweep's queue of
    depth-labelled cells is taken one depth level at a time: level L + 1 is
    every level-L cell's in-grid neighbours, in queue order, duplicates
    included. `Tracks` is the invariant each visit keeps. */
module Levels {
  import opened Tiles
  import opened Entropy
  import opened Grid
  import opened Heap

  /** A queued cell, by row and column. */
  datatype Pos = Pos(r: int, c: int)

  predicate InBounds(p: Pos, rows: int, cols: int)
  {
    0 <= p.r < rows && 0 <= p.c < cols
  }

  /** The row-major index of a cell. */
  function Idx(p: Pos, cols: int): int
  {
    p.r * cols + p.c
  }

  function Abs(x: int): int
  {
    if x < 0 then -x else x
  }

  /** Grid (Manhattan) distance. */
  function Dist(p: Pos, q: Pos): int
  {
    Abs(p.r - q.r) + Abs(p.c - q.c)
  }

  /** The neighbours a dequeued cell enqueues, in the order of the source:
      up, down, left, right, each only when inside the grid. */
  function Neighbours(rows: int, cols: int, p: Pos): (ns: seq<Pos>)
    ensures forall i :: 0 <= i < |ns| ==> Dist(p, ns[i]) == 1
    ensures InBounds(p, rows, cols) ==> forall i :: 0 <= i < |ns| ==> InBounds(ns[i], rows, cols)
  {
    (if p.r > 0 then [Pos(p.r - 1, p.c)] else [])
    + (if p.r < rows - 1 then [Pos(p.r + 1, p.c)] else [])
    + (if p.c > 0 then [Pos(p.r, p.c - 1)] else [])
    + (if p.c < cols - 1 then [Pos(p.r, p.c + 1)] else [])
  }

  /** The next depth level of the queue: each cell's neighbours, in order. */
  function NextLevel(rows: int, cols: int, f: seq<Pos>): (g: seq<Pos>)
    ensures |g| <= 4 * |f|
  {
    if f == [] then [] else NextLevel(rows, cols, f[..|f| - 1]) + Neighbours(rows, cols, f[|f| - 1])
  }

  /** Every cell of the next level is inside the grid and one step from a
      cell of this level, so at most one step further from the origin. */
  lemma {:induction false} NextLevelNear(rows: int, cols: int, f: seq<Pos>, o: Pos, level: int)
    requires forall i :: 0 <= i < |f| ==> InBounds(f[i], rows, cols) && Dist(f[i], o) <= level
    ensures forall j :: 0 <= j < |NextLevel(rows, cols, f)| ==>
      InBounds(NextLevel(rows, cols, f)[j], rows, cols) && Dist(NextLevel(rows, cols, f)[j], o) <= level + 1
    decreases |f|
  {
    if f != [] {
      var init, p := f[..|f| - 1], f[|f| - 1];
      NextLevelNear(rows, cols, init, o, level);
      var a, b := NextLevel(rows, cols, init), Neighbours(rows, cols, p);
      forall j | 0 <= j < |a + b|
        ensures InBounds((a + b)[j], rows, cols) && Dist((a + b)[j], o) <= level + 1
      {
        if j >= |a| {
          assert (a + b)[j] == b[j - |a|];
        }
      }
    }
  }

  /** The neighbour in direction d, as `adj[d]`: none at the grid's edge. */
  function Neighbour(rows: int, cols: int, p: Pos, d: int): Option<Pos>
    requires IsDirection(d)
  {
    if d == UP then (if p.r > 0 then Some(Pos(p.r - 1, p.c)) else None)
    else if d == RIGHT then (if p.c < cols - 1 then Some(Pos(p.r, p.c + 1)) else None)
    else if d == DOWN then (if p.r < rows - 1 then Some(Pos(p.r + 1, p.c)) else None)
    else (if p.c > 0 then Some(Pos(p.r, p.c - 1)) else None)
  }

  lemma NeighbourInBounds(rows: int, cols: int, p: Pos, d: int)
    requires IsDirection(d) && InBounds(p, rows, cols)
    ensures Neighbour(rows, cols, p, d).Some? ==>
      InBounds(Neighbour(rows, cols, p, d).value, rows, cols) && Neighbour(rows, cols, p, d).value != p
  {
  }

  /** The grid with cell p replaced. */
  function Put(cells: seq<Cell>, rows: int, cols: int, p: Pos, cell: Cell): (r: seq<Cell>)
    requires |cells| == rows * cols && InBounds(p, rows, cols)
    ensures 0 <= Idx(p, cols) < |cells| && r == cells[Idx(p, cols) := cell]
  {
    CellIndex(p.r, p.c, rows, cols);
    cells[Idx(p, cols) := cell]
  }

  /** Every cell of the grid holds a buffer of num_tiles ids of the table. */
  predicate CellsOk(cells: seq<Cell>, rows: int, cols: int, n: nat)
  {
    |cells| == rows * cols && forall k :: 0 <= k < |cells| ==> CellOk(cells[k], n)
  }

  /** The set of ids a sequence holds. */
  function Elems(s: seq<int>): set<int>
  {
    set x | x in s
  }

  /** The tiles that the options `ids` allow on their side e: the union of
      their adjacency lists for e, as `set_options` marks them. */
  function Reach(lib: seq<Tile>, ids: seq<int>, e: int): set<int>
    requires Library(lib) && IsDirection(e)
    requires forall k :: 0 <= k < |ids| ==> 0 <= ids[k] < |lib|
  {
    if ids == [] then {}
    else Reach(lib, ids[..|ids| - 1], e) + Elems(lib[ids[|ids| - 1]].options[e])
  }

  lemma {:induction false} ReachBounded(lib: seq<Tile>, ids: seq<int>, e: int)
    requires Library(lib) && IsDirection(e)
    requires forall k :: 0 <= k < |ids| ==> 0 <= ids[k] < |lib|
    ensures forall t :: t in Reach(lib, ids, e) ==> 0 <= t < |lib|
    decreases |ids|
  {
    if ids != [] {
      var last := lib[ids[|ids| - 1]].options[e];
      ReachBounded(lib, ids[..|ids| - 1], e);
      assert forall t :: t in Elems(last) ==> exists k :: 0 <= k < |last| && last[k] == t;
    }
  }

  /** The tiles allowed from direction d: those its neighbour's options
      allow on their opposite side, or every tile at the grid's edge. */
  function DirUnion(lib: seq<Tile>, cells: seq<Cell>, rows: int, cols: int, p: Pos, d: int): (u: set<int>)
    requires Library(lib) && CellsOk(cells, rows, cols, |lib|) && InBounds(p, rows, cols) && IsDirection(d)
    ensures forall t :: t in u ==> 0 <= t < |lib|
  {
    NeighbourInBounds(rows, cols, p, d);
    match Neighbour(rows, cols, p, d)
    case None => Elems(AllTiles(|lib|))
    case Some(q) =>
      CellIndex(q.r, q.c, rows, cols);
      ReachBounded(lib, Candidates(cells[Idx(q, cols)]), Opposite(d));
      Reach(lib, Candidates(cells[Idx(q, cols)]), Opposite(d))
  }

  /** The four unions, by direction. */
  function Unions(lib: seq<Tile>, cells: seq<Cell>, rows: int, cols: int, p: Pos): (us: seq<set<int>>)
    requires Library(lib) && CellsOk(cells, rows, cols, |lib|) && InBounds(p, rows, cols)
    ensures |us| == 4 && forall d :: 0 <= d < 4 ==> us[d] == DirUnion(lib, cells, rows, cols, p, d)
    ensures forall d, t :: 0 <= d < 4 && t in us[d] ==> 0 <= t < |lib|
  {
    seq(4, d requires 0 <= d < 4 => DirUnion(lib, cells, rows, cols, p, d))
  }

  /** A tile lies in all four unions. */
  predicate InAll(us: seq<set<int>>, t: int)
    requires |us| == 4
  {
    t in us[0] && t in us[1] && t in us[2] && t in us[3]
  }

  /** The ids below n lying in all four unions, in increasing order: the
      options the final loop writes. */
  function Picked(us: seq<set<int>>, n: int): (s: seq<int>)
    requires |us| == 4 && n >= 0
    ensures |s| <= n && forall i :: 0 <= i < |s| ==> 0 <= s[i] < n
    decreases n
  {
    if n == 0 then [] else Picked(us, n - 1) + (if InAll(us, n - 1) then [n - 1] else [])
  }

  /** The new options are exactly the tiles allowed from all four sides,
      ascending, so without duplicates. */
  lemma {:induction false} PickedMembers(us: seq<set<int>>, n: int)
    requires |us| == 4 && n >= 0
    ensures StrictlyIncreasing(Picked(us, n))
    ensures forall t :: t in Picked(us, n) <==> 0 <= t < n && InAll(us, t)
    decreases n
  {
    if n > 0 {
      var s := Picked(us, n - 1);
      PickedMembers(us, n - 1);
      if InAll(us, n - 1) {
        assert Picked(us, n) == s + [n - 1];
        AppendIncreasing(s, n - 1);
      } else {
        assert Picked(us, n) == s + [];
      }
    }
  }

  /** The new options do not depend on the cell's own options: they are
      not intersected with the old set. */
  lemma OwnOptionsIgnored(lib: seq<Tile>, cells: seq<Cell>, rows: int, cols: int, p: Pos, cell: Cell)
    requires Library(lib) && CellsOk(cells, rows, cols, |lib|) && InBounds(p, rows, cols) && CellOk(cell, |lib|)
    ensures CellsOk(Put(cells, rows, cols, p, cell), rows, cols, |lib|)
    ensures Unions(lib, Put(cells, rows, cols, p, cell), rows, cols, p) == Unions(lib, cells, rows, cols, p)
  {
    CellIndex(p.r, p.c, rows, cols);
    var cs := Put(cells, rows, cols, p, cell);
    forall d | 0 <= d < 4
      ensures DirUnion(lib, cs, rows, cols, p, d) == DirUnion(lib, cells, rows, cols, p, d)
    {
      NeighbourInBounds(rows, cols, p, d);
      if Neighbour(rows, cols, p, d).Some? {
        var q := Neighbour(rows, cols, p, d).value;
        CellIndex(q.r, q.c, rows, cols);
        assert Idx(q, cols) != Idx(p, cols);
      }
    }
    assert Unions(lib, cs, rows, cols, p) == Unions(lib, cells, rows, cols, p);
  }

  /** The sweep's state: the cells, the visited marks, whether no conflict
      has occurred, and the cells whose heap entries were re-keyed. */
  datatype Sweep = Sweep(cells: seq<Cell>, visited: set<int>, ok: bool, rekeyed: set<int>)

  /** A cell given the new buffer and count: if the count is the old one
      only the buffer changes; otherwise the cell takes the count and is
      marked new, and if it is in the heap (`inHeap`) with a non-zero count
      its entropy becomes that of its new options. */
  function Recounted(lib: seq<Tile>, cell: Cell, buf: seq<int>, n: int, inHeap: bool): (next: Cell)
    requires Library(lib) && 0 <= n <= |buf| && forall i :: 0 <= i < |buf| ==> 0 <= buf[i] < |lib|
    ensures next.options == buf && next.collapsed == cell.collapsed && next.row == cell.row && next.col == cell.col
  {
    if n == cell.numOptions then cell.(options := buf)
    else if n != 0 && inHeap then
      assert Positive(WeightsOf(lib, buf[..n]));
      cell.(options := buf, numOptions := n, isNew := true, entropy := EntropyOf(WeightsOf(lib, buf[..n])))
    else cell.(options := buf, numOptions := n, isNew := true)
  }

  /** Cell p after the options loops: the picked options written over the
      front of its buffer, then `Recounted`. */
  function NewCell(lib: seq<Tile>, rows: int, cols: int, held: set<int>, cells: seq<Cell>, p: Pos): (next: Cell)
    requires Library(lib) && CellsOk(cells, rows, cols, |lib|) && InBounds(p, rows, cols)
    ensures CellOk(next, |lib|)
  {
    var cell := At(cells, rows, cols, p);
    var opts := Picked(Unions(lib, cells, rows, cols, p), |lib|);
    var buf := opts + cell.options[|opts|..];
    assert buf[..|opts|] == opts;
    Recounted(lib, cell, buf, |opts|, Idx(p, cols) in held)
  }

  /** What one dequeued cell does once its neighbours are queued. A
      visited cell is skipped. Otherwise it is marked, and an uncollapsed
      one becomes its `NewCell`; when its count changed to 0 that is a
      conflict, which ends the sweep, and when it changed to another count
      and the cell is in the heap its entry is re-keyed. */
  function Visit(lib: seq<Tile>, rows: int, cols: int, held: set<int>, s: Sweep, p: Pos): (t: Sweep)
    requires Library(lib) && CellsOk(s.cells, rows, cols, |lib|) && InBounds(p, rows, cols)
    ensures CellsOk(t.cells, rows, cols, |lib|)
    ensures s.rekeyed <= s.visited ==> t.rekeyed <= t.visited
  {
    var k := Idx(p, cols);
    var cell := At(s.cells, rows, cols, p);
    if k in s.visited then s
    else if cell.collapsed then s.(visited := s.visited + {k})
    else
      var next := NewCell(lib, rows, cols, held, s.cells, p);
      var changed := next.numOptions != cell.numOptions;
      s.(cells := s.cells[k := next], visited := s.visited + {k},
         ok := s.ok && !(changed && next.numOptions == 0),
         rekeyed := if changed && next.numOptions != 0 && k in held then s.rekeyed + {k} else s.rekeyed)
  }

  predicate AllInBounds(f: seq<Pos>, rows: int, cols: int)
  {
    forall i :: 0 <= i < |f| ==> InBounds(f[i], rows, cols)
  }

  /** The cells of one level from position i on, in queue order, until a
      conflict. */
  function Level(lib: seq<Tile>, rows: int, cols: int, held: set<int>, s: Sweep, f: seq<Pos>, i: int): (t: Sweep)
    requires Library(lib) && CellsOk(s.cells, rows, cols, |lib|) && AllInBounds(f, rows, cols) && 0 <= i <= |f|
    ensures CellsOk(t.cells, rows, cols, |lib|)
    decreases |f| - i
  {
    if i == |f| || !s.ok then s
    else Level(lib, rows, cols, held, Visit(lib, rows, cols, held, s, f[i]), f, i + 1)
  }

  /** Levels `level` .. depth, the first being f; the sweep stops at the
      first cell deeper than depth or at a conflict. */
  function Run(lib: seq<Tile>, rows: int, cols: int, held: set<int>, s: Sweep, f: seq<Pos>, level: int, depth: int): (t: Sweep)
    requires Library(lib) && CellsOk(s.cells, rows, cols, |lib|) && AllInBounds(f, rows, cols)
    ensures CellsOk(t.cells, rows, cols, |lib|)
    decreases depth + 1 - level
  {
    if level > depth || !s.ok then s
    else
      NextLevelNear(rows, cols, f, Pos(0, 0), rows + cols);
      Run(lib, rows, cols, held, Level(lib, rows, cols, held, s, f, 0), NextLevel(rows, cols, f), level + 1, depth)
  }

  /** `propogate_options` from cell p with the given depth: the origin is
      marked visited before anything is dequeued. */
  function Propagated(lib: seq<Tile>, rows: int, cols: int, held: set<int>, cells: seq<Cell>, p: Pos, depth: int): (t: Sweep)
    requires Library(lib) && CellsOk(cells, rows, cols, |lib|) && InBounds(p, rows, cols)
    ensures CellsOk(t.cells, rows, cols, |lib|)
  {
    Run(lib, rows, cols, held, Sweep(cells, {Idx(p, cols)}, true, {}), [p], 0, depth)
  }

  /** Level L of the queue of a sweep from o, as `Run` takes them: the
      origin, then each level's next level. */
  function Frontier(rows: int, cols: int, o: Pos, L: nat): (f: seq<Pos>)
    requires InBounds(o, rows, cols)
    ensures AllInBounds(f, rows, cols)
  {
    if L == 0 then [o]
    else
      var prev := Frontier(rows, cols, o, L - 1);
      NextLevelNear(rows, cols, prev, Pos(0, 0), rows + cols);
      NextLevel(rows, cols, prev)
  }

  /** The queue index of the first entry of level L: the number of entries
      enqueued for levels 0 .. L - 1. */
  function LevelStart(rows: int, cols: int, o: Pos, L: nat): (n: nat)
    requires InBounds(o, rows, cols)
  {
    if L == 0 then 0 else LevelStart(rows, cols, o, L - 1) + |Frontier(rows, cols, o, L - 1)|
  }

  /** The slot of the source's ring buffer that queue index i occupies:
      `i % queue_size`, with `queue_size` equal to 2 * rows * cols. */
  function RingSlot(i: int, rows: int, cols: int): (k: int)
    requires 0 < rows && 0 < cols
    ensures 0 <= k < QueueSize(rows, cols)
  {
    i % QueueSize(rows, cols)
  }

  /** `queue_size`: two entries per cell. */
  function QueueSize(rows: int, cols: int): (n: int)
    requires 0 < rows && 0 < cols
    ensures 0 < n
  {
    MulSign(rows, cols);
    2 * (rows * cols)
  }

  /** On a grid of at least 2 x 2 cells every cell has two neighbours or
      more, so a level is followed by one at least twice as long. */
  lemma {:induction false} NextLevelDoubles(rows: int, cols: int, f: seq<Pos>)
    requires 2 <= rows && 2 <= cols && AllInBounds(f, rows, cols)
    ensures 2 * |f| <= |NextLevel(rows, cols, f)|
    decreases |f|
  {
    if f != [] {
      NextLevelDoubles(rows, cols, f[..|f| - 1]);
    }
  }

  function Pow2(n: nat): (p: nat)
    ensures 0 < p
  {
    if n == 0 then 1 else 2 * Pow2(n - 1)
  }

  lemma {:induction false} Pow2Above(n: nat)
    ensures n < Pow2(n)
  {
    if n > 0 {
      Pow2Above(n - 1);
    }
  }

  /** Duplicates included, level L of a sweep on a grid of at least 2 x 2
      cells holds at least 2^L entries. */
  lemma {:induction false} FrontierGrows(rows: int, cols: int, o: Pos, L: nat)
    requires 2 <= rows && 2 <= cols && InBounds(o, rows, cols)
    ensures Pow2(L) <= |Frontier(rows, cols, o, L)|
  {
    if L > 0 {
      FrontierGrows(rows, cols, o, L - 1);
      NextLevelDoubles(rows, cols, Frontier(rows, cols, o, L - 1));
    }
  }

  /** The ring as written. Every dequeued cell enqueues its neighbours
      before the visited test, and entry i is kept in slot `RingSlot(i)`.
      Once level D + 1 has at least 2 * rows * cols entries, the last cell of
      level D (queue index `node`) enqueues, last of all, an entry e whose
      slot is that of e - 2 * rows * cols: an index no lower than `node`,
      so the entry overwritten is the cell being processed or one queued
      after it and not yet read. */
  lemma RingOverwrite(rows: int, cols: int, o: Pos, D: nat)
    requires InBounds(o, rows, cols) && (2 <= rows || 2 <= cols)
    requires QueueSize(rows, cols) <= |Frontier(rows, cols, o, D + 1)|
    ensures Frontier(rows, cols, o, D) != []
    ensures var f := Frontier(rows, cols, o, D); var last := f[|f| - 1];
      var ns := Neighbours(rows, cols, last); var g := Frontier(rows, cols, o, D + 1);
      && 0 < |ns| <= |g| && g[|g| - |ns|..] == ns
    ensures var size := QueueSize(rows, cols);
      var node := LevelStart(rows, cols, o, D + 1) - 1; var e := LevelStart(rows, cols, o, D + 2) - 1;
      && node <= e - size < e && RingSlot(e - size, rows, cols) == RingSlot(e, rows, cols)
  {
    var f := Frontier(rows, cols, o, D);
    var g := Frontier(rows, cols, o, D + 1);
    var size := QueueSize(rows, cols);
    var last := f[|f| - 1];
    assert InBounds(last, rows, cols);
    assert g == NextLevel(rows, cols, f[..|f| - 1]) + Neighbours(rows, cols, last);
    var e := LevelStart(rows, cols, o, D + 2) - 1;
    assert LevelStart(rows, cols, o, D + 2) == LevelStart(rows, cols, o, D + 1) + |g|;
    SameSlot(e - size, rows, cols);
  }

  /** Queue indices one ring length apart share a slot. */
  lemma SameSlot(i: int, rows: int, cols: int)
    requires 0 < rows && 0 < cols
    ensures RingSlot(i, rows, cols) == RingSlot(i + QueueSize(rows, cols), rows, cols)
  {
    ModShift(i, QueueSize(rows, cols));
  }

  lemma MulSign(a: int, n: int)
    requires 0 < n
    ensures a > 0 ==> a * n >= n
    ensures a < 0 ==> a * n <= -n
  {
  }

  /** Adding the modulus does not change the remainder. */
  lemma ModShift(x: int, n: int)
    requires 0 < n
    ensures (x + n) % n == x % n
  {
    var y := x + n;
    var q, r := x / n, x % n;
    var q2, r2 := y / n, y % n;
    assert x == q * n + r && 0 <= r < n;
    assert y == q2 * n + r2 && 0 <= r2 < n;
    var a := q2 - q - 1;
    assert a * n == q2 * n - q * n - n;
    assert a * n == r - r2;
    MulSign(a, n);
  }

  /** The backtrack's sweep has depth rows * cols. On a grid of at least
      2 x 2 cells, level depth + 1 then has at least 2 * rows * cols entries,
      which is what `RingOverwrite` needs. */
  lemma BacktrackOverflows(rows: int, cols: int, o: Pos, depth: nat)
    requires 2 <= rows && 2 <= cols && InBounds(o, rows, cols) && depth == rows * cols
    ensures QueueSize(rows, cols) <= |Frontier(rows, cols, o, depth + 1)|
  {
    FrontierGrows(rows, cols, o, depth + 1);
    Pow2Above(depth);
    assert Pow2(depth + 1) == 2 * Pow2(depth);
    assert QueueSize(rows, cols) == 2 * depth;
  }

  /** Cell q of the grid. */
  function At(cells: seq<Cell>, rows: int, cols: int, q: Pos): (cell: Cell)
    requires |cells| == rows * cols && InBounds(q, rows, cols)
    ensures 0 <= Idx(q, cols) < |cells| && cell == cells[Idx(q, cols)]
  {
    CellIndex(q.r, q.c, rows, cols);
    cells[Idx(q, cols)]
  }

  /** Distinct cells of the grid have distinct indices. */
  lemma IdxInjective(p: Pos, q: Pos, rows: int, cols: int)
    requires InBounds(p, rows, cols) && InBounds(q, rows, cols) && Idx(p, cols) == Idx(q, cols)
    ensures p == q
  {
    CellIndex(p.r, p.c, rows, cols);
    CellIndex(q.r, q.c, rows, cols);
  }

  /** What holds of a sweep from origin o over the grid `init`, every
      visited cell lying within `bound` steps of o: only visited cells other
      than o and the collapsed cells have changed, and no cell's position
      or collapsed flag has; the sweep is still going exactly when no cell
      has newly lost its last option; a cell is re-keyed exactly when it is
      in the heap and its count changed to another non-zero count, and then
      its entropy is that of its new options, while every other cell keeps
      its entropy; a cell whose count changed is marked new. */
  ghost predicate Tracks(lib: seq<Tile>, init: seq<Cell>, rows: int, cols: int, o: Pos, held: set<int>, s: Sweep, bound: int)
  {
    && Library(lib) && CellsOk(init, rows, cols, |lib|) && CellsOk(s.cells, rows, cols, |lib|)
    && InBounds(o, rows, cols) && Idx(o, cols) in s.visited
    && Framed(init, rows, cols, o, s, bound)
    && Counted(lib, init, rows, cols, held, s)
  }

  /** The part of `Tracks` about which cells may change. */
  ghost predicate Framed(init: seq<Cell>, rows: int, cols: int, o: Pos, s: Sweep, bound: int)
    requires |s.cells| == |init|
  {
    && (forall k :: 0 <= k < |init| && (k == Idx(o, cols) || k !in s.visited || init[k].collapsed) ==>
          s.cells[k] == init[k])
    && (forall k :: 0 <= k < |init| ==>
          s.cells[k].collapsed == init[k].collapsed && s.cells[k].row == init[k].row && s.cells[k].col == init[k].col)
    && (forall q :: InBounds(q, rows, cols) && Idx(q, cols) in s.visited ==> q == o || Dist(q, o) <= bound)
  }

  /** The part of `Tracks` about option counts, conflicts and re-keying. */
  ghost predicate Counted(lib: seq<Tile>, init: seq<Cell>, rows: int, cols: int, held: set<int>, s: Sweep)
    requires Library(lib) && CellsOk(s.cells, rows, cols, |lib|) && |init| == rows * cols
  {
    && (s.ok <==> forall k :: 0 <= k < |init| && s.cells[k].numOptions == 0 ==> init[k].numOptions == 0)
    && (forall k :: k in s.rekeyed <==>
          0 <= k < |init| && k in held && s.cells[k].numOptions != init[k].numOptions && s.cells[k].numOptions != 0)
    && (forall k :: 0 <= k < |init| && k !in s.rekeyed ==> s.cells[k].entropy == init[k].entropy)
    && (forall k :: 0 <= k < |init| && k in s.rekeyed ==>
          s.cells[k].entropy == EntropyOf(WeightsOf(lib, Candidates(s.cells[k]))))
    && (forall k :: 0 <= k < |init| && s.cells[k].numOptions != init[k].numOptions ==> s.cells[k].isNew)
  }

  /** Marking a cell within the bound keeps every visited cell within it. */
  lemma MarkNear(rows: int, cols: int, o: Pos, visited: set<int>, p: Pos, bound: int)
    requires InBounds(p, rows, cols) && Dist(p, o) <= bound
    requires forall q :: InBounds(q, rows, cols) && Idx(q, cols) in visited ==> q == o || Dist(q, o) <= bound
    ensures forall q :: InBounds(q, rows, cols) && Idx(q, cols) in visited + {Idx(p, cols)} ==> q == o || Dist(q, o) <= bound
  {
    forall q | InBounds(q, rows, cols) && Idx(q, cols) in visited + {Idx(p, cols)}
      ensures q == o || Dist(q, o) <= bound
    {
      if Idx(q, cols) == Idx(p, cols) {
        IdxInjective(p, q, rows, cols);
      }
    }
  }

  /** Visiting an unvisited, uncollapsed cell keeps the invariant. */
  lemma UpdateTracks(lib: seq<Tile>, init: seq<Cell>, rows: int, cols: int, o: Pos, held: set<int>,
                     s: Sweep, p: Pos, bound: int)
    requires Tracks(lib, init, rows, cols, o, held, s, bound) && s.ok
    requires InBounds(p, rows, cols) && Dist(p, o) <= bound
    requires Idx(p, cols) !in s.visited && !At(s.cells, rows, cols, p).collapsed
    ensures Tracks(lib, init, rows, cols, o, held, Visit(lib, rows, cols, held, s, p), bound)
  {
    UpdateFramed(lib, init, rows, cols, o, held, s, p, bound);
    UpdateCounted(lib, init, rows, cols, o, held, s, p, bound);
  }

  lemma UpdateFramed(lib: seq<Tile>, init: seq<Cell>, rows: int, cols: int, o: Pos, held: set<int>,
                     s: Sweep, p: Pos, bound: int)
    requires Tracks(lib, init, rows, cols, o, held, s, bound) && s.ok
    requires InBounds(p, rows, cols) && Dist(p, o) <= bound
    requires Idx(p, cols) !in s.visited && !At(s.cells, rows, cols, p).collapsed
    ensures Framed(init, rows, cols, o, Visit(lib, rows, cols, held, s, p), bound)
  {
    CellIndex(p.r, p.c, rows, cols);
    MarkNear(rows, cols, o, s.visited, p, bound);
  }

  lemma UpdateCounted(lib: seq<Tile>, init: seq<Cell>, rows: int, cols: int, o: Pos, held: set<int>,
                      s: Sweep, p: Pos, bound: int)
    requires Tracks(lib, init, rows, cols, o, held, s, bound) && s.ok
    requires InBounds(p, rows, cols) && Dist(p, o) <= bound
    requires Idx(p, cols) !in s.visited && !At(s.cells, rows, cols, p).collapsed
    ensures Counted(lib, init, rows, cols, held, Visit(lib, rows, cols, held, s, p))
  {
    CellIndex(p.r, p.c, rows, cols);
    var k := Idx(p, cols);
    var cell := s.cells[k];
    assert cell == init[k];
    var opts := Picked(Unions(lib, s.cells, rows, cols, p), |lib|);
    var buf := opts + cell.options[|opts|..];
    assert buf[..|opts|] == opts;
    var t := Visit(lib, rows, cols, held, s, p);
    assert Candidates(t.cells[k]) == opts || |opts| == cell.numOptions;
  }

  lemma VisitTracks(lib: seq<Tile>, init: seq<Cell>, rows: int, cols: int, o: Pos, held: set<int>,
                    s: Sweep, p: Pos, bound: int)
    requires s.ok && InBounds(p, rows, cols) && Dist(p, o) <= bound
    ensures Tracks(lib, init, rows, cols, o, held, s, bound) ==>
      Tracks(lib, init, rows, cols, o, held, Visit(lib, rows, cols, held, s, p), bound)
  {
    if Tracks(lib, init, rows, cols, o, held, s, bound) {
      CellIndex(p.r, p.c, rows, cols);
      var k := Idx(p, cols);
      if k !in s.visited {
        if s.cells[k].collapsed {
          MarkNear(rows, cols, o, s.visited, p, bound);
        } else {
          UpdateTracks(lib, init, rows, cols, o, held, s, p, bound);
        }
      }
    }
  }
}
