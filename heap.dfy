/** The indexed binary min-heap of uncollapsed cells, keyed by entropy:
    `min_heap` and `heap_size`, with each cell's `heap_idx` naming the slot
    that holds it; and `sift_up`, `sift_down`, `find`, `heap_insert`,
    `heap_extract`, `heap_remove` and `heap_reset`. */
module Heap {
  import opened Entropy
  import opened Grid

  datatype Option<T> = None | Some(value: T)

  /** A heap entry: a cell's coordinates and the entropy it is keyed by. */
  datatype HeapNode = HeapNode(r: int, c: int, entropy: Entropy)

  /** The parent slot, `(c - 1) / 2` with C's truncating division, so slot
      0 is its own parent. */
  function Parent(i: int): (p: int)
    ensures i > 0 ==> 0 <= p < i && (i == 2 * p + 1 || i == 2 * p + 2)
    ensures i <= 0 ==> p == 0
  {
    if i <= 0 then 0 else (i - 1) / 2
  }

  /** No entry is keyed below its parent's key. */
  predicate HeapOrdered(s: seq<HeapNode>)
  {
    forall i :: 0 < i < |s| ==> !Less(s[i].entropy, s[Parent(i)].entropy)
  }

  /** Ordered except that the entry at c may be keyed below its parent;
      c's children are not keyed below c's parent. What `sift_up` repairs. */
  predicate UpHole(s: seq<HeapNode>, c: int)
  {
    && (forall i :: 0 < i < |s| && i != c ==> !Less(s[i].entropy, s[Parent(i)].entropy))
    && (0 < c < |s| ==> forall k :: 0 < k < |s| && Parent(k) == c ==> !Less(s[k].entropy, s[Parent(c)].entropy))
  }

  /** Ordered except that p's children may be keyed below p; they are not
      keyed below p's parent. What `sift_down` repairs. */
  predicate DownHole(s: seq<HeapNode>, p: int)
  {
    && (forall i :: 0 < i < |s| && Parent(i) != p ==> !Less(s[i].entropy, s[Parent(i)].entropy))
    && (0 < p ==> forall k :: 0 < k < |s| && Parent(k) == p ==> !Less(s[k].entropy, s[Parent(p)].entropy))
  }

  /** The entries once slot idx is freed and the last entry moved into it. */
  function Detached(s: seq<HeapNode>, idx: int): (t: seq<HeapNode>)
    requires 0 <= idx < |s|
    ensures |t| == |s| - 1
    ensures forall k :: 0 <= k < |t| ==> t[k] == if k == idx then s[|s| - 1] else s[k]
  {
    s[idx := s[|s| - 1]][..|s| - 1]
  }

  lemma DetachedPermutes(s: seq<HeapNode>, idx: int)
    requires 0 <= idx < |s|
    ensures multiset(Detached(s, idx)) + multiset{s[idx]} == multiset(s)
  {
    var n := |s| - 1;
    var t := Detached(s, idx);
    if idx < n {
      var a, b := s[..idx], s[idx + 1..n];
      var c := a + [s[n]] + b;
      forall k | 0 <= k < n
        ensures t[k] == c[k]
      {
        if k < idx {
          assert c[k] == a[k];
        } else if k > idx {
          assert c[k] == b[k - idx - 1];
        }
      }
      assert t == c;
      assert s == a + [s[idx]] + b + [s[n]];
    } else {
      assert s == t + [s[idx]];
    }
  }

  /** The heap's state at one moment: the slots of `min_heap`, every cell's
      `heap_idx` by row-major cell index, and `heap_size`. */
  datatype Snapshot = Snapshot(slots: seq<HeapNode>, idx: seq<int>, size: int)

  /** The row-major index of the cell an entry names. */
  function CellOf(n: HeapNode, cols: int): int
  {
    n.r * cols + n.c
  }

  predicate OnGrid(n: HeapNode, rows: int, cols: int)
  {
    0 <= n.r < rows && 0 <= n.c < cols
  }

  /** Every live slot names a cell of the grid, and that cell's `heap_idx`
      is the slot, so no cell sits in two live slots. Cells out of the heap
      may hold any `heap_idx`. */
  predicate Consistent(h: Snapshot, rows: int, cols: int)
  {
    && |h.slots| == rows * cols && |h.idx| == rows * cols && 0 <= h.size <= rows * cols
    && forall i :: 0 <= i < h.size ==>
         OnGrid(h.slots[i], rows, cols) && 0 <= CellOf(h.slots[i], cols) < rows * cols
         && h.idx[CellOf(h.slots[i], cols)] == i
  }

  /** The live entries, slots 0 .. heap_size-1. */
  function Live(h: Snapshot): seq<HeapNode>
    requires 0 <= h.size <= |h.slots|
  {
    h.slots[..h.size]
  }

  /** Cell k's entry: present when its `heap_idx` names a live slot that
      names k back. */
  function EntryOf(h: Snapshot, cols: int, k: int): Option<HeapNode>
  {
    if 0 <= k < |h.idx| && h.size <= |h.slots| && 0 <= h.idx[k] < h.size && CellOf(h.slots[h.idx[k]], cols) == k
    then Some(h.slots[h.idx[k]]) else None
  }

  predicate Sized(h: Snapshot)
  {
    0 <= h.size <= |h.slots|
  }

  /** h2 holds the entries of h1, possibly in other slots: every cell keeps
      its entry, and every cell out of the heap keeps its `heap_idx`. */
  ghost predicate SameEntries(h1: Snapshot, h2: Snapshot, cols: int)
  {
    && Sized(h1) && Sized(h2) && |h2.idx| == |h1.idx| && h2.size == h1.size
    && multiset(Live(h2)) == multiset(Live(h1))
    && (forall k :: EntryOf(h2, cols, k) == EntryOf(h1, cols, k))
    && (forall k :: 0 <= k < |h1.idx| && EntryOf(h2, cols, k).None? ==> h2.idx[k] == h1.idx[k])
  }

  /** h2 is h1 with an entry for node's cell added and nothing else
      changed, but for where the entries sit. */
  ghost predicate WithEntry(h1: Snapshot, h2: Snapshot, cols: int, node: HeapNode)
  {
    && Sized(h1) && Sized(h2) && |h2.idx| == |h1.idx| && h2.size == h1.size + 1
    && multiset(Live(h2)) == multiset(Live(h1)) + multiset{node}
    && (forall k :: EntryOf(h2, cols, k) == if k == CellOf(node, cols) then Some(node) else EntryOf(h1, cols, k))
    && (forall k :: 0 <= k < |h1.idx| && EntryOf(h2, cols, k).None? ==> h2.idx[k] == h1.idx[k])
  }

  /** h2 is h1 with node's entry taken out and nothing else changed, but
      for where the entries sit and for node's own cell's `heap_idx`. */
  ghost predicate WithoutEntry(h1: Snapshot, h2: Snapshot, cols: int, node: HeapNode)
  {
    && Sized(h1) && Sized(h2) && |h2.idx| == |h1.idx| && h2.size == h1.size - 1
    && multiset(Live(h2)) + multiset{node} == multiset(Live(h1))
    && (forall k :: EntryOf(h2, cols, k) == if k == CellOf(node, cols) then None else EntryOf(h1, cols, k))
    && (forall k :: 0 <= k < |h1.idx| && k != CellOf(node, cols) && EntryOf(h2, cols, k).None? ==> h2.idx[k] == h1.idx[k])
  }

  lemma SameEntriesTrans(h1: Snapshot, h2: Snapshot, h3: Snapshot, cols: int)
    requires SameEntries(h1, h2, cols) && SameEntries(h2, h3, cols)
    ensures SameEntries(h1, h3, cols)
  {
  }

  lemma WithEntryThenSame(h1: Snapshot, h2: Snapshot, h3: Snapshot, cols: int, node: HeapNode)
    requires WithEntry(h1, h2, cols, node) && SameEntries(h2, h3, cols)
    ensures WithEntry(h1, h3, cols, node)
  {
  }

  lemma WithoutEntryThenSame(h1: Snapshot, h2: Snapshot, h3: Snapshot, cols: int, node: HeapNode)
    requires WithoutEntry(h1, h2, cols, node) && SameEntries(h2, h3, cols)
    ensures WithoutEntry(h1, h3, cols, node)
    ensures 0 <= CellOf(node, cols) < |h2.idx| && EntryOf(h2, cols, CellOf(node, cols)).None? ==>
      h3.idx[CellOf(node, cols)] == h2.idx[CellOf(node, cols)]
  {
  }

  /** The swap of `sift_up` and `sift_down`: slots i and j trade entries,
      then each moved entry's cell is pointed at its new slot. */
  function Swapped(h: Snapshot, cols: int, i: int, j: int): Snapshot
    requires 0 <= i < |h.slots| && 0 <= j < |h.slots|
    requires 0 <= CellOf(h.slots[i], cols) < |h.idx| && 0 <= CellOf(h.slots[j], cols) < |h.idx|
  {
    var a, b := h.slots[i], h.slots[j];
    Snapshot(h.slots[i := b][j := a], h.idx[CellOf(b, cols) := i][CellOf(a, cols) := j], h.size)
  }

  /** A swap of two live slots keeps the heap consistent, exchanges the two
      live entries and changes no cell's entry, nor the `heap_idx` of any
      cell out of the heap. */
  lemma SwapKeepsEntries(h: Snapshot, rows: int, cols: int, i: int, j: int)
    requires Consistent(h, rows, cols) && 0 <= i < h.size && 0 <= j < h.size
    ensures Consistent(Swapped(h, cols, i, j), rows, cols)
    ensures Live(Swapped(h, cols, i, j)) == Swap(Live(h), i, j)
    ensures SameEntries(h, Swapped(h, cols, i, j), cols)
  {
    var t := Swapped(h, cols, i, j);
    assert Live(t) == Swap(Live(h), i, j);
    SwapPermutes(Live(h), i, j, |Live(h)|);
    assert Live(h)[..|Live(h)|] == Live(h) && Live(t)[..|Live(t)|] == Live(t);
  }

  /** The first step of `heap_insert`: the entry goes into slot heap_size,
      its cell is pointed there, and heap_size grows by one. */
  function Pushed(h: Snapshot, cols: int, node: HeapNode): Snapshot
    requires 0 <= h.size < |h.slots| && 0 <= CellOf(node, cols) < |h.idx|
  {
    Snapshot(h.slots[h.size := node], h.idx[CellOf(node, cols) := h.size], h.size + 1)
  }

  /** Pushing an entry for a cell not in the heap appends it to the live
      entries, gives that cell its entry and changes no other cell's. */
  lemma PushAddsEntry(h: Snapshot, rows: int, cols: int, node: HeapNode)
    requires Consistent(h, rows, cols) && h.size < |h.slots| && OnGrid(node, rows, cols)
    requires EntryOf(h, cols, CellOf(node, cols)).None?
    ensures 0 <= CellOf(node, cols) < |h.idx|
    ensures Consistent(Pushed(h, cols, node), rows, cols)
    ensures Live(Pushed(h, cols, node)) == Live(h) + [node]
    ensures WithEntry(h, Pushed(h, cols, node), cols, node)
  {
    CellIndex(node.r, node.c, rows, cols);
    var t := Pushed(h, cols, node);
    assert Live(t) == Live(h) + [node];
  }

  /** The first half of `heap_extract` and `heap_remove`: the cell in slot
      idx gets `heap_idx` -1, heap_size shrinks by one, the last entry moves
      into slot idx and its cell is pointed there. */
  function Removed(h: Snapshot, cols: int, idx: int): Snapshot
    requires 0 <= idx < h.size <= |h.slots|
    requires 0 <= CellOf(h.slots[idx], cols) < |h.idx| && 0 <= CellOf(h.slots[h.size - 1], cols) < |h.idx|
  {
    var node, last := h.slots[idx], h.slots[h.size - 1];
    Snapshot(h.slots[idx := last], h.idx[CellOf(node, cols) := -1][CellOf(last, cols) := idx], h.size - 1)
  }

  /** Removing slot idx refills it from the last slot and drops exactly the
      removed cell's entry. That cell's `heap_idx` ends -1, or idx when idx
      was the last slot, which the refill then re-points. */
  lemma RemoveDropsEntry(h: Snapshot, rows: int, cols: int, idx: int)
    requires Consistent(h, rows, cols) && 0 <= idx < h.size
    ensures Consistent(Removed(h, cols, idx), rows, cols)
    ensures Live(Removed(h, cols, idx)) == Detached(Live(h), idx)
    ensures WithoutEntry(h, Removed(h, cols, idx), cols, h.slots[idx])
    ensures Removed(h, cols, idx).idx[CellOf(h.slots[idx], cols)] == if idx == h.size - 1 then idx else -1
  {
    RemoveKeepsConsistent(h, rows, cols, idx);
    DetachedPermutes(Live(h), idx);
    forall k
      ensures EntryOf(Removed(h, cols, idx), cols, k) == if k == CellOf(h.slots[idx], cols) then None else EntryOf(h, cols, k)
      ensures 0 <= k < |h.idx| && k != CellOf(h.slots[idx], cols) && EntryOf(Removed(h, cols, idx), cols, k).None? ==>
        Removed(h, cols, idx).idx[k] == h.idx[k]
    {
      RemovedEntry(h, rows, cols, idx, k);
    }
  }

  lemma RemoveKeepsConsistent(h: Snapshot, rows: int, cols: int, idx: int)
    requires Consistent(h, rows, cols) && 0 <= idx < h.size
    ensures Consistent(Removed(h, cols, idx), rows, cols)
    ensures Live(Removed(h, cols, idx)) == Detached(Live(h), idx)
  {
    var t := Removed(h, cols, idx);
    assert Live(t) == Detached(Live(h), idx);
  }

  /** Cell k's entry after slot idx is removed. */
  lemma RemovedEntry(h: Snapshot, rows: int, cols: int, idx: int, k: int)
    requires Consistent(h, rows, cols) && 0 <= idx < h.size
    ensures EntryOf(Removed(h, cols, idx), cols, k) == if k == CellOf(h.slots[idx], cols) then None else EntryOf(h, cols, k)
    ensures 0 <= k < |h.idx| && k != CellOf(h.slots[idx], cols) && EntryOf(Removed(h, cols, idx), cols, k).None? ==>
      Removed(h, cols, idx).idx[k] == h.idx[k]
  {
    var t := Removed(h, cols, idx);
    var k0, kl := CellOf(h.slots[idx], cols), CellOf(h.slots[h.size - 1], cols);
    assert h.idx[k0] == idx && h.idx[kl] == h.size - 1;
    if k == k0 {
    } else if k == kl {
      assert t.idx[k] == idx && t.slots[idx] == h.slots[h.size - 1];
    } else if 0 <= k < |h.idx| {
      assert t.idx[k] == h.idx[k];
    }
  }

  /** Every entry is keyed at least as high as the root. */
  lemma {:induction false} AboveRoot(s: seq<HeapNode>, i: int)
    requires HeapOrdered(s) && 0 <= i < |s|
    ensures !Less(s[i].entropy, s[0].entropy)
    decreases i
  {
    if i > 0 {
      AboveRoot(s, Parent(i));
      LessIsStrictTotalOrder(s[i].entropy, s[Parent(i)].entropy, s[0].entropy);
    }
  }

  /** The root of an ordered heap holds a minimum key. */
  lemma RootIsMin(s: seq<HeapNode>)
    requires HeapOrdered(s) && |s| > 0
    ensures forall i :: 0 <= i < |s| ==> !Less(s[i].entropy, s[0].entropy)
  {
    forall i | 0 <= i < |s|
      ensures !Less(s[i].entropy, s[0].entropy)
    {
      AboveRoot(s, i);
    }
  }

  /** One step of `sift_up`: swapping c with a parent keyed above it moves
      the hole to the parent. */
  lemma SwapUp(s: seq<HeapNode>, c: int)
    requires 0 < c < |s| && UpHole(s, c) && Less(s[c].entropy, s[Parent(c)].entropy)
    ensures UpHole(Swap(s, Parent(c), c), Parent(c))
  {
    var p := Parent(c);
    var t := Swap(s, p, c);
    forall i | 0 < i < |t| && i != p
      ensures !Less(t[i].entropy, t[Parent(i)].entropy)
    {
      if i == c {
      } else if Parent(i) == p {
        LessIsStrictTotalOrder(s[c].entropy, s[p].entropy, s[i].entropy);
      } else if Parent(i) == c {
      } else {
        assert t[i] == s[i] && t[Parent(i)] == s[Parent(i)];
      }
    }
    if 0 < p {
      var g := Parent(p);
      assert t[g] == s[g];
      forall k | 0 < k < |t| && Parent(k) == p
        ensures !Less(t[k].entropy, t[g].entropy)
      {
        if k != c {
          LessIsStrictTotalOrder(s[k].entropy, s[p].entropy, s[g].entropy);
        }
      }
    }
  }

  /** One step of `sift_down`: swapping p with its smallest child, when that
      child is keyed below p, moves the hole to the child. */
  lemma SwapDown(s: seq<HeapNode>, p: int, m: int)
    requires 0 <= p && 0 < m < |s| && Parent(m) == p && DownHole(s, p)
    requires forall k :: 0 < k < |s| && Parent(k) == p ==> !Less(s[k].entropy, s[m].entropy)
    requires Less(s[m].entropy, s[p].entropy)
    ensures DownHole(Swap(s, p, m), m)
  {
    var t := Swap(s, p, m);
    forall i | 0 < i < |t| && Parent(i) != m
      ensures !Less(t[i].entropy, t[Parent(i)].entropy)
    {
      if i == m {
        LessIsStrictTotalOrder(s[m].entropy, s[p].entropy, s[p].entropy);
      } else if Parent(i) == p {
      } else if i == p {
      } else {
        assert t[i] == s[i] && t[Parent(i)] == s[Parent(i)];
      }
    }
    forall k | 0 < k < |t| && Parent(k) == m
      ensures !Less(t[k].entropy, t[Parent(m)].entropy)
    {
      assert t[k] == s[k];
    }
  }

  /** The child `sift_down` picks, the left one exactly when the right one
      is missing or keyed strictly above it, is keyed lowest of p's children. */
  lemma SmallerChild(s: seq<HeapNode>, p: int, m: int)
    requires 0 <= p && 2 * p + 1 < |s|
    requires m == if 2 * p + 2 >= |s| || Less(s[2 * p + 1].entropy, s[2 * p + 2].entropy) then 2 * p + 1 else 2 * p + 2
    ensures 0 < m < |s| && Parent(m) == p
    ensures forall k :: 0 < k < |s| && Parent(k) == p ==> !Less(s[k].entropy, s[m].entropy)
  {
    forall k | 0 < k < |s| && Parent(k) == p
      ensures !Less(s[k].entropy, s[m].entropy)
    {
      assert k == 2 * p + 1 || k == 2 * p + 2;
      LessIsStrictTotalOrder(s[k].entropy, s[m].entropy, s[m].entropy);
    }
  }

  /** When p's smallest child is not keyed below p, the hole is closed. */
  lemma DownHoleSettled(s: seq<HeapNode>, p: int, m: int)
    requires 0 <= p && 0 < m < |s| && Parent(m) == p && DownHole(s, p)
    requires forall k :: 0 < k < |s| && Parent(k) == p ==> !Less(s[k].entropy, s[m].entropy)
    requires !Less(s[m].entropy, s[p].entropy)
    ensures HeapOrdered(s)
  {
    forall k | 0 < k < |s| && Parent(k) == p
      ensures !Less(s[k].entropy, s[p].entropy)
    {
      LessIsStrictTotalOrder(s[k].entropy, s[m].entropy, s[p].entropy);
    }
  }

  /** Moving the last entry of an ordered heap to the root leaves a hole
      at the root, which is what `heap_extract` hands to `sift_down`. */
  lemma RootHole(s: seq<HeapNode>)
    requires HeapOrdered(s) && |s| > 0
    ensures DownHole(Detached(s, 0), 0)
  {
    var t := Detached(s, 0);
    forall i | 0 < i < |t| && Parent(i) != 0
      ensures !Less(t[i].entropy, t[Parent(i)].entropy)
    {
      assert t[i] == s[i] && t[Parent(i)] == s[Parent(i)];
    }
  }

  /** Appending an entry to an ordered heap leaves a hole at the new slot,
      which is what `heap_insert` hands to `sift_up`. */
  lemma AppendHole(s: seq<HeapNode>, x: HeapNode)
    requires HeapOrdered(s)
    ensures UpHole(s + [x], |s|)
  {
    var t := s + [x];
    forall i | 0 < i < |t| && i != |s|
      ensures !Less(t[i].entropy, t[Parent(i)].entropy)
    {
      assert t[i] == s[i] && t[Parent(i)] == s[Parent(i)];
    }
  }

  /** A hole whose children are keyed at least as high as it is no hole. */
  lemma DownHoleClosed(s: seq<HeapNode>, p: int)
    requires 0 <= p && DownHole(s, p)
    requires forall k :: 0 < k < |s| && Parent(k) == p ==> !Less(s[k].entropy, s[p].entropy)
    ensures HeapOrdered(s)
  {
  }

  /** Moving the last entry into slot idx of an ordered heap leaves a hole
      at idx: one `sift_up` repairs when the moved entry is keyed below its
      new parent, one `sift_down` repairs otherwise. */
  predicate Repairable(t: seq<HeapNode>, idx: int)
  {
    if 0 <= idx < |t| then
      if 0 < idx && Less(t[idx].entropy, t[Parent(idx)].entropy) then UpHole(t, idx) else DownHole(t, idx)
    else HeapOrdered(t)
  }

  lemma DetachHole(s: seq<HeapNode>, idx: int)
    requires HeapOrdered(s) && 0 <= idx < |s|
    ensures Repairable(Detached(s, idx), idx)
  {
    var t := Detached(s, idx);
    if idx < |t| {
      if 0 < idx && Less(t[idx].entropy, t[Parent(idx)].entropy) {
        forall i | 0 < i < |t| && i != idx
          ensures !Less(t[i].entropy, t[Parent(i)].entropy)
        {
          if Parent(i) == idx {
            LessIsStrictTotalOrder(t[idx].entropy, s[Parent(idx)].entropy, s[idx].entropy);
            LessIsStrictTotalOrder(t[idx].entropy, s[idx].entropy, s[i].entropy);
          }
        }
        forall k | 0 < k < |t| && Parent(k) == idx
          ensures !Less(t[k].entropy, t[Parent(idx)].entropy)
        {
          LessIsStrictTotalOrder(s[k].entropy, s[idx].entropy, s[Parent(idx)].entropy);
        }
      } else {
        forall k | 0 < idx && 0 < k < |t| && Parent(k) == idx
          ensures !Less(t[k].entropy, t[Parent(idx)].entropy)
        {
          LessIsStrictTotalOrder(s[k].entropy, s[idx].entropy, s[Parent(idx)].entropy);
        }
      }
    } else {
      assert forall k :: 0 <= k < |t| ==> t[k] == s[k];
    }
  }

  /** One swap of `sift_down`, of p with its smaller child m: the entries
      are kept and the hole moves down to m. */
  lemma SinkStep(h0: Snapshot, h: Snapshot, rows: int, cols: int, p: int, m: int, ok: bool)
    requires Consistent(h, rows, cols) && SameEntries(h0, h, cols) && 0 <= p && 0 < m < h.size && Parent(m) == p
    requires var s := Live(h); forall k :: 0 < k < |s| && Parent(k) == p ==> !Less(s[k].entropy, s[m].entropy)
    requires Less(Live(h)[m].entropy, Live(h)[p].entropy)
    requires ok ==> DownHole(Live(h), p)
    ensures Consistent(Swapped(h, cols, p, m), rows, cols) && SameEntries(h0, Swapped(h, cols, p, m), cols)
    ensures ok ==> DownHole(Live(Swapped(h, cols, p, m)), m)
  {
    SwapKeepsEntries(h, rows, cols, p, m);
    SameEntriesTrans(h0, h, Swapped(h, cols, p, m), cols);
    if ok {
      SwapDown(Live(h), p, m);
    }
  }

  /** The heap over a grid of rows x cols cells. `slots` is `min_heap`,
      `size` is `heap_size` and `heapIdx` holds every cell's `heap_idx`, by
      row-major cell index. */
  class EntropyHeap {
    const rows: nat
    const cols: nat
    const slots: array<HeapNode>
    var size: int
    const heapIdx: array<int>

    ghost function State(): Snapshot
      reads this, slots, heapIdx
    {
      Snapshot(slots[..], heapIdx[..], size)
    }

    ghost predicate Valid()
      reads this, slots, heapIdx
    {
      Consistent(State(), rows, cols)
    }

    function Index(n: HeapNode): int
    {
      CellOf(n, cols)
    }

    /** The entry of cell k, if it is in the heap. */
    ghost function Lookup(k: int): Option<HeapNode>
      reads this, slots, heapIdx
    {
      EntryOf(State(), cols, k)
    }

    ghost predicate Holds(k: int)
      reads this, slots, heapIdx
    {
      Lookup(k).Some?
    }

    ghost function Entries(): seq<HeapNode>
      reads this, slots, heapIdx
      requires Valid()
    {
      Live(State())
    }

    /** An empty heap with room for one entry per cell. */
    constructor (rows: nat, cols: nat)
      ensures Valid() && fresh(slots) && fresh(heapIdx)
      ensures this.rows == rows && this.cols == cols && size == 0
    {
      this.rows := rows;
      this.cols := cols;
      slots := new HeapNode[rows * cols](_ => HeapNode(0, 0, Infinite));
      heapIdx := new int[rows * cols];
      size := 0;
    }

    /** Swap two live slots and point both cells' `heap_idx` at their new
        slots. */
    method Exchange(i: int, j: int)
      requires Valid() && 0 <= i < size && 0 <= j < size
      modifies slots, heapIdx
      ensures Valid() && State() == Swapped(old(State()), cols, i, j)
    {
      ghost var h := State();
      SwapKeepsEntries(h, rows, cols, i, j);
      var a, b := slots[i], slots[j];
      slots[i] := b;
      slots[j] := a;
      heapIdx[Index(b)] := i;
      heapIdx[Index(a)] := j;
      assert slots[..] == h.slots[i := b][j := a];
      assert heapIdx[..] == h.idx[Index(b) := i][Index(a) := j];
    }

    /** `sift_up`: swap the entry at c with its parent while it is keyed
        strictly below it. Every cell keeps its entry; an `UpHole` at c is
        repaired. */
    method SiftUp(c0: int)
      requires Valid() && 0 <= c0 < size
      modifies slots, heapIdx
      ensures Valid() && SameEntries(old(State()), State(), cols)
      ensures old(UpHole(Entries(), c0)) ==> HeapOrdered(Entries())
    {
      ghost var h0 := State();
      ghost var ok := UpHole(Entries(), c0);
      var c := c0;
      var p := Parent(c);
      while Less(slots[c].entropy, slots[p].entropy)
        invariant Valid() && 0 <= c < size && p == Parent(c)
        invariant SameEntries(h0, State(), cols)
        invariant ok ==> UpHole(Entries(), c)
        decreases c
      {
        ghost var h := State();
        SwapKeepsEntries(h, rows, cols, p, c);
        SameEntriesTrans(h0, h, Swapped(h, cols, p, c), cols);
        if ok {
          SwapUp(Live(h), c);
        }
        Exchange(p, c);
        c := p;
        p := Parent(c);
      }
    }

    /** The child of p that `sift_down` swaps with: the left one when it is
        keyed strictly below the right one or p has no right child among
        the live slots, else the right one. No child of p is keyed below it. */
    method SmallerChildOf(p: int) returns (m: int)
      requires Valid() && 0 <= p && 2 * p + 1 < size
      ensures 0 < m < size && Parent(m) == p
      ensures forall k :: 0 < k < size && Parent(k) == p ==> !Less(Entries()[k].entropy, Entries()[m].entropy)
    {
      ghost var s := Entries();
      var c := 2 * p + 1;
      if c + 1 >= size || Less(slots[c].entropy, slots[c + 1].entropy) {
        m := c;
      } else {
        m := c + 1;
      }
      assert s[c] == slots[c];
      assert c + 1 < size ==> s[c + 1] == slots[c + 1];
      SmallerChild(s, p, m);
    }

    /** `sift_down`: while p has a child keyed below it, swap it with its
        smaller child (the right one on a tie). Every cell keeps its entry;
        a `DownHole` at p is repaired. Only live slots are read: a right
        child at `heap_size` is not compared. */
    method SiftDown(p0: int)
      requires Valid() && 0 <= p0 <= size
      modifies slots, heapIdx
      ensures Valid() && SameEntries(old(State()), State(), cols)
      ensures old(DownHole(Entries(), p0)) ==> HeapOrdered(Entries())
      ensures 2 * p0 + 1 >= size ==> State() == old(State())
    {
      ghost var h0 := State();
      ghost var ok := DownHole(Entries(), p0);
      var p := p0;
      while 2 * p + 1 < size
        invariant Valid() && 0 <= p <= size
        invariant SameEntries(h0, State(), cols)
        invariant ok ==> DownHole(Entries(), p)
        invariant p0 <= p && (2 * p0 + 1 >= size ==> State() == h0)
        decreases size - p
      {
        ghost var h := State();
        var m := SmallerChildOf(p);
        assert Live(h)[m] == slots[m] && Live(h)[p] == slots[p];
        if Less(slots[m].entropy, slots[p].entropy) {
          SinkStep(h0, h, rows, cols, p, m, ok);
          Exchange(p, m);
          p := m;
        } else {
          if ok {
            DownHoleSettled(Live(h), p, m);
          }
          return;
        }
      }
      if ok {
        DownHoleClosed(Entries(), p);
      }
    }

    /** `find`: the first live slot naming cell (r, c), or -1. The scan
        agrees with the cell's cached `heap_idx` whenever the cell is in
        the heap, and gives -1 for a cell whose `heap_idx` is stale. */
    method Find(r: int, c: int) returns (i: int)
      requires Valid()
      ensures -1 <= i < size
      ensures 0 <= i ==> slots[i].r == r && slots[i].c == c
      ensures i == -1 <==> forall j :: 0 <= j < size ==> !(slots[j].r == r && slots[j].c == c)
      ensures 0 <= r < rows && 0 <= c < cols ==> i == if Holds(r * cols + c) then heapIdx[r * cols + c] else -1
    {
      i := 0;
      while i < size
        invariant 0 <= i <= size
        invariant forall j :: 0 <= j < i ==> !(slots[j].r == r && slots[j].c == c)
      {
        if slots[i].r == r && slots[i].c == c {
          if 0 <= r < rows && 0 <= c < cols {
            assert State().slots[i] == slots[i];
            assert heapIdx[Index(slots[i])] == i;
          }
          return;
        }
        i := i + 1;
      }
      i := -1;
      if 0 <= r < rows && 0 <= c < cols && Holds(r * cols + c) {
        var h := heapIdx[r * cols + c];
        CellIndex(r, c, rows, cols);
        CellIndex(slots[h].r, slots[h].c, rows, cols);
        assert false;
      }
    }

    /** The first half of `heap_insert`: the entry goes to the first free
        slot and its cell's `heap_idx` names that slot. */
    method Push(node: HeapNode)
      requires Valid() && OnGrid(node, rows, cols) && size < slots.Length && !Holds(Index(node))
      modifies this, slots, heapIdx
      ensures Valid() && 0 <= Index(node) < heapIdx.Length && State() == Pushed(old(State()), cols, node)
    {
      ghost var h := State();
      PushAddsEntry(h, rows, cols, node);
      slots[size] := node;
      size := size + 1;
      heapIdx[Index(node)] := size - 1;
      assert slots[..] == h.slots[h.size := node];
      assert heapIdx[..] == h.idx[Index(node) := h.size];
    }

    /** `heap_insert`: place the entry in the first free slot and sift it
        up. The heap gains exactly that entry for that cell, and an ordered
        heap stays ordered. */
    method Insert(node: HeapNode)
      requires Valid() && OnGrid(node, rows, cols) && size < slots.Length && !Holds(Index(node))
      modifies this, slots, heapIdx
      ensures Valid() && WithEntry(old(State()), State(), cols, node)
      ensures old(HeapOrdered(Entries())) ==> HeapOrdered(Entries())
    {
      ghost var h := State();
      PushAddsEntry(h, rows, cols, node);
      if HeapOrdered(Live(h)) {
        AppendHole(Live(h), node);
      }
      Push(node);
      SiftUp(size - 1);
      WithEntryThenSame(h, Pushed(h, cols, node), State(), cols, node);
    }

    /** The first half of `heap_extract` and `heap_remove`: take the entry
        in slot idx, mark its cell -1, and move the last entry into the
        freed slot, pointing that cell's `heap_idx` at it. */
    method Detach(idx: int) returns (node: HeapNode)
      requires Valid() && 0 <= idx < size
      modifies this, slots, heapIdx
      ensures Valid() && node == old(slots[idx]) && State() == Removed(old(State()), cols, idx)
    {
      ghost var h := State();
      RemoveDropsEntry(h, rows, cols, idx);
      node := slots[idx];
      heapIdx[Index(node)] := -1;
      size := size - 1;
      var last := slots[size];
      slots[idx] := last;
      heapIdx[Index(last)] := idx;
      assert slots[..] == h.slots[idx := last];
      assert heapIdx[..] == h.idx[Index(node) := -1][Index(last) := idx];
    }

    /** `heap_extract`: take the root, move the last entry to the root and
        sift it down. The heap loses exactly the root's entry; on an ordered
        heap the root is a minimum and the heap stays ordered. The taken
        cell's `heap_idx` becomes -1, except that taking the only entry
        leaves it 0, since that entry is its own replacement. */
    method Extract() returns (root: HeapNode)
      requires Valid() && size > 0
      modifies this, slots, heapIdx
      ensures Valid() && root == old(slots[0])
      ensures WithoutEntry(old(State()), State(), cols, root)
      ensures heapIdx[Index(root)] == if old(size) == 1 then 0 else -1
      ensures old(HeapOrdered(Entries())) ==> HeapOrdered(Entries())
      ensures old(HeapOrdered(Entries())) ==> forall i :: 0 <= i < |old(Entries())| ==> !Less(old(Entries())[i].entropy, root.entropy)
    {
      ghost var h := State();
      RemoveDropsEntry(h, rows, cols, 0);
      if HeapOrdered(Live(h)) {
        RootIsMin(Live(h));
        RootHole(Live(h));
      }
      root := Detach(0);
      SiftDown(0);
      WithoutEntryThenSame(h, Removed(h, cols, 0), State(), cols, root);
    }

    /** `heap_remove`: take the entry in slot idx, move the last entry there
        and sift it down. The heap loses exactly that entry; since the moved
        entry is never sifted up, the heap need not stay ordered. The taken
        cell's `heap_idx` becomes -1, or stays idx when idx was the last
        slot. */
    method Remove(idx: int) returns (node: HeapNode)
      requires Valid() && 0 <= idx < size
      modifies this, slots, heapIdx
      ensures Valid() && node == old(slots[idx])
      ensures WithoutEntry(old(State()), State(), cols, node)
      ensures heapIdx[Index(node)] == if idx == old(size) - 1 then idx else -1
      ensures 2 * idx + 1 >= old(size) - 1 ==> State() == Removed(old(State()), cols, idx)
    {
      ghost var h := State();
      RemoveDropsEntry(h, rows, cols, idx);
      node := Detach(idx);
      SiftDown(idx);
      WithoutEntryThenSame(h, Removed(h, cols, idx), State(), cols, node);
    }

    /** `heap_remove` with the moved entry sifted up when it is keyed below
        its new parent and down otherwise: the heap loses exactly that entry
        and an ordered heap stays ordered. */
    method RemoveOrdered(idx: int) returns (node: HeapNode)
      requires Valid() && 0 <= idx < size
      modifies this, slots, heapIdx
      ensures Valid() && node == old(slots[idx])
      ensures WithoutEntry(old(State()), State(), cols, node)
      ensures heapIdx[Index(node)] == if idx == old(size) - 1 then idx else -1
      ensures old(HeapOrdered(Entries())) ==> HeapOrdered(Entries())
    {
      ghost var h := State();
      RemoveDropsEntry(h, rows, cols, idx);
      if HeapOrdered(Live(h)) {
        DetachHole(Live(h), idx);
      }
      node := Detach(idx);
      Repair(idx);
      WithoutEntryThenSame(h, Removed(h, cols, idx), State(), cols, node);
    }

    /** The sift that closes the hole a removal leaves at idx: up when the
        moved entry is keyed below its parent, down otherwise. */
    method Repair(idx: int)
      requires Valid() && 0 <= idx <= size
      modifies slots, heapIdx
      ensures Valid() && SameEntries(old(State()), State(), cols)
      ensures old(Repairable(Entries(), idx)) ==> HeapOrdered(Entries())
    {
      if idx < size {
        assert Entries()[idx] == slots[idx] && Entries()[Parent(idx)] == slots[Parent(idx)];
      }
      if 0 < idx < size && Less(slots[idx].entropy, slots[Parent(idx)].entropy) {
        SiftUp(idx);
      } else {
        SiftDown(idx);
      }
    }

    /** The entry `heap_reset` gives cell k: none for a collapsed cell,
        otherwise the cell's coordinates and cached entropy. */
    ghost function Expected(cells: seq<Cell>, k: int): Option<HeapNode>
      requires 0 <= k < |cells| == rows * cols
    {
      if cells[k].collapsed then None else Some(HeapNode(k / cols, k % cols, cells[k].entropy))
    }

    lemma ExpectedAt(cells: seq<Cell>, i: int, j: int)
      requires 0 <= i < rows && 0 <= j < cols && |cells| == rows * cols
      ensures 0 <= i * cols + j < rows * cols
      ensures Expected(cells, i * cols + j) ==
        if cells[i * cols + j].collapsed then None else Some(HeapNode(i, j, cells[i * cols + j].entropy))
    {
      CellIndex(i, j, rows, cols);
    }

    /** One step of `heap_reset`'s loops: insert cell (i, j) unless it is
        collapsed. Cells before it keep their entries. */
    method Admit(cells: seq<Cell>, i: int, j: int, ghost n: int)
      requires Valid() && HeapOrdered(Entries()) && |cells| == rows * cols
      requires 0 <= i < rows && 0 <= j < cols && n == i * cols + j && n < rows * cols && size <= n
      requires forall k :: Holds(k) ==> k < n
      requires forall k :: 0 <= k < n ==> Lookup(k) == Expected(cells, k)
      modifies this, slots, heapIdx
      ensures Valid() && HeapOrdered(Entries()) && size <= n + 1
      ensures forall k :: Holds(k) ==> k < n + 1
      ensures forall k :: 0 <= k < n + 1 ==> Lookup(k) == Expected(cells, k)
    {
      ExpectedAt(cells, i, j);
      var k := i * cols + j;
      if !cells[k].collapsed {
        assert Index(HeapNode(i, j, cells[k].entropy)) == n;
        Insert(HeapNode(i, j, cells[k].entropy));
        assert Lookup(n) == Some(HeapNode(i, j, cells[k].entropy));
        assert forall k :: Holds(k) ==> k == n || old(Holds(k));
      } else {
        assert !Holds(n);
        assert Lookup(n) == None;
      }
      assert Lookup(n) == Expected(cells, n);
      assert forall k :: 0 <= k < n ==> Lookup(k) == old(Lookup(k));
    }

    /** `heap_reset`: empty the heap, then insert every uncollapsed cell in
        row-major order, keyed by its cached entropy. Afterwards the heap
        holds exactly the uncollapsed cells and is ordered. */
    method Reset(cells: seq<Cell>)
      requires Valid() && |cells| == rows * cols
      modifies this, slots, heapIdx
      ensures Valid() && HeapOrdered(Entries())
      ensures forall k :: 0 <= k < rows * cols ==> Lookup(k) == Expected(cells, k)
    {
      size := 0;
      var i := 0;
      ghost var n := 0;
      while i < rows
        invariant 0 <= i <= rows && n == i * cols && Valid() && HeapOrdered(Entries())
        invariant n <= rows * cols && size <= n
        invariant forall k :: Holds(k) ==> k < n
        invariant forall k :: 0 <= k < n ==> Lookup(k) == Expected(cells, k)
      {
        var j := 0;
        MulAtLeast(rows - i, cols);
        assert rows * cols - i * cols == (rows - i) * cols;
        while j < cols
          invariant 0 <= j <= cols && n == i * cols + j && Valid() && HeapOrdered(Entries())
          invariant n <= rows * cols && size <= n
          invariant forall k :: Holds(k) ==> k < n
          invariant forall k :: 0 <= k < n ==> Lookup(k) == Expected(cells, k)
        {
          CellIndex(i, j, rows, cols);
          Admit(cells, i, j, n);
          j := j + 1;
          n := n + 1;
        }
        assert i * cols + cols == (i + 1) * cols;
        i := i + 1;
      }
    }
  }

  /** C's `/` by 2, which truncates toward zero: -1 / 2 is 0. */
  function TruncHalf(x: int): (q: int)
    ensures x >= 0 ==> q == x / 2
    ensures -1 <= x < 0 ==> q == 0
  {
    if x >= 0 then x / 2 else -((-x) / 2)
  }

  /** Every slot of the array, live or stale, names a cell of the grid. */
  predicate SlotsOnGrid(h: Snapshot, cols: int)
  {
    forall i :: 0 <= i < |h.slots| ==> 0 <= CellOf(h.slots[i], cols) < |h.idx|
  }

  /** `sift_down` as written: the loop runs while p <= (heap_size - 2) / 2
      in C's division and compares both children without checking them
      against `heap_size`, so it may read and swap in the stale slot at
      `heap_size`. Reads past the end of the array stop the loop here. */
  function SiftDownAsWritten(h: Snapshot, cols: int, p: int): (r: Snapshot)
    requires 0 <= p && SlotsOnGrid(h, cols)
    ensures r.size == h.size && |r.slots| == |h.slots| && |r.idx| == |h.idx|
    decreases |h.slots| - p
  {
    if p > TruncHalf(h.size - 2) || 2 * p + 2 >= |h.slots| then h
    else
      var c := 2 * p + 1;
      var m := if Less(h.slots[c].entropy, h.slots[c + 1].entropy) then c else c + 1;
      if Less(h.slots[m].entropy, h.slots[p].entropy) then SiftDownAsWritten(Swapped(h, cols, p, m), cols, m)
      else h
  }

  /** `heap_extract` as written: the root's slot is refilled from the last
      live slot, which keeps its stale copy, and then sifted down as written. */
  function ExtractAsWritten(h: Snapshot, cols: int): (r: Snapshot)
    requires 0 < h.size <= |h.slots| && SlotsOnGrid(h, cols)
    ensures r.size == h.size - 1 && |r.slots| == |h.slots| && |r.idx| == |h.idx|
  {
    SiftDownAsWritten(Removed(h, cols, 0), cols, 0)
  }

  /** A first-row entry's cell index is its column. */
  lemma FirstRowCell(n: HeapNode, cols: int)
    requires n.r == 0
    ensures CellOf(n, cols) == n.c
  {
  }

  /** A consistent, ordered heap of three entries whose last entry is keyed
      strictly below the middle one, as the heap keyed 0, 5, 1 is. */
  predicate StaleProne(h: Snapshot, rows: int, cols: int)
  {
    && Consistent(h, rows, cols) && SlotsOnGrid(h, cols) && h.size == 3
    && HeapOrdered(Live(h)) && Less(h.slots[2].entropy, h.slots[1].entropy)
  }

  /** The ordered heap keyed 0, 5, 1 in cells 0, 1, 2 of a one-row grid is
      such a heap, whatever the cells beyond hold in their stale slots. */
  lemma StaleProneExample(h: Snapshot, cols: int)
    requires 3 <= cols && |h.slots| == cols && |h.idx| == cols && h.size == 3
    requires h.slots[0] == HeapNode(0, 0, Finite(0.0)) && h.idx[0] == 0
    requires h.slots[1] == HeapNode(0, 1, Finite(5.0)) && h.idx[1] == 1
    requires h.slots[2] == HeapNode(0, 2, Finite(1.0)) && h.idx[2] == 2
    requires forall i :: 3 <= i < cols ==> h.slots[i] == HeapNode(0, i, Infinite)
    ensures StaleProne(h, 1, cols)
  {
    forall i | 0 <= i < cols
      ensures h.slots[i].r == 0 && h.slots[i].c == i && CellOf(h.slots[i], cols) == i
    {
      FirstRowCell(h.slots[i], cols);
    }
    assert Live(h) == h.slots[..3];
  }

  /** Extracting as written from such a heap returns the root's cell and
      leaves the last entry at the root, with a stale copy of it in slot 2;
      the middle cell keeps its entry. */
  lemma FirstExtract(h: Snapshot, rows: int, cols: int)
    requires StaleProne(h, rows, cols)
    ensures var h1 := ExtractAsWritten(h, cols);
      && SlotsOnGrid(h1, cols) && h1.size == 2 && |h1.slots| == |h.slots| && h1.idx == h.idx[CellOf(h.slots[0], cols) := -1][CellOf(h.slots[2], cols) := 0]
      && Live(h1) == [h.slots[2], h.slots[1]] && h1.slots[2] == h.slots[2]
      && EntryOf(h1, cols, CellOf(h.slots[1], cols)) == Some(h.slots[1])
  {
    var s := h.slots;
    var k0, k1, k2 := CellOf(s[0], cols), CellOf(s[1], cols), CellOf(s[2], cols);
    assert h.idx[k0] == 0 && h.idx[k1] == 1 && h.idx[k2] == 2;
    LessIsStrictTotalOrder(s[2].entropy, s[1].entropy, s[0].entropy);
    var h1 := Removed(h, cols, 0);
    assert h1.slots == s[0 := s[2]];
    assert h1.idx == h.idx[k0 := -1][k2 := 0];
    assert TruncHalf(h1.size - 2) == 0;
    assert !Less(h1.slots[1].entropy, h1.slots[2].entropy);
    assert ExtractAsWritten(h, cols) == h1;
    assert Live(h1) == [s[2], s[1]];
    assert h1.idx[k1] == 1;
  }

  /** Extracting as written from a heap of two entries, the root keyed
      strictly below the other and its stale copy in slot 2, returns the
      root's cell, moves the other entry to the root and then, since
      (1 - 2) / 2 is 0 in C, compares it with the stale slot 2 and swaps
      them: the one live entry is again the cell just returned, and the
      other cell has no entry left. */
  lemma SecondExtract(h: Snapshot, cols: int)
    requires SlotsOnGrid(h, cols) && h.size == 2 && 3 <= |h.slots|
    requires h.slots[2] == h.slots[0] && Less(h.slots[0].entropy, h.slots[1].entropy)
    requires CellOf(h.slots[0], cols) != CellOf(h.slots[1], cols)
    ensures var h2 := ExtractAsWritten(h, cols);
      && Live(h2) == [h.slots[0]]
      && EntryOf(h2, cols, CellOf(h.slots[1], cols)).None?
  {
    var s := h.slots;
    var k0, k1 := CellOf(s[0], cols), CellOf(s[1], cols);
    LessIsStrictTotalOrder(s[1].entropy, s[0].entropy, s[1].entropy);
    var q := Removed(h, cols, 0);
    assert q.slots == s[0 := s[1]];
    assert q.idx == h.idx[k0 := -1][k1 := 0];
    assert TruncHalf(q.size - 2) == 0;
    assert !Less(q.slots[1].entropy, q.slots[2].entropy);
    assert Less(q.slots[2].entropy, q.slots[0].entropy);
    var w := Swapped(q, cols, 0, 2);
    assert w.slots == q.slots[0 := s[0]][2 := s[1]];
    assert w.idx == q.idx[k0 := 0][k1 := 2];
    assert SiftDownAsWritten(w, cols, 2) == w;
    assert ExtractAsWritten(h, cols) == w;
    assert Live(w) == [s[0]];
  }

  /** Two extractions as written from a heap keyed like 0, 5, 1: the heap's
      one live entry is then the cell the second extraction returned, and
      the middle cell, never returned, has lost its entry. */
  lemma ExtractStaleSlot(h: Snapshot, rows: int, cols: int)
    requires StaleProne(h, rows, cols)
    ensures var h1 := ExtractAsWritten(h, cols);
      && SlotsOnGrid(h1, cols) && 0 < h1.size <= |h1.slots|
      && Live(h1) == [h.slots[2], h.slots[1]]
      && EntryOf(h1, cols, CellOf(h.slots[1], cols)) == Some(h.slots[1])
      && var h2 := ExtractAsWritten(h1, cols);
      && Live(h2) == [h.slots[2]]
      && EntryOf(h2, cols, CellOf(h.slots[1], cols)).None?
  {
    FirstExtract(h, rows, cols);
    var h1 := ExtractAsWritten(h, cols);
    assert h1.slots[0] == h.slots[2] && h1.slots[1] == h.slots[1];
    assert h.idx[CellOf(h.slots[1], cols)] == 1 && h.idx[CellOf(h.slots[2], cols)] == 2;
    SecondExtract(h1, cols);
  }

  /** `heap_remove` as written can leave the heap unordered: in the ordered
      heap keyed 0, 10, 1, 11, 12, 2 over a 1 x 6 grid, removing slot 3
      moves the entry keyed 2 under the one keyed 10, and slot 3 has no
      children, so `sift_down` leaves it there. */
  lemma RemoveLeafBreaksOrder()
    ensures var h := Snapshot([HeapNode(0, 0, Finite(0.0)), HeapNode(0, 1, Finite(10.0)), HeapNode(0, 2, Finite(1.0)),
                               HeapNode(0, 3, Finite(11.0)), HeapNode(0, 4, Finite(12.0)), HeapNode(0, 5, Finite(2.0))],
                              [0, 1, 2, 3, 4, 5], 6);
      && Consistent(h, 1, 6) && HeapOrdered(Live(h)) && 2 * 3 + 1 >= h.size - 1
      && !HeapOrdered(Live(Removed(h, 6, 3)))
  {
    var h := Snapshot([HeapNode(0, 0, Finite(0.0)), HeapNode(0, 1, Finite(10.0)), HeapNode(0, 2, Finite(1.0)),
                       HeapNode(0, 3, Finite(11.0)), HeapNode(0, 4, Finite(12.0)), HeapNode(0, 5, Finite(2.0))],
                      [0, 1, 2, 3, 4, 5], 6);
    assert Live(h) == h.slots;
    forall i | 0 <= i < 6
      ensures h.slots[i] == HeapNode(0, i, h.slots[i].entropy) && h.idx[i] == i
    {
      assert i == 0 || i == 1 || i == 2 || i == 3 || i == 4 || i == 5;
    }
    forall i | 0 < i < 6
      ensures !Less(h.slots[i].entropy, h.slots[Parent(i)].entropy)
    {
      assert i == 1 || i == 2 || i == 3 || i == 4 || i == 5;
    }
    var t := Live(Removed(h, 6, 3));
    assert t[3].entropy == Finite(2.0) && t[Parent(3)].entropy == Finite(10.0);
  }
}
