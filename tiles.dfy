/** The tile library: pixel-edge matching between tile images, the
    per-direction adjacency tables built from it, and the variants that one
    schema line produces. */
module Tiles {

  /** One RGB pixel; comparing three bytes with memcmp is pixel equality. */
  datatype Pixel = Pixel(r: bv8, g: bv8, b: bv8)

  /** An image as rows of pixels, top row first. */
  type Image = seq<seq<Pixel>>

  /** Directions, in the order of `enum Direction`. */
  const UP: int := 0
  const RIGHT: int := 1
  const DOWN: int := 2
  const LEFT: int := 3

  /** Capacity of the global tile table and of every adjacency list. */
  const MAX_TILES: int := 128

  predicate IsDirection(d: int) { 0 <= d < 4 }

  /** The direction pointing back, `(d + 2) % 4` in the source. */
  function Opposite(d: int): (o: int)
    requires IsDirection(d)
    ensures IsDirection(o) && o != d && (o + 2) % 4 == d
  {
    (d + 2) % 4
  }

  /** The match flag of a direction: UP_MATCH = 1, RIGHT_MATCH = 2,
      DOWN_MATCH = 4, LEFT_MATCH = 8. */
  function Bit(d: int): (b: bv32)
    requires IsDirection(d)
  {
    if d == UP then 1 else if d == RIGHT then 2 else if d == DOWN then 4 else 8
  }

  predicate HasBit(mask: bv32, d: int)
    requires IsDirection(d)
  {
    mask & Bit(d) != 0
  }

  /** A non-empty rectangular image. */
  predicate WellFormed(img: Image)
  {
    |img| > 0 && |img[0]| > 0 && forall i :: 0 <= i < |img| ==> |img[i]| == |img[0]|
  }

  predicate SameSize(a: Image, b: Image)
  {
    WellFormed(a) && WellFormed(b) && |a| == |b| && |a[0]| == |b[0]|
  }

  /** a's top row equals b's bottom row. */
  predicate UpMatch(a: Image, b: Image)
    requires SameSize(a, b)
  {
    a[0] == b[|b| - 1]
  }

  /** a's bottom row equals b's top row. */
  predicate DownMatch(a: Image, b: Image)
    requires SameSize(a, b)
  {
    a[|a| - 1] == b[0]
  }

  /** In the first `rows` rows, a's rightmost pixel equals b's leftmost one. */
  predicate RightMatchRows(a: Image, b: Image, rows: int)
    requires SameSize(a, b) && rows <= |a|
  {
    forall i :: 0 <= i < rows ==> a[i][|a[0]| - 1] == b[i][0]
  }

  /** In the first `rows` rows, a's leftmost pixel equals b's rightmost one. */
  predicate LeftMatchRows(a: Image, b: Image, rows: int)
    requires SameSize(a, b) && rows <= |a|
  {
    forall i :: 0 <= i < rows ==> a[i][0] == b[i][|a[0]| - 1]
  }

  predicate RightMatch(a: Image, b: Image)
    requires SameSize(a, b)
  {
    RightMatchRows(a, b, |a|)
  }

  predicate LeftMatch(a: Image, b: Image)
    requires SameSize(a, b)
  {
    LeftMatchRows(a, b, |a|)
  }

  /** Image b may sit next to image a on a's side `d`. */
  predicate EdgeMatch(a: Image, b: Image, d: int)
    requires SameSize(a, b) && IsDirection(d)
  {
    if d == UP then UpMatch(a, b)
    else if d == RIGHT then RightMatch(a, b)
    else if d == DOWN then DownMatch(a, b)
    else LeftMatch(a, b)
  }

  /** Matching is symmetric under swapping the images and reversing the direction. */
  lemma EdgeMatchSymmetric(a: Image, b: Image, d: int)
    requires SameSize(a, b) && IsDirection(d)
    ensures SameSize(b, a)
    ensures EdgeMatch(a, b, d) <==> EdgeMatch(b, a, Opposite(d))
  {
  }

  /** The four flags packed into a mask whose other bits are all set, as
      `~0` with the failing flags cleared. */
  function Mask(up: bool, right: bool, down: bool, left: bool): (m: bv32)
    ensures (m & 1 != 0) == up && (m & 2 != 0) == right
    ensures (m & 4 != 0) == down && (m & 8 != 0) == left
    ensures m | 15 == !0
  {
    !((if up then 0 else 1) | (if right then 0 else 2) | (if down then 0 else 4) | (if left then 0 else 8))
  }

  /** The mask that `tile_matches` returns for images a and b. */
  function MatchMask(a: Image, b: Image): (m: bv32)
    requires SameSize(a, b)
    ensures forall d :: IsDirection(d) ==> (HasBit(m, d) <==> EdgeMatch(a, b, d))
  {
    Mask(UpMatch(a, b), RightMatch(a, b), DownMatch(a, b), LeftMatch(a, b))
  }

  /** `tile_matches`: clear UP_MATCH and DOWN_MATCH on a row mismatch, then
      walk the rows clearing RIGHT_MATCH and LEFT_MATCH, stopping as soon as
      both are clear. */
  method TileMatches(a: Image, b: Image) returns (result: bv32)
    requires SameSize(a, b)
    ensures result == MatchMask(a, b)
  {
    result := !0;
    var w := |a[0]|;
    var h := |a|;
    if a[0] != b[h - 1] {
      result := result & !1;
    }
    if a[h - 1] != b[0] {
      result := result & !4;
    }
    var i := 0;
    while i < h
      invariant 0 <= i <= h
      invariant result == Mask(UpMatch(a, b), RightMatchRows(a, b, i), DownMatch(a, b), LeftMatchRows(a, b, i))
    {
      if a[i][w - 1] != b[i][0] {
        result := result & !2;
      }
      if a[i][0] != b[i][w - 1] {
        result := result & !8;
      }
      if !(result & 2 != 0 || result & 8 != 0) {
        assert !RightMatchRows(a, b, i + 1) && !LeftMatchRows(a, b, i + 1);
        assert !RightMatch(a, b) && !LeftMatch(a, b);
        return;
      }
      i := i + 1;
    }
  }

  /** The UP flag of (a, b) is the DOWN flag of (b, a), and RIGHT of (a, b)
      is LEFT of (b, a). */
  lemma MatchMaskSymmetric(a: Image, b: Image)
    requires SameSize(a, b)
    ensures SameSize(b, a)
    ensures HasBit(MatchMask(a, b), UP) <==> HasBit(MatchMask(b, a), DOWN)
    ensures HasBit(MatchMask(a, b), DOWN) <==> HasBit(MatchMask(b, a), UP)
    ensures HasBit(MatchMask(a, b), RIGHT) <==> HasBit(MatchMask(b, a), LEFT)
    ensures HasBit(MatchMask(a, b), LEFT) <==> HasBit(MatchMask(b, a), RIGHT)
  {
    EdgeMatchSymmetric(a, b, UP);
    EdgeMatchSymmetric(a, b, RIGHT);
  }

  /** A tile: its image, its weight (`frequency`), its id and, per direction,
      the ids of the tiles allowed next to it on that side. */
  datatype Tile = Tile(img: Image, weight: real, id: int, options: seq<seq<int>>)

  /** All images well-formed and of one size. */
  predicate UniformImages(imgs: seq<Image>)
  {
    forall i :: 0 <= i < |imgs| ==> SameSize(imgs[i], imgs[0])
  }

  function Images(tiles: seq<Tile>): (imgs: seq<Image>)
    ensures |imgs| == |tiles|
    ensures forall i :: 0 <= i < |tiles| ==> imgs[i] == tiles[i].img
  {
    seq(|tiles|, i requires 0 <= i < |tiles| => tiles[i].img)
  }

  /** Tiles as the schema loop leaves them: ids from the creation counter in
      table order, positive weights, empty adjacency lists, one image size. */
  predicate FreshCatalog(tiles: seq<Tile>)
  {
    && |tiles| <= MAX_TILES
    && UniformImages(Images(tiles))
    && forall i :: 0 <= i < |tiles| ==>
         tiles[i].id == i && tiles[i].weight > 0.0 && tiles[i].options == [[], [], [], []]
  }

  /** Tiles that the solver can use: ids equal to table positions, positive
      weights, four adjacency lists holding ids of the table. */
  predicate Library(lib: seq<Tile>)
  {
    && |lib| <= MAX_TILES
    && forall i :: 0 <= i < |lib| ==>
         && lib[i].id == i && lib[i].weight > 0.0 && |lib[i].options| == 4
         && forall d, k :: 0 <= d < 4 && 0 <= k < |lib[i].options[d]| ==> 0 <= lib[i].options[d][k] < |lib|
  }

  predicate StrictlyIncreasing(s: seq<int>)
  {
    forall i, j :: 0 <= i < j < |s| ==> s[i] < s[j]
  }

  /** The ids i < k whose pair (i, x) records i in x's list for `d`:
      those whose side Opposite(d) matches x. */
  function Incoming(imgs: seq<Image>, x: int, d: int, k: int): seq<int>
    requires UniformImages(imgs) && 0 <= x < |imgs| && 0 <= k <= |imgs| && IsDirection(d)
    decreases k
  {
    if k == 0 then []
    else Incoming(imgs, x, d, k - 1) + (if EdgeMatch(imgs[k - 1], imgs[x], Opposite(d)) then [k - 1] else [])
  }

  /** The ids j in [lo, hi) that x's side `d` matches. */
  function Outgoing(imgs: seq<Image>, x: int, d: int, lo: int, hi: int): seq<int>
    requires UniformImages(imgs) && 0 <= x < |imgs| && 0 <= lo <= hi <= |imgs| && IsDirection(d)
    decreases hi - lo
  {
    if hi == lo then []
    else Outgoing(imgs, x, d, lo, hi - 1) + (if EdgeMatch(imgs[x], imgs[hi - 1], d) then [hi - 1] else [])
  }

  /** Tile x's list for direction d once the pair loop is done: first the
      smaller ids from pairs (i, x), then the ids from pairs (x, j), j >= x;
      the last tile is never paired with itself. */
  function AdjList(imgs: seq<Image>, x: int, d: int): seq<int>
    requires UniformImages(imgs) && 0 <= x < |imgs| && IsDirection(d)
  {
    Incoming(imgs, x, d, x) + (if x < |imgs| - 1 then Outgoing(imgs, x, d, x, |imgs|) else [])
  }

  function AdjTable(imgs: seq<Image>, x: int): (t: seq<seq<int>>)
    requires UniformImages(imgs) && 0 <= x < |imgs|
    ensures |t| == 4 && forall d :: 0 <= d < 4 ==> t[d] == AdjList(imgs, x, d)
  {
    [AdjList(imgs, x, 0), AdjList(imgs, x, 1), AdjList(imgs, x, 2), AdjList(imgs, x, 3)]
  }

  /** Appending a value above every element keeps a sequence increasing. */
  lemma AppendIncreasing(s: seq<int>, v: int)
    requires StrictlyIncreasing(s) && forall e :: e in s ==> e < v
    ensures StrictlyIncreasing(s + [v])
  {
    var t := s + [v];
    forall i, j | 0 <= i < j < |t|
      ensures t[i] < t[j]
    {
      if j == |s| {
        assert t[i] == s[i] && s[i] in s;
      } else {
        assert t[i] == s[i] && t[j] == s[j];
      }
    }
  }

  lemma {:induction false} IncomingSorted(imgs: seq<Image>, x: int, d: int, k: int)
    requires UniformImages(imgs) && 0 <= x < |imgs| && 0 <= k <= |imgs| && IsDirection(d)
    ensures StrictlyIncreasing(Incoming(imgs, x, d, k)) && forall t :: t in Incoming(imgs, x, d, k) ==> t < k
    decreases k
  {
    if k > 0 {
      var s := Incoming(imgs, x, d, k - 1);
      IncomingSorted(imgs, x, d, k - 1);
      if EdgeMatch(imgs[k - 1], imgs[x], Opposite(d)) {
        assert Incoming(imgs, x, d, k) == s + [k - 1];
        AppendIncreasing(s, k - 1);
      } else {
        assert Incoming(imgs, x, d, k) == s + [];
      }
    }
  }

  lemma {:induction false} IncomingHas(imgs: seq<Image>, x: int, d: int, k: int, t: int)
    requires UniformImages(imgs) && 0 <= x < |imgs| && 0 <= k <= |imgs| && IsDirection(d)
    ensures t in Incoming(imgs, x, d, k) <==> 0 <= t < k && EdgeMatch(imgs[t], imgs[x], Opposite(d))
    decreases k
  {
    if k > 0 {
      IncomingHas(imgs, x, d, k - 1, t);
      var s := Incoming(imgs, x, d, k - 1);
      if EdgeMatch(imgs[k - 1], imgs[x], Opposite(d)) {
        assert Incoming(imgs, x, d, k) == s + [k - 1];
        assert t in s + [k - 1] <==> t in s || t == k - 1;
      } else {
        assert Incoming(imgs, x, d, k) == s;
      }
    }
  }

  lemma IncomingMembers(imgs: seq<Image>, x: int, d: int, k: int)
    requires UniformImages(imgs) && 0 <= x < |imgs| && 0 <= k <= |imgs| && IsDirection(d)
    ensures StrictlyIncreasing(Incoming(imgs, x, d, k))
    ensures forall t :: t in Incoming(imgs, x, d, k) <==> 0 <= t < k && EdgeMatch(imgs[t], imgs[x], Opposite(d))
  {
    IncomingSorted(imgs, x, d, k);
    forall t
      ensures t in Incoming(imgs, x, d, k) <==> 0 <= t < k && EdgeMatch(imgs[t], imgs[x], Opposite(d))
    {
      IncomingHas(imgs, x, d, k, t);
    }
  }

  lemma {:induction false} OutgoingMembers(imgs: seq<Image>, x: int, d: int, lo: int, hi: int)
    requires UniformImages(imgs) && 0 <= x < |imgs| && 0 <= lo <= hi <= |imgs| && IsDirection(d)
    ensures StrictlyIncreasing(Outgoing(imgs, x, d, lo, hi))
    ensures forall t :: t in Outgoing(imgs, x, d, lo, hi) <==> lo <= t < hi && EdgeMatch(imgs[x], imgs[t], d)
    decreases hi - lo
  {
    if hi > lo {
      var s := Outgoing(imgs, x, d, lo, hi - 1);
      OutgoingMembers(imgs, x, d, lo, hi - 1);
      if EdgeMatch(imgs[x], imgs[hi - 1], d) {
        assert Outgoing(imgs, x, d, lo, hi) == s + [hi - 1];
        AppendIncreasing(s, hi - 1);
      } else {
        assert Outgoing(imgs, x, d, lo, hi) == s + [];
      }
    }
  }

  /** What tile x's list for direction d holds: every other tile whose
      opposite edge matches x's edge `d`, and x itself exactly when x matches
      itself and is not the last tile; in ascending order, so without duplicates. */
  lemma AdjListMembers(imgs: seq<Image>, x: int, d: int)
    requires UniformImages(imgs) && 0 <= x < |imgs| && IsDirection(d)
    ensures StrictlyIncreasing(AdjList(imgs, x, d))
    ensures forall t :: 0 <= t < |imgs| && t != x ==> (t in AdjList(imgs, x, d) <==> EdgeMatch(imgs[x], imgs[t], d))
    ensures x in AdjList(imgs, x, d) <==> x < |imgs| - 1 && EdgeMatch(imgs[x], imgs[x], d)
    ensures forall t :: t in AdjList(imgs, x, d) ==> 0 <= t < |imgs|
  {
    var n := |imgs|;
    var a := Incoming(imgs, x, d, x);
    var b := if x < n - 1 then Outgoing(imgs, x, d, x, n) else [];
    IncomingMembers(imgs, x, d, x);
    if x < n - 1 {
      OutgoingMembers(imgs, x, d, x, n);
    }
    JoinIncreasing(a, b, x);
    forall t | 0 <= t < x
      ensures EdgeMatch(imgs[t], imgs[x], Opposite(d)) <==> EdgeMatch(imgs[x], imgs[t], d)
    {
      EdgeMatchSymmetric(imgs[x], imgs[t], d);
    }
  }

  /** Two increasing sequences split by m join into an increasing one. */
  lemma JoinIncreasing(a: seq<int>, b: seq<int>, m: int)
    requires StrictlyIncreasing(a) && StrictlyIncreasing(b)
    requires forall e :: e in a ==> e < m
    requires forall e :: e in b ==> m <= e
    ensures StrictlyIncreasing(a + b)
  {
    assert forall i :: 0 <= i < |a| ==> a[i] in a;
    assert forall i :: 0 <= i < |b| ==> b[i] in b;
  }

  /** The tables are symmetric: for distinct tiles x and y, y is in x's list
      for d exactly when x is in y's list for the opposite direction. */
  lemma AdjListSymmetric(imgs: seq<Image>, x: int, y: int, d: int)
    requires UniformImages(imgs) && 0 <= x < |imgs| && 0 <= y < |imgs| && x != y && IsDirection(d)
    ensures y in AdjList(imgs, x, d) <==> x in AdjList(imgs, y, Opposite(d))
  {
    AdjListMembers(imgs, x, d);
    AdjListMembers(imgs, y, Opposite(d));
    EdgeMatchSymmetric(imgs[x], imgs[y], d);
  }

  /** x's list for direction d after the pairs before (i, j) are done. */
  function Partial(imgs: seq<Image>, x: int, d: int, i: int, j: int): seq<int>
    requires UniformImages(imgs) && 0 <= x < |imgs| && IsDirection(d) && 0 <= i <= j <= |imgs|
  {
    if x < i then Incoming(imgs, x, d, x) + Outgoing(imgs, x, d, x, |imgs|)
    else if x == i then Incoming(imgs, x, d, x) + Outgoing(imgs, x, d, x, j)
    else Incoming(imgs, x, d, if x < j then i + 1 else i)
  }

  /** Per tile, the four adjacency lists. */
  type Tables = seq<seq<seq<int>>>

  predicate Shaped(adj: Tables, n: int)
  {
    |adj| == n && forall x :: 0 <= x < n ==> |adj[x]| == 4
  }

  /** Appends tile id t to x's list for direction d. */
  function Record(adj: Tables, x: int, d: int, t: int): (r: Tables)
    requires Shaped(adj, |adj|) && 0 <= x < |adj| && IsDirection(d)
    ensures Shaped(r, |adj|)
    ensures forall y, e :: 0 <= y < |adj| && 0 <= e < 4 ==>
      r[y][e] == if y == x && e == d then adj[y][e] + [t] else adj[y][e]
  {
    adj[x := adj[x][d := adj[x][d] + [t]]]
  }

  /** What pair (i, j) with mask m appends to y's list for direction e. */
  function PairAdds(y: int, e: int, i: int, j: int, m: bv32): seq<int>
    requires IsDirection(e)
  {
    if y == i && HasBit(m, e) then [j]
    else if y == j && y != i && HasBit(m, Opposite(e)) then [i]
    else []
  }

  /** One flag of pair (i, j): i's list for d gets j and, for i != j, j's
      opposite list gets i. */
  function RecordFlag(adj: Tables, i: int, j: int, m: bv32, d: int): (r: Tables)
    requires Shaped(adj, |adj|) && 0 <= i <= j < |adj| && IsDirection(d)
    ensures Shaped(r, |adj|)
    ensures forall y, e :: 0 <= y < |adj| && 0 <= e < 4 ==>
      r[y][e] == Flag(adj[y][e], y, e, i, j, m, d)
  {
    if HasBit(m, d) then
      var a := Record(adj, i, d, j);
      if i != j then Record(a, j, Opposite(d), i) else a
    else adj
  }

  /** What flag d of pair (i, j) does to y's list for direction e. */
  function Flag(s: seq<int>, y: int, e: int, i: int, j: int, m: bv32, d: int): seq<int>
    requires IsDirection(d)
  {
    if y == i && e == d && HasBit(m, d) then s + [j]
    else if y == j && y != i && e == Opposite(d) && HasBit(m, d) then s + [i]
    else s
  }

  /** The four flag steps of one pair add up to PairAdds. */
  lemma PairFlags(s0: seq<int>, y: int, e: int, i: int, j: int, m: bv32)
    requires IsDirection(e)
    ensures Flag(Flag(Flag(Flag(s0, y, e, i, j, m, UP), y, e, i, j, m, RIGHT), y, e, i, j, m, DOWN), y, e, i, j, m, LEFT)
            == s0 + PairAdds(y, e, i, j, m)
  {
    assert Opposite(UP) == DOWN && Opposite(DOWN) == UP && Opposite(RIGHT) == LEFT && Opposite(LEFT) == RIGHT;
    if y != i && y != j {
      assert s0 + [] == s0;
    } else if e == UP {
    } else if e == RIGHT {
    } else if e == DOWN {
    } else {
    }
  }

  /** The effect of pair (i, j) on x's list for direction d. */
  function PairEntry(imgs: seq<Image>, x: int, d: int, i: int, j: int): seq<int>
    requires UniformImages(imgs) && 0 <= x < |imgs| && IsDirection(d) && 0 <= i <= j < |imgs|
  {
    if x == i then (if EdgeMatch(imgs[i], imgs[j], d) then [j] else [])
    else if x == j then (if EdgeMatch(imgs[i], imgs[j], Opposite(d)) then [i] else [])
    else []
  }

  lemma PartialStep(imgs: seq<Image>, x: int, d: int, i: int, j: int)
    requires UniformImages(imgs) && 0 <= x < |imgs| && IsDirection(d) && 0 <= i <= j < |imgs|
    ensures Partial(imgs, x, d, i, j + 1) == Partial(imgs, x, d, i, j) + PairEntry(imgs, x, d, i, j)
  {
  }

  lemma PartialRowDone(imgs: seq<Image>, x: int, d: int, i: int)
    requires UniformImages(imgs) && 0 <= x < |imgs| && IsDirection(d) && 0 <= i < |imgs|
    ensures Partial(imgs, x, d, i, |imgs|) == Partial(imgs, x, d, i + 1, i + 1)
  {
  }

  /** With the pair's match mask, what the pair appends is the pair's
      entry in the adjacency lists. */
  lemma PairAddsEntry(imgs: seq<Image>, x: int, d: int, i: int, j: int, m: bv32)
    requires UniformImages(imgs) && 0 <= x < |imgs| && IsDirection(d) && 0 <= i <= j < |imgs|
    requires m == MatchMask(imgs[i], imgs[j])
    ensures PairAdds(x, d, i, j, m) == PairEntry(imgs, x, d, i, j)
  {
    assert HasBit(m, d) <==> EdgeMatch(imgs[i], imgs[j], d);
    assert HasBit(m, Opposite(d)) <==> EdgeMatch(imgs[i], imgs[j], Opposite(d));
  }

  /** Recording the four flags of pair (i, j) takes every list from the
      state before the pair to the state after it. */
  lemma PairRecorded(imgs: seq<Image>, a0: Tables, i: int, j: int, m: bv32, adj: Tables)
    requires UniformImages(imgs) && Shaped(a0, |imgs|) && 0 <= i <= j < |imgs|
    requires m == MatchMask(imgs[i], imgs[j])
    requires forall x, d :: 0 <= x < |imgs| && 0 <= d < 4 ==> a0[x][d] == Partial(imgs, x, d, i, j)
    requires adj == RecordFlag(RecordFlag(RecordFlag(RecordFlag(a0, i, j, m, UP), i, j, m, RIGHT), i, j, m, DOWN), i, j, m, LEFT)
    ensures Shaped(adj, |imgs|)
    ensures forall x, d :: 0 <= x < |imgs| && 0 <= d < 4 ==> adj[x][d] == Partial(imgs, x, d, i, j + 1)
  {
    forall x, d | 0 <= x < |imgs| && 0 <= d < 4
      ensures adj[x][d] == Partial(imgs, x, d, i, j + 1)
    {
      PartialStep(imgs, x, d, i, j);
      PairFlags(a0[x][d], x, d, i, j, m);
      PairAddsEntry(imgs, x, d, i, j, m);
    }
  }

  /** One pair (i, j) of the adjacency loop: match the two tiles and record
      each set flag. */
  method MatchPair(imgs: seq<Image>, a0: Tables, i: int, j: int) returns (adj: Tables)
    requires UniformImages(imgs) && Shaped(a0, |imgs|) && 0 <= i <= j < |imgs|
    requires forall x, d :: 0 <= x < |imgs| && 0 <= d < 4 ==> a0[x][d] == Partial(imgs, x, d, i, j)
    ensures Shaped(adj, |imgs|)
    ensures forall x, d :: 0 <= x < |imgs| && 0 <= d < 4 ==> adj[x][d] == Partial(imgs, x, d, i, j + 1)
  {
    var m := TileMatches(imgs[i], imgs[j]);
    adj := RecordFlag(a0, i, j, m, UP);
    adj := RecordFlag(adj, i, j, m, RIGHT);
    adj := RecordFlag(adj, i, j, m, DOWN);
    adj := RecordFlag(adj, i, j, m, LEFT);
    PairRecorded(imgs, a0, i, j, m, adj);
  }

  /** The inner loop of the adjacency loop for tile i: pairs (i, j) for
      j = i .. num_tiles - 1. */
  method MatchRow(imgs: seq<Image>, adj0: Tables, i: int) returns (adj: Tables)
    requires UniformImages(imgs) && Shaped(adj0, |imgs|) && 0 <= i < |imgs|
    requires forall x, d :: 0 <= x < |imgs| && 0 <= d < 4 ==> adj0[x][d] == Partial(imgs, x, d, i, i)
    ensures Shaped(adj, |imgs|)
    ensures forall x, d :: 0 <= x < |imgs| && 0 <= d < 4 ==> adj[x][d] == Partial(imgs, x, d, i + 1, i + 1)
  {
    var n := |imgs|;
    adj := adj0;
    var j := i;
    while j < n
      invariant i <= j <= n
      invariant Shaped(adj, n)
      invariant forall x, d :: 0 <= x < n && 0 <= d < 4 ==> adj[x][d] == Partial(imgs, x, d, i, j)
    {
      adj := MatchPair(imgs, adj, i, j);
      j := j + 1;
    }
    forall x, d | 0 <= x < n && 0 <= d < 4
      ensures adj[x][d] == Partial(imgs, x, d, i + 1, i + 1)
    {
      PartialRowDone(imgs, x, d, i);
    }
  }

  /** The adjacency loop of `wfc_init`: every pair (i, j) with
      i < num_tiles - 1 and i <= j is matched once, and each set flag is
      recorded in i's list and, for i != j, in j's opposite list. */
  method BuildAdjacency(tiles: seq<Tile>) returns (lib: seq<Tile>)
    requires FreshCatalog(tiles)
    ensures |lib| == |tiles|
    ensures forall x :: 0 <= x < |lib| ==> lib[x] == tiles[x].(options := AdjTable(Images(tiles), x))
  {
    var imgs := Images(tiles);
    var n := |tiles|;
    var adj: Tables := seq(n, x => [[], [], [], []]);
    var i := 0;
    while i < n - 1
      invariant 0 <= i <= if n > 0 then n - 1 else 0
      invariant Shaped(adj, n)
      invariant forall x, d :: 0 <= x < n && 0 <= d < 4 ==> adj[x][d] == Partial(imgs, x, d, i, i)
    {
      adj := MatchRow(imgs, adj, i);
      i := i + 1;
    }
    lib := seq(n, x requires 0 <= x < n => tiles[x].(options := adj[x]));
    forall x | 0 <= x < n
      ensures adj[x] == AdjTable(imgs, x)
    {
      assert forall d :: 0 <= d < 4 ==> adj[x][d] == AdjList(imgs, x, d);
    }
  }

  /** The built tables form a library the solver can use. */
  lemma BuiltLibrary(tiles: seq<Tile>, lib: seq<Tile>)
    requires FreshCatalog(tiles) && |lib| == |tiles|
    requires forall x :: 0 <= x < |lib| ==> lib[x] == tiles[x].(options := AdjTable(Images(tiles), x))
    ensures Library(lib)
  {
    var imgs := Images(tiles);
    forall x, d, k | 0 <= x < |lib| && 0 <= d < 4 && 0 <= k < |lib[x].options[d]|
      ensures 0 <= lib[x].options[d][k] < |lib|
    {
      AdjListMembers(imgs, x, d);
      var s := AdjList(imgs, x, d);
      assert lib[x].options[d] == s;
      assert s[k] in s;
    }
  }

  /** The image operation that makes a mirrored variant. */
  datatype Flip = NoFlip | FlipHorizontal | FlipVertical

  /** A variant of a schema line's base image: an optional mirror, then
      `turns` clockwise quarter turns (`tile_rotate270` turns counter-clockwise
      once, which gives the same image as three clockwise turns). */
  datatype Variant = Variant(flip: Flip, turns: int)

  /** One parsed schema line: the weight and the five variant flags. */
  datatype SchemaLine = SchemaLine(weight: real, r90: bool, r180: bool, r270: bool, mh: bool, mv: bool)

  function Count(b: bool): int { if b then 1 else 0 }

  /** The unrotated tiles of a line, in creation order: base, mh, mv;
      `mvFlip` is the operation the mv variant is made with. */
  function Flips(line: SchemaLine, mvFlip: Flip): (fs: seq<Flip>)
    ensures |fs| == 1 + Count(line.mh) + Count(line.mv)
  {
    [NoFlip] + (if line.mh then [FlipHorizontal] else []) + (if line.mv then [mvFlip] else [])
  }

  /** The rotations of a line, in creation order: none, r90, r180, r270. */
  function Turns(line: SchemaLine): (ts: seq<int>)
    ensures |ts| == 1 + Count(line.r90) + Count(line.r180) + Count(line.r270)
  {
    [0] + (if line.r90 then [1] else []) + (if line.r180 then [2] else []) + (if line.r270 then [3] else [])
  }

  function Rotated(fs: seq<Flip>, t: int): (vs: seq<Variant>)
    ensures |vs| == |fs| && forall k :: 0 <= k < |fs| ==> vs[k] == Variant(fs[k], t)
  {
    seq(|fs|, k requires 0 <= k < |fs| => Variant(fs[k], t))
  }

  /** For each rotation in turn, every unrotated tile rotated by it. */
  function Combine(fs: seq<Flip>, ts: seq<int>): seq<Variant>
  {
    if ts == [] then [] else Rotated(fs, ts[0]) + Combine(fs, ts[1..])
  }

  /** The variants one schema line appends to the tile table, in order. */
  function LineVariants(line: SchemaLine, mvFlip: Flip): seq<Variant>
  {
    Combine(Flips(line, mvFlip), Turns(line))
  }

  /** The variants as the schema loop makes them: the mv tile comes from
      `tile_mirror_horz`. */
  function LineVariantsAsWritten(line: SchemaLine): seq<Variant>
  {
    LineVariants(line, FlipHorizontal)
  }

  /** The variants with the mv tile made by `tile_mirror_vert`. */
  function LineVariantsCorrected(line: SchemaLine): seq<Variant>
  {
    LineVariants(line, FlipVertical)
  }

  predicate Distinct<T(==)>(s: seq<T>)
  {
    forall i, j :: 0 <= i < j < |s| ==> s[i] != s[j]
  }

  /** Combine holds |fs| * |ts| variants: exactly the pairs of a mirror
      of fs and a rotation of ts. */
  lemma {:induction false} CombineMembers(fs: seq<Flip>, ts: seq<int>)
    ensures |Combine(fs, ts)| == |fs| * |ts|
    ensures forall v :: v in Combine(fs, ts) <==> v.flip in fs && v.turns in ts
    decreases |ts|
  {
    if ts != [] {
      CombineMembers(fs, ts[1..]);
      assert ts == [ts[0]] + ts[1..];
      assert |fs| * |ts| == |fs| + |fs| * |ts[1..]|;
      var r := Rotated(fs, ts[0]);
      assert forall k :: 0 <= k < |fs| ==> r[k] in r;
    }
  }

  /** Each line adds (1 + mh + mv) * (1 + r90 + r180 + r270) tiles. */
  lemma VariantCount(line: SchemaLine, mvFlip: Flip)
    ensures |LineVariants(line, mvFlip)| == (1 + Count(line.mh) + Count(line.mv)) * (1 + Count(line.r90) + Count(line.r180) + Count(line.r270))
  {
    CombineMembers(Flips(line, mvFlip), Turns(line));
  }

  /** Distinct mirrors and distinct rotations give distinct variants. */
  lemma {:induction false} CombineDistinct(fs: seq<Flip>, ts: seq<int>)
    requires Distinct(fs) && Distinct(ts)
    ensures Distinct(Combine(fs, ts))
    decreases |ts|
  {
    if ts != [] {
      var rest := ts[1..];
      assert Distinct(rest);
      CombineDistinct(fs, rest);
      CombineMembers(fs, rest);
      var r := Rotated(fs, ts[0]);
      var c := Combine(fs, rest);
      assert Combine(fs, ts) == r + c;
      assert ts[0] !in rest;
      forall i, j | 0 <= i < |r| && 0 <= j < |c|
        ensures r[i] != c[j]
      {
        assert c[j] in c;
      }
    }
  }

  /** With the mv tile made by vertical mirroring, no two tiles of a line
      are made by the same operations. */
  lemma CorrectedVariantsDistinct(line: SchemaLine)
    ensures Distinct(LineVariantsCorrected(line))
  {
    CombineDistinct(Flips(line, FlipVertical), Turns(line));
  }

  /** As written, a line with both mh and mv set makes its mv tile, and each
      rotation of it, by the same operations as the mh tile: the second and
      third tiles of the line are the same image. */
  lemma AsWrittenVariantsDuplicate(line: SchemaLine)
    requires line.mh && line.mv
    ensures |LineVariantsAsWritten(line)| >= 3
    ensures LineVariantsAsWritten(line)[1] == LineVariantsAsWritten(line)[2]
    ensures !Distinct(LineVariantsAsWritten(line))
  {
    var fs := Flips(line, FlipHorizontal);
    assert fs == [NoFlip, FlipHorizontal, FlipHorizontal];
    assert LineVariantsAsWritten(line) == Rotated(fs, 0) + Combine(fs, Turns(line)[1..]);
  }

  /** The tiles one line appends: ids from the creation counter, starting
      at `start`; `render` gives the image for line `li` and a variant, and
      `mvFlip` is the operation the mv tile is made with (`FlipHorizontal`
      as written, `FlipVertical` as intended). */
  function LineTiles(start: int, li: int, line: SchemaLine, mvFlip: Flip, render: (int, Variant) -> Image): (ts: seq<Tile>)
    ensures |ts| == (1 + Count(line.mh) + Count(line.mv)) * (1 + Count(line.r90) + Count(line.r180) + Count(line.r270))
    ensures forall k :: 0 <= k < |ts| ==> ts[k].weight == line.weight && ts[k].id == start + k
  {
    VariantCount(line, mvFlip);
    var vs := LineVariants(line, mvFlip);
    seq(|vs|, k requires 0 <= k < |vs| => Tile(render(li, vs[k]), line.weight, start + k, [[], [], [], []]))
  }

  /** The tile table after the schema loop over `lines`: every line adds at
      least its base tile. */
  function Catalog(lines: seq<SchemaLine>, mvFlip: Flip, render: (int, Variant) -> Image): (ts: seq<Tile>)
    ensures |lines| <= |ts|
  {
    if lines == [] then []
    else
      var prev := Catalog(lines[..|lines| - 1], mvFlip, render);
      prev + LineTiles(|prev|, |lines| - 1, lines[|lines| - 1], mvFlip, render)
  }

  /** Every tile's id is its position in the table (the creation counter and
      `num_tiles` advance together), with its line's weight and no adjacency
      yet; so with positive weights, one image size and at most MAX_TILES
      tiles the table is ready for the adjacency loop. */
  lemma {:induction false} CatalogIds(lines: seq<SchemaLine>, mvFlip: Flip, render: (int, Variant) -> Image)
    ensures forall i :: 0 <= i < |Catalog(lines, mvFlip, render)| ==>
      Catalog(lines, mvFlip, render)[i].id == i && Catalog(lines, mvFlip, render)[i].options == [[], [], [], []]
    ensures (forall l :: 0 <= l < |lines| ==> lines[l].weight > 0.0) ==>
      forall i :: 0 <= i < |Catalog(lines, mvFlip, render)| ==> Catalog(lines, mvFlip, render)[i].weight > 0.0
    ensures (&& |Catalog(lines, mvFlip, render)| <= MAX_TILES && UniformImages(Images(Catalog(lines, mvFlip, render)))
             && forall l :: 0 <= l < |lines| ==> lines[l].weight > 0.0)
        ==> FreshCatalog(Catalog(lines, mvFlip, render))
    decreases |lines|
  {
    if lines != [] {
      var p := lines[..|lines| - 1];
      CatalogIds(p, mvFlip, render);
      var prev := Catalog(p, mvFlip, render);
      assert forall l :: 0 <= l < |p| ==> p[l] == lines[l];
    }
  }
}
