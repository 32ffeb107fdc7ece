/** The 5x5 board's geometry: cells, row-major numbering, and king-move
    adjacency clamped at the edges (`Node.Neighbours`, and the two-hop
    set `FindNeighboursOfNeighbours`). */
module Geometry {
  import opened Seqs

  /** The board is 5 cells wide and 5 high. */
  const Size: int := 5
  const CellCount: int := 25

  /** A cell, by column and row (`Node.Column`, `Node.Row`). */
  datatype Pos = Pos(col: int, row: int)

  predicate InBounds(p: Pos) {
    0 <= p.col < 5 && 0 <= p.row < 5
  }

  /** Row-major number of a cell: the order in which the scans visit it
      (rows outer, columns inner). */
  function Index(p: Pos): (k: int)
    ensures InBounds(p) ==> 0 <= k < CellCount
  {
    p.row * 5 + p.col
  }

  /** The cells come in strictly increasing row-major order, as a scan
      (rows outer, columns inner) visits them. */
  predicate ScanOrdered(cells: seq<Pos>) {
    forall i, j :: 0 <= i < j < |cells| ==> Index(cells[i]) < Index(cells[j])
  }

  function PosOf(k: int): Pos {
    Pos(k % 5, k / 5)
  }

  lemma PosOfIndex(p: Pos)
    requires InBounds(p)
    ensures 0 <= Index(p) < CellCount && PosOf(Index(p)) == p
  {
  }

  lemma IndexOfPos(k: int)
    requires 0 <= k < CellCount
    ensures InBounds(PosOf(k)) && Index(PosOf(k)) == k
  {
  }

  function Abs(x: int): nat {
    if x < 0 then -x else x
  }

  /** Chebyshev (king-move) distance. */
  function Distance(p: Pos, q: Pos): nat {
    var dc := Abs(p.col - q.col);
    var dr := Abs(p.row - q.row);
    if dc < dr then dr else dc
  }

  /** `Node.Neighbours`: the cells around p, in the order
        1 2 3
        4 . 5
        6 7 8
      leaving out those that fall off the board. */
  function Neighbours(p: Pos): (ns: seq<Pos>)
    requires InBounds(p)
  {
    var c, r := p.col, p.row;
    (if c > 0 && r > 0 then [Pos(c - 1, r - 1)] else []) +
    (if r > 0 then [Pos(c, r - 1)] else []) +
    (if c <= 3 && r > 0 then [Pos(c + 1, r - 1)] else []) +
    (if c > 0 then [Pos(c - 1, r)] else []) +
    (if c <= 3 then [Pos(c + 1, r)] else []) +
    (if c > 0 && r <= 3 then [Pos(c - 1, r + 1)] else []) +
    (if r <= 3 then [Pos(c, r + 1)] else []) +
    (if c <= 3 && r <= 3 then [Pos(c + 1, r + 1)] else [])
  }

  /** The neighbours of p are exactly the cells on the board one king
      move away from p. */
  lemma NeighboursMembers(p: Pos, q: Pos)
    requires InBounds(p)
    ensures q in Neighbours(p) <==> InBounds(q) && Distance(p, q) == 1
  {
  }

  /** They come in row-major order (the 1..8 order above). */
  lemma NeighboursOrdered(p: Pos)
    requires InBounds(p)
    ensures forall i, j :: 0 <= i < j < |Neighbours(p)| ==> Index(Neighbours(p)[i]) < Index(Neighbours(p)[j])
  {
  }

  predicate IsCorner(p: Pos) {
    (p.col == 0 || p.col == 4) && (p.row == 0 || p.row == 4)
  }

  predicate OnEdge(p: Pos) {
    p.col == 0 || p.col == 4 || p.row == 0 || p.row == 4
  }

  /** A corner has 3 neighbours, another edge cell 5, an interior cell 8;
      no cell is its own neighbour and none is listed twice. */
  lemma NeighbourCount(p: Pos)
    requires InBounds(p)
    ensures p !in Neighbours(p)
    ensures NoDuplicates(Neighbours(p))
    ensures |Neighbours(p)| == if IsCorner(p) then 3 else if OnEdge(p) then 5 else 8
  {
    NeighboursMembers(p, p);
    var ns := Neighbours(p);
    NeighboursOrdered(p);
    forall i, j | 0 <= i < j < |ns| ensures ns[i] != ns[j] {
      assert Index(ns[i]) < Index(ns[j]);
    }
    NoDuplicatesIff(ns);
  }

  /** Adjacency is symmetric. */
  lemma NeighboursSymmetric(p: Pos, q: Pos)
    requires InBounds(p) && InBounds(q)
    ensures q in Neighbours(p) <==> p in Neighbours(q)
  {
    NeighboursMembers(p, q);
    NeighboursMembers(q, p);
  }

  /** `neighbours.SelectMany(n => n.Neighbours(nodes))`. */
  function FlatNeighbours(ns: seq<Pos>): (r: seq<Pos>)
    requires forall n :: n in ns ==> InBounds(n)
    ensures forall x :: x in r <==> exists n :: n in ns && x in Neighbours(n)
  {
    if ns == [] then []
    else
      var rest := FlatNeighbours(ns[1..]);
      assert forall n :: n in ns <==> n == ns[0] || n in ns[1..];
      Neighbours(ns[0]) + rest
  }

  /** `FindNeighboursOfNeighbours`: every cell adjacent to some cell of ns,
      each listed once. */
  function NeighboursOfNeighbours(ns: seq<Pos>): (r: seq<Pos>)
    requires forall n :: n in ns ==> InBounds(n)
    ensures forall x :: x in r <==> exists n :: n in ns && x in Neighbours(n)
    ensures NoDuplicates(r)
  {
    Distinct(FlatNeighbours(ns))
  }

  /** A cell next to both s and x, when x is within two king moves of s. */
  function Midpoint(s: Pos, x: Pos): (m: Pos)
    requires InBounds(s) && InBounds(x) && Distance(s, x) <= 2
    ensures InBounds(m) && Distance(s, m) == 1 && Distance(m, x) == 1
  {
    var dc, dr := x.col - s.col, x.row - s.row;
    if Distance(s, x) == 2 then
      Pos(s.col + Sign(dc), s.row + Sign(dr))
    else if Distance(s, x) == 1 && dc != 0 && dr != 0 then
      Pos(x.col, s.row)
    else if dr != 0 then
      // x is directly above or below s
      Pos(if s.col < 4 then s.col + 1 else s.col - 1, s.row)
    else if dc != 0 then
      // x is directly left or right of s
      Pos(s.col, if s.row < 4 then s.row + 1 else s.row - 1)
    else
      // x is s itself
      Pos(if s.col < 4 then s.col + 1 else s.col - 1, s.row)
  }

  function Sign(x: int): int {
    if x < 0 then -1 else if x > 0 then 1 else 0
  }

  /** The two-hop set of a cell s, `FindNeighboursOfNeighbours(s's
      neighbours)`, is exactly the cells within two king moves of s,
      s itself included. */
  lemma TwoHopRegion(s: Pos, x: Pos)
    requires InBounds(s)
    ensures x in NeighboursOfNeighbours(Neighbours(s)) <==> InBounds(x) && Distance(s, x) <= 2
  {
    var ns := Neighbours(s);
    if x in NeighboursOfNeighbours(ns) {
      var n :| n in ns && x in Neighbours(n);
      NeighboursMembers(s, n);
      NeighboursMembers(n, x);
    }
    if InBounds(x) && Distance(s, x) <= 2 {
      var m := Midpoint(s, x);
      NeighboursMembers(s, m);
      NeighboursMembers(m, x);
      assert m in ns && x in Neighbours(m);
    }
  }
}
