/** The solver itself, on the mutable board: a 5x5 array of `Node` objects,
    indexed [column, row], whose letters and candidate lists `Solve`
    updates in place. Each method is specified by the value-level model:
    `Letters` and `Possible` read the board as two row-major sequences. */
module Solver {
  import opened Seqs
  import opened Geometry
  import opened Deduction
  import opened Pruning

  /** `Node`: a cell of the board, its letter (' ' while unsolved) and the
      letters it may still take. */
  class Node {
    const column: int
    const row: int
    var letter: char
    var possibleLetters: seq<char>

    /** A new node is unsolved. The source leaves `PossibleLetters` unset
        until the first reset; here it starts empty. */
    constructor (column: int, row: int)
      ensures this.column == column && this.row == row
      ensures letter == Blank && possibleLetters == []
    {
      this.column := column;
      this.row := row;
      letter := Blank;
      possibleLetters := [];
    }

    /** `Node.Solved`. */
    predicate Solved()
      reads this
    {
      letter != Blank
    }

    /** `Node.Neighbours`: the nodes around this one, in the 1..8 order of
        `Geometry.Neighbours`. */
    function Neighbours(nodes: array2<Node>): (ns: seq<Node>)
      requires Valid(nodes) && InBounds(Pos(column, row))
      reads nodes
      ensures ns == NodesAt(nodes, Geometry.Neighbours(Pos(column, row)))
      ensures forall k :: 0 <= k < CellCount ==>
        (At(nodes, k) in ns <==> InBounds(PosOf(k)) && Distance(Pos(column, row), PosOf(k)) == 1)
    {
      var cells := Geometry.Neighbours(Pos(column, row));
      var ns := NodesAt(nodes, cells);
      forall k | 0 <= k < CellCount
        ensures At(nodes, k) in ns <==> InBounds(PosOf(k)) && Distance(Pos(column, row), PosOf(k)) == 1
      {
        NeighboursMembers(Pos(column, row), PosOf(k));
        NodesAtMembers(nodes, cells, k);
      }
      ns
    }
  }

  /** The board is 5x5 and each node knows its own place, so different
      places hold different nodes. */
  ghost predicate Valid(nodes: array2<Node>)
    reads nodes
  {
    nodes.Length0 == Size && nodes.Length1 == Size &&
    forall c, r :: 0 <= c < Size && 0 <= r < Size ==> nodes[c, r].column == c && nodes[c, r].row == r
  }

  /** The nodes on the board. */
  ghost function Objects(nodes: array2<Node>): set<object>
    requires nodes.Length0 == Size && nodes.Length1 == Size
    reads nodes
  {
    set c, r | 0 <= c < Size && 0 <= r < Size :: nodes[c, r]
  }

  /** The node with row-major number k. */
  function At(nodes: array2<Node>, k: int): Node
    requires nodes.Length0 == Size && nodes.Length1 == Size && 0 <= k < CellCount
    reads nodes
  {
    IndexOfPos(k);
    nodes[PosOf(k).col, PosOf(k).row]
  }

  /** The letters of the board, row-major. */
  ghost function Letters(nodes: array2<Node>): (g: seq<char>)
    requires nodes.Length0 == Size && nodes.Length1 == Size
    reads nodes, Objects(nodes)
    ensures |g| == CellCount && forall k :: 0 <= k < CellCount ==> g[k] == At(nodes, k).letter
  {
    seq(CellCount, k requires 0 <= k < CellCount reads nodes, Objects(nodes) => At(nodes, k).letter)
  }

  /** The candidate lists of the board, row-major. */
  ghost function Possible(nodes: array2<Node>): (possible: seq<seq<char>>)
    requires nodes.Length0 == Size && nodes.Length1 == Size
    reads nodes, Objects(nodes)
    ensures |possible| == CellCount && forall k :: 0 <= k < CellCount ==> possible[k] == At(nodes, k).possibleLetters
  {
    seq(CellCount, k requires 0 <= k < CellCount reads nodes, Objects(nodes) => At(nodes, k).possibleLetters)
  }

  /** The nodes at the given places, in order. */
  function NodesAt(nodes: array2<Node>, cells: seq<Pos>): (ns: seq<Node>)
    requires nodes.Length0 == Size && nodes.Length1 == Size && OnBoard(cells)
    reads nodes
    ensures |ns| == |cells|
  {
    seq(|cells|, i requires 0 <= i < |cells| reads nodes => nodes[cells[i].col, cells[i].row])
  }

  lemma AtIndex(nodes: array2<Node>, p: Pos)
    requires nodes.Length0 == Size && nodes.Length1 == Size && InBounds(p)
    ensures 0 <= Index(p) < CellCount && At(nodes, Index(p)) == nodes[p.col, p.row]
  {
    PosOfIndex(p);
  }

  /** On a valid board a node stands for its place. */
  lemma NodesAtMembers(nodes: array2<Node>, cells: seq<Pos>, k: int)
    requires Valid(nodes) && OnBoard(cells) && 0 <= k < CellCount
    ensures At(nodes, k) in NodesAt(nodes, cells) <==> PosOf(k) in cells
  {
    var ns := NodesAt(nodes, cells);
    IndexOfPos(k);
    if At(nodes, k) in ns {
      var i :| 0 <= i < |ns| && ns[i] == At(nodes, k);
      assert cells[i] == PosOf(k);
    }
    if PosOf(k) in cells {
      var i :| 0 <= i < |cells| && cells[i] == PosOf(k);
      assert ns[i] == At(nodes, k);
    }
  }

  // ---------------------------------------------------------------------
  // Building the board

  /** `CreateEmptyBoard`: 25 fresh, unsolved nodes, each at its own place. */
  method CreateEmptyBoard() returns (nodes: array2<Node>)
    ensures fresh(nodes) && Valid(nodes)
    ensures forall c, r :: 0 <= c < Size && 0 <= r < Size ==> fresh(nodes[c, r])
    ensures forall k :: 0 <= k < CellCount ==> Letters(nodes)[k] == Blank && Possible(nodes)[k] == []
  {
    // Dafny arrays of objects need an initial element; every place is
    // overwritten below.
    var filler := new Node(0, 0);
    nodes := new Node[Size, Size]((c, r) => filler);
    for r := 0 to Size
      invariant forall c', r' :: 0 <= c' < Size && 0 <= r' < r ==>
        fresh(nodes[c', r']) && nodes[c', r'] != filler &&
        nodes[c', r'].column == c' && nodes[c', r'].row == r' &&
        nodes[c', r'].letter == Blank && nodes[c', r'].possibleLetters == []
      invariant forall c', r' :: 0 <= c' < Size && r <= r' < Size ==> nodes[c', r'] == filler
    {
      for c := 0 to Size
        invariant forall c', r' :: 0 <= c' < Size && 0 <= r' < Size && (r' < r || (r' == r && c' < c)) ==>
          fresh(nodes[c', r']) && nodes[c', r'] != filler &&
          nodes[c', r'].column == c' && nodes[c', r'].row == r' &&
          nodes[c', r'].letter == Blank && nodes[c', r'].possibleLetters == []
        invariant forall c', r' :: 0 <= c' < Size && 0 <= r' < Size && (r' > r || (r' == r && c' >= c)) ==>
          nodes[c', r'] == filler
      {
        nodes[c, r] := new Node(c, r);
      }
    }
  }

  // ---------------------------------------------------------------------
  // Scanning the board

  /** The nodes of the board that are solved (or unsolved), rows outer and
      columns inner: `AllSolvedNodes` and `AllUnsolvedNodes`. */
  method Scan(nodes: array2<Node>, solved: bool) returns (found: seq<Node>)
    requires Valid(nodes)
    ensures OnBoard(ScanBelow(Letters(nodes), solved, CellCount))
    ensures found == NodesAt(nodes, ScanBelow(Letters(nodes), solved, CellCount))
  {
    ghost var g := Letters(nodes);
    found := [];
    for r := 0 to Size
      invariant OnBoard(ScanBelow(g, solved, r * 5))
      invariant found == NodesAt(nodes, ScanBelow(g, solved, r * 5))
    {
      BoardUnchanged(nodes);
      found := ScanRow(nodes, solved, r, g, found);
    }
    BoardUnchanged(nodes);
  }

  /** The inner loop of the scan: row r, columns left to right, appended
      to what the rows above found. */
  method ScanRow(nodes: array2<Node>, solved: bool, r: int, ghost g: seq<char>, above: seq<Node>) returns (found: seq<Node>)
    requires Valid(nodes) && g == Letters(nodes) && 0 <= r < Size
    requires OnBoard(ScanBelow(g, solved, r * 5)) && above == NodesAt(nodes, ScanBelow(g, solved, r * 5))
    ensures OnBoard(ScanBelow(g, solved, r * 5 + 5))
    ensures found == NodesAt(nodes, ScanBelow(g, solved, r * 5 + 5))
  {
    found := above;
    for c := 0 to Size
      invariant Valid(nodes) && g == Letters(nodes)
      invariant OnBoard(ScanBelow(g, solved, r * 5 + c))
      invariant found == NodesAt(nodes, ScanBelow(g, solved, r * 5 + c))
    {
      ScanStep(nodes, g, solved, c, r);
      var node := nodes[c, r];
      if node.Solved() == solved {
        found := found + [node];
      }
    }
  }

  /** One step of the scan: the node at (c, r) joins the result when its
      state matches. */
  lemma ScanStep(nodes: array2<Node>, g: seq<char>, solved: bool, c: int, r: int)
    requires Valid(nodes) && g == Letters(nodes) && 0 <= c < Size && 0 <= r < Size
    ensures OnBoard(ScanBelow(g, solved, r * 5 + (c + 1)))
    ensures nodes[c, r].Solved() == solved ==>
      NodesAt(nodes, ScanBelow(g, solved, r * 5 + (c + 1))) == NodesAt(nodes, ScanBelow(g, solved, r * 5 + c)) + [nodes[c, r]]
    ensures nodes[c, r].Solved() != solved ==>
      NodesAt(nodes, ScanBelow(g, solved, r * 5 + (c + 1))) == NodesAt(nodes, ScanBelow(g, solved, r * 5 + c))
  {
    var k := r * 5 + c;
    assert k + 1 == r * 5 + (c + 1);
    ScanOnBoard(g, solved, k);
    ScanOnBoard(g, solved, k + 1);
    AtIndex(nodes, Pos(c, r));
    assert Index(Pos(c, r)) == k && PosOf(k) == Pos(c, r);
    assert g[k] == nodes[c, r].letter;
    var below := ScanBelow(g, solved, k);
    if nodes[c, r].Solved() == solved {
      assert ScanBelow(g, solved, k + 1) == below + [Pos(c, r)];
      NodesAtSnoc(nodes, below, Pos(c, r));
    } else {
      assert ScanBelow(g, solved, k + 1) == below;
    }
  }

  lemma ScanOnBoard(g: seq<char>, solved: bool, k: int)
    requires |g| == CellCount && 0 <= k <= CellCount
    ensures OnBoard(ScanBelow(g, solved, k))
  {
    var cells := ScanBelow(g, solved, k);
    forall t | 0 <= t < |cells| ensures InBounds(cells[t]) {
      assert cells[t] in cells;
    }
  }

  /** `AllSolvedNodes`. */
  method AllSolvedNodes(nodes: array2<Node>) returns (found: seq<Node>)
    requires Valid(nodes)
    ensures OnBoard(SolvedCells(Letters(nodes)))
    ensures found == NodesAt(nodes, SolvedCells(Letters(nodes)))
  {
    found := Scan(nodes, true);
  }

  /** `AllUnsolvedNodes`. */
  method AllUnsolvedNodes(nodes: array2<Node>) returns (found: seq<Node>)
    requires Valid(nodes)
    ensures OnBoard(UnsolvedCells(Letters(nodes)))
    ensures found == NodesAt(nodes, UnsolvedCells(Letters(nodes)))
  {
    found := Scan(nodes, false);
  }

  /** The places of the given nodes. */
  function PositionsOf(ns: seq<Node>): (cells: seq<Pos>)
    ensures |cells| == |ns| && forall i :: 0 <= i < |ns| ==> cells[i] == Pos(ns[i].column, ns[i].row)
  {
    seq(|ns|, i requires 0 <= i < |ns| => Pos(ns[i].column, ns[i].row))
  }

  lemma PositionsOfNodesAt(nodes: array2<Node>, cells: seq<Pos>)
    requires Valid(nodes) && OnBoard(cells)
    ensures PositionsOf(NodesAt(nodes, cells)) == cells
  {
  }

  // ---------------------------------------------------------------------
  // Updating one node

  /** Gives the node at p a new candidate list. */
  method SetList(nodes: array2<Node>, p: Pos, list: seq<char>)
    requires Valid(nodes) && InBounds(p)
    modifies nodes[p.col, p.row]
    ensures Letters(nodes) == old(Letters(nodes))
    ensures Possible(nodes) == old(Possible(nodes))[Index(p) := list]
  {
    ghost var g, before := Letters(nodes), Possible(nodes);
    var node := nodes[p.col, p.row];
    node.possibleLetters := list;
    forall k | 0 <= k < CellCount
      ensures At(nodes, k) == node <==> k == Index(p)
    {
      IndexOfPos(k);
      PosOfIndex(p);
    }
    assert Letters(nodes) == g;
    assert Possible(nodes) == before[Index(p) := list];
  }

  /** `solved.Letter = letter; solved.PossibleLetters.Clear()`. */
  method Commit(nodes: array2<Node>, p: Pos, x: char)
    requires Valid(nodes) && InBounds(p)
    modifies nodes[p.col, p.row]
    ensures Letters(nodes) == old(Letters(nodes))[Index(p) := x]
    ensures Possible(nodes) == old(Possible(nodes))[Index(p) := []]
  {
    ghost var g, before := Letters(nodes), Possible(nodes);
    var node := nodes[p.col, p.row];
    node.letter := x;
    node.possibleLetters := [];
    forall k | 0 <= k < CellCount
      ensures At(nodes, k) == node <==> k == Index(p)
    {
      IndexOfPos(k);
      PosOfIndex(p);
    }
    assert Letters(nodes) == g[Index(p) := x];
    assert Possible(nodes) == before[Index(p) := []];
  }

  lemma PrefixStep(cells: seq<Pos>, i: int, k: int)
    requires OnBoard(cells) && 0 <= i < |cells| && 0 <= k < CellCount
    ensures PosOf(k) in cells[..i + 1] <==> PosOf(k) in cells[..i] || k == Index(cells[i])
  {
    assert cells[..i + 1] == cells[..i] + [cells[i]];
    IndexOfPos(k);
    PosOfIndex(cells[i]);
  }

  // ---------------------------------------------------------------------
  // Reset and pruning

  /** The first loop of `Solve`: every unsolved node starts again from the
      remaining letters, each with its own copy. */
  method ResetCandidates(nodes: array2<Node>, remaining: seq<char>)
    requires Valid(nodes)
    modifies Objects(nodes)
    ensures Letters(nodes) == old(Letters(nodes))
    ensures forall k :: 0 <= k < CellCount ==>
      Possible(nodes)[k] == if old(Letters(nodes))[k] == Blank then remaining else old(Possible(nodes))[k]
  {
    ghost var g, before := Letters(nodes), Possible(nodes);
    var unsolved := AllUnsolvedNodes(nodes);
    ghost var cells := UnsolvedCells(g);
    for i := 0 to |unsolved|
      invariant Letters(nodes) == g
      invariant forall k :: 0 <= k < CellCount ==>
        Possible(nodes)[k] == if PosOf(k) in cells[..i] then remaining else before[k]
    {
      var node := unsolved[i];
      assert Pos(node.column, node.row) == cells[i];
      SetList(nodes, Pos(node.column, node.row), remaining);
      forall k | 0 <= k < CellCount
        ensures PosOf(k) in cells[..i + 1] <==> PosOf(k) in cells[..i] || k == Index(cells[i])
      {
        PrefixStep(cells, i, k);
      }
    }
    assert cells[..|unsolved|] == cells;
    forall k | 0 <= k < CellCount
      ensures PosOf(k) in cells <==> g[k] == Blank
    {
      IndexOfPos(k);
    }
  }

  /** `foreach (var node in targets) node.PossibleLetters.Remove(letter)`,
      for a list of distinct places. */
  method RemoveLetter(nodes: array2<Node>, targets: seq<Pos>, letter: char)
    requires Valid(nodes) && OnBoard(targets) && NoDuplicates(targets)
    modifies Objects(nodes)
    ensures Letters(nodes) == old(Letters(nodes))
    ensures forall k :: 0 <= k < CellCount ==>
      Possible(nodes)[k] == if PosOf(k) in targets then RemoveFirst(old(Possible(nodes))[k], letter) else old(Possible(nodes))[k]
  {
    ghost var g, before := Letters(nodes), Possible(nodes);
    for m := 0 to |targets|
      invariant Letters(nodes) == g
      invariant forall k :: 0 <= k < CellCount ==>
        Possible(nodes)[k] == if PosOf(k) in targets[..m] then RemoveFirst(before[k], letter) else before[k]
    {
      var p := targets[m];
      var node := nodes[p.col, p.row];
      AtIndex(nodes, p);
      assert PosOf(Index(p)) !in targets[..m] by {
        PosOfIndex(p);
        NoDuplicatesIff(targets);
        forall t | 0 <= t < m ensures targets[..m][t] != p {
          assert targets[..m][t] == targets[t];
        }
      }
      SetList(nodes, p, RemoveFirst(node.possibleLetters, letter));
      forall k | 0 <= k < CellCount
        ensures PosOf(k) in targets[..m + 1] <==> PosOf(k) in targets[..m] || k == Index(targets[m])
      {
        PrefixStep(targets, m, k);
      }
    }
    assert targets[..|targets|] == targets;
  }

  /** Removing a letter from the unsolved places outside `keep`: on lists
      without duplicates the remove is a drop, and dropping twice is
      dropping once. */
  method RemoveOutside(nodes: array2<Node>, keep: seq<Pos>, letter: char, ghost base: seq<seq<char>>, ghost hit: set<int>)
    requires Valid(nodes) && |base| == CellCount
    requires forall k :: 0 <= k < CellCount && Letters(nodes)[k] == Blank ==> NoDuplicates(base[k])
    requires forall k :: 0 <= k < CellCount ==>
      Possible(nodes)[k] == if k in hit then Drop(base[k], letter) else base[k]
    modifies Objects(nodes)
    ensures Letters(nodes) == old(Letters(nodes))
    ensures forall k :: 0 <= k < CellCount ==>
      Possible(nodes)[k] ==
        if k in hit || (old(Letters(nodes))[k] == Blank && PosOf(k) !in keep) then Drop(base[k], letter) else base[k]
  {
    ghost var g, before := Letters(nodes), Possible(nodes);
    var unsolved := AllUnsolvedNodes(nodes);
    PositionsOfNodesAt(nodes, UnsolvedCells(g));
    var targets := Except(PositionsOf(unsolved), keep);
    assert OnBoard(targets) by {
      forall t | 0 <= t < |targets| ensures InBounds(targets[t]) {
        assert targets[t] in targets;
      }
    }
    RemoveLetter(nodes, targets, letter);
    forall k | 0 <= k < CellCount
      ensures Possible(nodes)[k] ==
        if k in hit || (g[k] == Blank && PosOf(k) !in keep) then Drop(base[k], letter) else base[k]
    {
      IndexOfPos(k);
      if PosOf(k) in targets {
        assert g[k] == Blank;
        if k in hit {
          RemoveFirstDistinct(Drop(base[k], letter), letter);
          DropTwice(base[k], letter);
        } else {
          RemoveFirstDistinct(base[k], letter);
        }
      }
    }
  }

  /** Cell k has lost the letter: through the direct rule outside the
      neighbours, or through the two-hop rule outside the two-step region. */
  ghost predicate Struck(g: seq<char>, k: int, direct: bool, neighbours: seq<Pos>, twoHop: bool, twoStep: seq<Pos>)
    requires |g| == CellCount && 0 <= k < CellCount
  {
    g[k] == Blank && ((direct && PosOf(k) !in neighbours) || (twoHop && PosOf(k) !in twoStep))
  }

  ghost function StruckSet(g: seq<char>, direct: bool, neighbours: seq<Pos>, twoHop: bool, twoStep: seq<Pos>): (hit: set<int>)
    requires |g| == CellCount
    ensures forall k :: k in hit <==> 0 <= k < CellCount && Struck(g, k, direct, neighbours, twoHop, twoStep)
  {
    set k | 0 <= k < CellCount && Struck(g, k, direct, neighbours, twoHop, twoStep)
  }

  /** Firing the two-hop rule strikes, besides what was struck, every
      unsolved cell outside the two-step region. */
  lemma StruckMore(g: seq<char>, direct: bool, neighbours: seq<Pos>, twoHop: bool, twoStep: seq<Pos>)
    requires |g| == CellCount
    ensures forall k :: 0 <= k < CellCount ==>
      ((k in StruckSet(g, direct, neighbours, twoHop, twoStep) || (g[k] == Blank && PosOf(k) !in twoStep)) <==>
       Struck(g, k, direct, neighbours, true, twoStep))
  {
  }

  /** The body of the pruning loop for one letter and one solved node: the
      direct rule, then the two-hop rule. The letter goes from exactly the
      unsolved cells where the solved node does not permit it. */
  method ApplyConstraints(nodes: array2<Node>, connections: set<(char, char)>, letter: char, solvedNode: Node)
    requires Valid(nodes)
    requires InBounds(Pos(solvedNode.column, solvedNode.row))
    requires nodes[solvedNode.column, solvedNode.row] == solvedNode
    requires forall k :: 0 <= k < CellCount && Letters(nodes)[k] == Blank ==> NoDuplicates(Possible(nodes)[k])
    modifies Objects(nodes)
    ensures Letters(nodes) == old(Letters(nodes))
    ensures forall k :: 0 <= k < CellCount ==>
      Possible(nodes)[k] ==
        if old(Letters(nodes))[k] == Blank &&
           !Permits(old(Letters(nodes)), connections, PosOf(k), letter, Pos(solvedNode.column, solvedNode.row))
        then Drop(old(Possible(nodes))[k], letter) else old(Possible(nodes))[k]
  {
    ghost var g, before := Letters(nodes), Possible(nodes);
    ghost var s := Pos(solvedNode.column, solvedNode.row);
    AtIndex(nodes, s);
    var neighbours := PositionsOf(solvedNode.Neighbours(nodes));
    PositionsOfNodesAt(nodes, Geometry.Neighbours(s));
    assert neighbours == Geometry.Neighbours(s);

    // If a connection is needed from letter to the solved node's letter,
    // letter can only sit next to the solved node.
    var solvedLetter := solvedNode.letter;
    assert solvedLetter == g[Index(s)];
    var direct := (letter, solvedLetter) in connections;
    if direct {
      RemoveOutside(nodes, neighbours, letter, before, {});
    }
    var twoHop := ApplyTwoHop(nodes, connections, letter, solvedLetter, direct, neighbours, before);
    forall k | 0 <= k < CellCount
      ensures Struck(g, k, direct, neighbours, twoHop, NeighboursOfNeighbours(neighbours)) <==>
        g[k] == Blank && !Permits(g, connections, PosOf(k), letter, s)
    {
      StruckIff(g, connections, letter, s, k, twoHop);
    }
  }

  /** The two-hop rule: for every letter `indirect` that `letter` must
      touch and that must touch `solvedLetter`, the solved node's letter, `letter` can
      only sit within two steps of the solved node. Returns whether the
      rule fired. */
  method ApplyTwoHop(nodes: array2<Node>, connections: set<(char, char)>, letter: char, solvedLetter: char,
                     direct: bool, neighbours: seq<Pos>, ghost before: seq<seq<char>>)
    returns (ghost twoHop: bool)
    requires Valid(nodes) && |before| == CellCount
    requires forall p :: p in neighbours ==> InBounds(p)
    requires forall k :: 0 <= k < CellCount && Letters(nodes)[k] == Blank ==> NoDuplicates(before[k])
    requires forall k :: 0 <= k < CellCount ==>
      Possible(nodes)[k] == if Struck(Letters(nodes), k, direct, neighbours, false, []) then Drop(before[k], letter) else before[k]
    modifies Objects(nodes)
    ensures twoHop <==> TwoHop(connections, letter, solvedLetter)
    ensures Letters(nodes) == old(Letters(nodes))
    ensures forall k :: 0 <= k < CellCount ==>
      Possible(nodes)[k] ==
        if Struck(old(Letters(nodes)), k, direct, neighbours, twoHop, NeighboursOfNeighbours(neighbours))
        then Drop(before[k], letter) else before[k]
  {
    ghost var g := Letters(nodes);
    var directConnections := set c | c in connections && c.0 == letter :: c.1;
    var neighboursOfNeighbours := NeighboursOfNeighbours(neighbours);
    var rest := directConnections;
    twoHop := false;
    while rest != {}
      invariant rest <= directConnections
      invariant twoHop <==> exists y :: y in directConnections && y !in rest && (y, solvedLetter) in connections
      invariant Letters(nodes) == g
      invariant forall k :: 0 <= k < CellCount ==>
        Possible(nodes)[k] ==
          if Struck(g, k, direct, neighbours, twoHop, neighboursOfNeighbours) then Drop(before[k], letter) else before[k]
      decreases |rest|
    {
      var indirect :| indirect in rest;
      rest := rest - {indirect};
      if (indirect, solvedLetter) in connections {
        ghost var hit := StruckSet(g, direct, neighbours, twoHop, neighboursOfNeighbours);
        RemoveOutside(nodes, neighboursOfNeighbours, letter, before, hit);
        StruckMore(g, direct, neighbours, twoHop, neighboursOfNeighbours);
        twoHop := true;
      }
    }
    assert twoHop <==> TwoHop(connections, letter, solvedLetter) by {
      if TwoHop(connections, letter, solvedLetter) {
        var y :| (letter, y) in connections && (y, solvedLetter) in connections;
        assert y in directConnections;
      }
    }
  }

  lemma StruckIff(g: seq<char>, connections: set<(char, char)>, letter: char, s: Pos, k: int, twoHop: bool)
    requires |g| == CellCount && InBounds(s) && 0 <= k < CellCount
    requires twoHop <==> TwoHop(connections, letter, g[Index(s)])
    ensures Struck(g, k, (letter, g[Index(s)]) in connections, Geometry.Neighbours(s), twoHop,
                   NeighboursOfNeighbours(Geometry.Neighbours(s))) <==>
      g[k] == Blank && !Permits(g, connections, PosOf(k), letter, s)
  {
  }

  /** One pass of the outer pruning loop: letter i of `remaining` against
      every solved node, in scan order. */
  method PruneLetter(nodes: array2<Node>, connections: set<(char, char)>, remaining: seq<char>, i: int,
                     ghost g: seq<char>, ghost before: seq<seq<char>>)
    requires Valid(nodes) && Letters(nodes) == g && |before| == CellCount
    requires NoDuplicates(remaining) && 0 <= i < |remaining| && OnBoard(SolvedCells(g))
    requires forall k :: 0 <= k < CellCount ==>
      Possible(nodes)[k] ==
        if g[k] == Blank then Keep(remaining, Stage(g, connections, remaining, SolvedCells(g), i, 0, PosOf(k)))
        else before[k]
    modifies Objects(nodes)
    ensures Letters(nodes) == g
    ensures forall k :: 0 <= k < CellCount ==>
      Possible(nodes)[k] ==
        if g[k] == Blank then Keep(remaining, Stage(g, connections, remaining, SolvedCells(g), i, |SolvedCells(g)|, PosOf(k)))
        else before[k]
  {
    ghost var solvedCells := SolvedCells(g);
    var solvedNodes := AllSolvedNodes(nodes);
    for j := 0 to |solvedNodes|
      invariant solvedNodes == NodesAt(nodes, solvedCells)
      invariant Letters(nodes) == g
      invariant forall k :: 0 <= k < CellCount ==>
        Possible(nodes)[k] ==
          if g[k] == Blank then Keep(remaining, Stage(g, connections, remaining, solvedCells, i, j, PosOf(k)))
          else before[k]
    {
      PruneAgainst(nodes, connections, remaining, i, solvedNodes[j], g, before, solvedCells, j);
    }
  }

  /** The body of the inner pruning loop: solved node j constrains letter
      i, moving every unsolved list from stage (i, j) to stage (i, j + 1). */
  method PruneAgainst(nodes: array2<Node>, connections: set<(char, char)>, remaining: seq<char>, i: int,
                      solvedNode: Node, ghost g: seq<char>, ghost before: seq<seq<char>>,
                      ghost solvedCells: seq<Pos>, ghost j: int)
    requires Valid(nodes) && Letters(nodes) == g && |before| == CellCount
    requires NoDuplicates(remaining) && 0 <= i < |remaining|
    requires OnBoard(solvedCells) && 0 <= j < |solvedCells| && solvedNode == NodesAt(nodes, solvedCells)[j]
    requires forall k :: 0 <= k < CellCount ==>
      Possible(nodes)[k] ==
        if g[k] == Blank then Keep(remaining, Stage(g, connections, remaining, solvedCells, i, j, PosOf(k)))
        else before[k]
    modifies Objects(nodes)
    ensures Letters(nodes) == g
    ensures forall k :: 0 <= k < CellCount ==>
      Possible(nodes)[k] ==
        if g[k] == Blank then Keep(remaining, Stage(g, connections, remaining, solvedCells, i, j + 1, PosOf(k)))
        else before[k]
  {
    assert Pos(solvedNode.column, solvedNode.row) == solvedCells[j];
    ghost var mid := Possible(nodes);
    ApplyConstraints(nodes, connections, remaining[i], solvedNode);
    PruneStep(g, connections, remaining, solvedCells, i, j, before, mid, Possible(nodes));
  }

  /** Applying the constraints of solved node j for letter i moves every
      unsolved list from stage (i, j) to stage (i, j + 1). */
  lemma PruneStep(g: seq<char>, connections: set<(char, char)>, remaining: seq<char>, solved: seq<Pos>,
                  i: int, j: int, before: seq<seq<char>>, mid: seq<seq<char>>, now: seq<seq<char>>)
    requires |g| == CellCount && |before| == CellCount && |mid| == CellCount && |now| == CellCount
    requires NoDuplicates(remaining) && 0 <= i < |remaining| && 0 <= j < |solved| && OnBoard(solved)
    requires forall k :: 0 <= k < CellCount ==>
      mid[k] == if g[k] == Blank then Keep(remaining, Stage(g, connections, remaining, solved, i, j, PosOf(k))) else before[k]
    requires forall k :: 0 <= k < CellCount ==>
      now[k] == if g[k] == Blank && !Permits(g, connections, PosOf(k), remaining[i], solved[j])
                then Drop(mid[k], remaining[i]) else mid[k]
    ensures forall k :: 0 <= k < CellCount ==>
      now[k] == if g[k] == Blank then Keep(remaining, Stage(g, connections, remaining, solved, i, j + 1, PosOf(k))) else before[k]
  {
    forall k | 0 <= k < CellCount && g[k] == Blank
      ensures now[k] == Keep(remaining, Stage(g, connections, remaining, solved, i, j + 1, PosOf(k)))
    {
      StageStep(g, connections, remaining, solved, i, j, PosOf(k));
      DropKeep(remaining, Stage(g, connections, remaining, solved, i, j, PosOf(k)), remaining[i]);
    }
  }

  /** The pruning loop of `Solve`, letters outer and solved nodes inner.
      It starts from unsolved lists holding the remaining letters, as the
      reset leaves them, and ends with each unsolved node holding its
      candidates. */
  method Prune(nodes: array2<Node>, connections: set<(char, char)>, remaining: seq<char>, ghost all: seq<char>)
    requires Valid(nodes)
    requires remaining == Remaining(Letters(nodes), all)
    requires forall k :: 0 <= k < CellCount && Letters(nodes)[k] == Blank ==> Possible(nodes)[k] == remaining
    modifies Objects(nodes)
    ensures Letters(nodes) == old(Letters(nodes))
    ensures Possible(nodes) == Pruned(old(Letters(nodes)), old(Possible(nodes)), connections, all)
  {
    ghost var g, before := Letters(nodes), Possible(nodes);
    ghost var solvedCells := SolvedCells(g);
    RemainingMembers(g, all, Blank);
    assert OnBoard(solvedCells) by {
      forall t | 0 <= t < |solvedCells| ensures InBounds(solvedCells[t]) {
        assert solvedCells[t] in solvedCells;
      }
    }
    StageStartAll(g, connections, remaining, solvedCells);
    for i := 0 to |remaining|
      invariant Letters(nodes) == g
      invariant forall k :: 0 <= k < CellCount ==>
        Possible(nodes)[k] ==
          if g[k] == Blank then Keep(remaining, Stage(g, connections, remaining, solvedCells, i, 0, PosOf(k)))
          else before[k]
    {
      PruneLetter(nodes, connections, remaining, i, g, before);
      StageNextAll(g, connections, remaining, i);
    }
    StageEndAll(g, connections, all);
    PrunedCells(g, before, connections, all);
  }

  // ---------------------------------------------------------------------
  // The rules and the round

  lemma HoldersStep(possible: seq<seq<char>>, ch: char, cells: seq<Pos>, m: int)
    requires |possible| == CellCount && OnBoard(cells) && 0 <= m < |cells|
    ensures OnBoard(cells[..m]) && OnBoard(cells[..m + 1])
    ensures HoldersAmong(possible, ch, cells[..m + 1]) ==
      HoldersAmong(possible, ch, cells[..m]) + (if ch in possible[Index(cells[m])] then [cells[m]] else [])
  {
    assert cells[..m + 1][..m] == cells[..m];
  }

  lemma HoldersOnBoard(possible: seq<seq<char>>, ch: char, cells: seq<Pos>)
    requires |possible| == CellCount && OnBoard(cells)
    ensures OnBoard(HoldersAmong(possible, ch, cells))
  {
    var h := HoldersAmong(possible, ch, cells);
    forall t | 0 <= t < |h| ensures InBounds(h[t]) {
      assert h[t] in h;
      var i :| 0 <= i < |cells| && cells[i] == h[t];
    }
  }

  /** One step of the filter over the unsolved nodes: the holders among the
      first m + 1 cells, and the nodes standing at them. */
  lemma HoldersNodesStep(nodes: array2<Node>, letter: char, cells: seq<Pos>, m: int, found: seq<Pos>)
    requires Valid(nodes) && OnBoard(cells) && 0 <= m < |cells|
    requires OnBoard(found) && found == HoldersAmong(Possible(nodes), letter, cells[..m])
    ensures OnBoard(cells[..m + 1])
    ensures NodesAt(nodes, cells)[m].possibleLetters == Possible(nodes)[Index(cells[m])]
    ensures letter in Possible(nodes)[Index(cells[m])] ==>
      OnBoard(found + [cells[m]]) &&
      found + [cells[m]] == HoldersAmong(Possible(nodes), letter, cells[..m + 1]) &&
      NodesAt(nodes, found + [cells[m]]) == NodesAt(nodes, found) + [NodesAt(nodes, cells)[m]]
    ensures letter !in Possible(nodes)[Index(cells[m])] ==>
      found == HoldersAmong(Possible(nodes), letter, cells[..m + 1])
  {
    HoldersStep(Possible(nodes), letter, cells, m);
    NodeAtCell(nodes, cells, m);
    NodesAtSnoc(nodes, found, cells[m]);
  }

  /** `AllUnsolvedNodes(nodes).Where(n => n.PossibleLetters.Contains(letter))`. */
  method NodesHolding(nodes: array2<Node>, letter: char) returns (possibles: seq<Node>)
    requires Valid(nodes)
    ensures OnBoard(UnsolvedCells(Letters(nodes)))
    ensures OnBoard(HoldersAmong(Possible(nodes), letter, UnsolvedCells(Letters(nodes))))
    ensures possibles == NodesAt(nodes, HoldersAmong(Possible(nodes), letter, UnsolvedCells(Letters(nodes))))
  {
    ghost var g, possible := Letters(nodes), Possible(nodes);
    var unsolved := AllUnsolvedNodes(nodes);
    BoardUnchanged(nodes);
    ghost var cells := UnsolvedCells(g);
    assert |unsolved| == |cells|;
    ghost var found: seq<Pos> := [];
    possibles := [];
    assert cells[..0] == [];
    for m := 0 to |unsolved|
      invariant possible == Possible(nodes) && unsolved == NodesAt(nodes, cells)
      invariant OnBoard(cells[..m]) && OnBoard(found)
      invariant found == HoldersAmong(possible, letter, cells[..m])
      invariant possibles == NodesAt(nodes, found)
    {
      HoldersNodesStep(nodes, letter, cells, m, found);
      if letter in unsolved[m].possibleLetters {
        possibles := possibles + [unsolved[m]];
        found := found + [cells[m]];
      }
    }
    assert cells[..|unsolved|] == cells;
    HoldersOnBoard(possible, letter, cells);
    BoardUnchanged(nodes);
  }

  /** The i-th node found at `cells` stands at cells[i] and carries that
      cell's letter and list. */
  lemma NodeAtCell(nodes: array2<Node>, cells: seq<Pos>, i: int)
    requires Valid(nodes) && OnBoard(cells) && 0 <= i < |cells|
    ensures 0 <= Index(cells[i]) < CellCount
    ensures NodesAt(nodes, cells)[i] == nodes[cells[i].col, cells[i].row]
    ensures NodesAt(nodes, cells)[i].column == cells[i].col && NodesAt(nodes, cells)[i].row == cells[i].row
    ensures NodesAt(nodes, cells)[i].letter == Letters(nodes)[Index(cells[i])]
    ensures NodesAt(nodes, cells)[i].possibleLetters == Possible(nodes)[Index(cells[i])]
  {
    AtIndex(nodes, cells[i]);
  }

  /** A single node found at one place stands at that place. */
  lemma OnlyHolder(nodes: array2<Node>, cells: seq<Pos>, ns: seq<Node>)
    requires Valid(nodes) && OnBoard(cells) && ns == NodesAt(nodes, cells) && |ns| == 1
    ensures cells == [Pos(ns[0].column, ns[0].row)]
  {
    NodeAtCell(nodes, cells, 0);
  }

  lemma NodesAtSnoc(nodes: array2<Node>, cells: seq<Pos>, p: Pos)
    requires nodes.Length0 == Size && nodes.Length1 == Size && OnBoard(cells) && InBounds(p)
    ensures OnBoard(cells + [p])
    ensures NodesAt(nodes, cells + [p]) == NodesAt(nodes, cells) + [nodes[p.col, p.row]]
  {
  }

  /** A step that changes no node leaves the letters and lists as they were. */
  twostate lemma BoardUnchanged(nodes: array2<Node>)
    requires old(Valid(nodes)) && unchanged(nodes) && unchanged(old(Objects(nodes)))
    ensures Valid(nodes)
    ensures Letters(nodes) == old(Letters(nodes)) && Possible(nodes) == old(Possible(nodes))
  {
  }

  lemma InObjects(nodes: array2<Node>, p: Pos)
    requires Valid(nodes) && InBounds(p)
    ensures nodes[p.col, p.row] in Objects(nodes)
  {
  }

  /** `allSolvedNodes.Select(n => n.Letter)`. */
  function LettersOf(ns: seq<Node>): (letters: seq<char>)
    reads ns
    ensures |letters| == |ns| && forall i :: 0 <= i < |ns| ==> letters[i] == ns[i].letter
  {
    seq(|ns|, i requires 0 <= i < |ns| reads ns => ns[i].letter)
  }

  /** `solvedLetters` in `Solve`: the letters of the solved nodes, in the
      order `AllSolvedNodes` lists them, are the board's solved letters in
      scan order. */
  lemma LettersOfSolved(nodes: array2<Node>)
    requires Valid(nodes)
    ensures OnBoard(SolvedCells(Letters(nodes)))
    ensures LettersOf(NodesAt(nodes, SolvedCells(Letters(nodes)))) == SolvedLetters(Letters(nodes))
  {
    var g := Letters(nodes);
    var cells := SolvedCells(g);
    assert OnBoard(cells) by {
      forall i | 0 <= i < |cells| ensures InBounds(cells[i]) {
        assert cells[i] in cells;
      }
    }
    var letters := LettersOf(NodesAt(nodes, cells));
    forall i | 0 <= i < |cells| ensures letters[i] == g[Index(cells[i])] {
      AtIndex(nodes, cells[i]);
    }
  }

  /** The first half of `Solve`: every unsolved node gets the letters not
      yet on the board, and then loses those the solved nodes rule out.
      The result is the list of remaining letters. */
  method ResetAndPrune(nodes: array2<Node>, connections: set<(char, char)>, allLetters: seq<char>)
    returns (remainingLetters: seq<char>)
    requires Valid(nodes)
    modifies Objects(nodes)
    ensures remainingLetters == Remaining(old(Letters(nodes)), allLetters)
    ensures Letters(nodes) == old(Letters(nodes))
    ensures Possible(nodes) == Pruned(old(Letters(nodes)), old(Possible(nodes)), connections, allLetters)
  {
    ghost var g, before := Letters(nodes), Possible(nodes);
    var solvedNodes := AllSolvedNodes(nodes);
    var solvedLetters := LettersOf(solvedNodes);
    LettersOfSolved(nodes);
    remainingLetters := Except(allLetters, solvedLetters);
    ResetCandidates(nodes, remainingLetters);
    ghost var reset := Possible(nodes);
    Prune(nodes, connections, remainingLetters, allLetters);
    PrunedIgnoresUnsolved(g, reset, before, connections, allLetters);
  }

  /** Rule 1 of `Solve`: the first of `letters` that exactly one unsolved
      node can take, with that node's place. */
  method FindUniqueLetter(nodes: array2<Node>, letters: seq<char>) returns (found: Option<Assignment>)
    requires Valid(nodes)
    ensures OnBoard(UnsolvedCells(Letters(nodes)))
    ensures found == FirstUnique(Possible(nodes), UnsolvedCells(Letters(nodes)), letters)
  {
    ghost var g, possible := Letters(nodes), Possible(nodes);
    ghost var cells := UnsolvedCells(g);
    for i := 0 to |letters|
      invariant OnBoard(cells)
      invariant FirstUnique(possible, cells, letters) == FirstUnique(possible, cells, letters[i..])
    {
      var letter := letters[i];
      var possibles := NodesHolding(nodes, letter);
      BoardUnchanged(nodes);
      ghost var h := HoldersAmong(possible, letter, cells);
      assert |possibles| == |h|;
      assert letters[i..][0] == letter && letters[i..][1..] == letters[i + 1..];
      if |possibles| == 1 {
        var solved := possibles[0];
        var p := Pos(solved.column, solved.row);
        OnlyHolder(nodes, h, possibles);
        BoardUnchanged(nodes);
        return Some(Assignment(p, letter));
      }
    }
    BoardUnchanged(nodes);
    return None;
  }

  /** Rule 2 of `Solve`: the first unsolved node, in row-major order, with
      exactly one letter on its list, and that letter. */
  method FindSingleLetter(nodes: array2<Node>) returns (found: Option<Assignment>)
    requires Valid(nodes)
    ensures OnBoard(UnsolvedCells(Letters(nodes)))
    ensures found == FirstSingle(Possible(nodes), UnsolvedCells(Letters(nodes)))
  {
    ghost var g, possible := Letters(nodes), Possible(nodes);
    var solveables := AllUnsolvedNodes(nodes);
    BoardUnchanged(nodes);
    ghost var cells := UnsolvedCells(g);
    assert cells[0..] == cells;
    for i := 0 to |solveables|
      invariant OnBoard(cells[i..])
      invariant FirstSingle(possible, cells) == FirstSingle(possible, cells[i..])
    {
      var solveable := solveables[i];
      NodeAtCell(nodes, cells, i);
      FirstSingleStep(possible, cells, i);
      if |solveable.possibleLetters| == 1 {
        var p := Pos(solveable.column, solveable.row);
        var letter := solveable.possibleLetters[0];
        BoardUnchanged(nodes);
        return Some(Assignment(p, letter));
      }
    }
    BoardUnchanged(nodes);
    return None;
  }

  /** Rule 2 at position i of `cells`: take that cell, or go on with the rest. */
  lemma FirstSingleStep(possible: seq<seq<char>>, cells: seq<Pos>, i: int)
    requires |possible| == CellCount && OnBoard(cells) && 0 <= i < |cells|
    ensures OnBoard(cells[i..]) && OnBoard(cells[i + 1..])
    ensures 0 <= Index(cells[i]) < CellCount
    ensures FirstSingle(possible, cells[i..]) ==
      var c := possible[Index(cells[i])];
      if |c| == 1 then Some(Assignment(cells[i], c[0])) else FirstSingle(possible, cells[i + 1..])
  {
    assert cells[i..][0] == cells[i] && cells[i..][1..] == cells[i + 1..];
  }

  /** `Solve`: reset and prune, then commit a letter by rule 1 or, when
      rule 1 finds none, by rule 2. The new letters and lists and the
      result are those of `SolveRound` on the old ones. */
  method Solve(nodes: array2<Node>, connections: set<(char, char)>, allLetters: seq<char>) returns (progress: bool)
    requires Valid(nodes)
    modifies Objects(nodes)
    ensures Round(Letters(nodes), Possible(nodes), progress) ==
            SolveRound(old(Letters(nodes)), old(Possible(nodes)), connections, allLetters)
  {
    ghost var g, before := Letters(nodes), Possible(nodes);
    var remainingLetters := ResetAndPrune(nodes, connections, allLetters);
    ghost var pruned := Possible(nodes);
    var found := FindUniqueLetter(nodes, remainingLetters);
    assert Letters(nodes) == g && Possible(nodes) == pruned;
    if found.None? {
      found := FindSingleLetter(nodes);
      assert Letters(nodes) == g && Possible(nodes) == pruned;
    }
    assert found == Decide(pruned, remainingLetters, UnsolvedCells(g));
    SolveRoundCases(g, before, connections, allLetters);
    if found.Some? {
      var p := found.value.cell;
      InObjects(nodes, p);
      Commit(nodes, p, found.value.letter);
      return true;
    }
    return false;
  }

  /** `while (Solve(nodes, connections, allLetters)) { }` in `Main`, with
      the letters 'A'..'Y'. It stops: every round that returns true solves
      one more node. When it stops, another round would change nothing;
      letters already placed stay, and no letter ends up on two nodes that
      was not on two nodes before. `rounds` counts the rounds that made
      progress, and the final board is the round after step `rounds` of
      `Run` from the starting board. */
  method SolveUntilStalled(nodes: array2<Node>, connections: set<(char, char)>) returns (ghost rounds: nat)
    requires Valid(nodes)
    modifies Objects(nodes)
    ensures SolveRound(Letters(nodes), Possible(nodes), connections, AllLetters()) ==
            Round(Letters(nodes), Possible(nodes), false)
    ensures forall k :: 0 <= k < CellCount && old(Letters(nodes))[k] != Blank ==> Letters(nodes)[k] == old(Letters(nodes))[k]
    ensures NoDuplicateLetters(old(Letters(nodes))) ==> NoDuplicateLetters(Letters(nodes))
    ensures rounds == |UnsolvedCells(old(Letters(nodes)))| - |UnsolvedCells(Letters(nodes))| && rounds <= CellCount
    ensures var s := Run(old(Letters(nodes)), old(Possible(nodes)), connections, AllLetters(), rounds);
      s.progress && SolveRound(s.letters, s.possible, connections, AllLetters()) == Round(Letters(nodes), Possible(nodes), false)
  {
    var allLetters := AllLetters();
    assert Blank !in allLetters;
    ghost var start, startPossible := Letters(nodes), Possible(nodes);
    rounds := 0;
    while true
      invariant Valid(nodes) && Tracks(nodes, connections, allLetters, start, startPossible, rounds) && rounds <= CellCount
      decreases CellCount - rounds
    {
      var progress := SolveTurn(nodes, connections, allLetters, start, startPossible, rounds);
      if !progress {
        break;
      }
      rounds := rounds + 1;
    }
  }

  /** After `rounds` calls of `Solve` that returned true from letters
      `start` and lists `startPossible`, the board is what `Run` says. */
  ghost predicate Tracks(nodes: array2<Node>, connections: set<(char, char)>, allLetters: seq<char>,
                         start: seq<char>, startPossible: seq<seq<char>>, rounds: nat)
    requires Valid(nodes)
    reads nodes, Objects(nodes)
  {
    |start| == CellCount && |startPossible| == CellCount &&
    Run(start, startPossible, connections, allLetters, rounds) == Round(Letters(nodes), Possible(nodes), true)
  }

  /** One turn of `Main`'s loop: `Solve` on the board that `rounds` calls
      returning true have left. If it returns true, the board is the next
      step of `Run`, and fewer than 25 calls returned true before it (each
      solved a cell); if false, the loop ends with the board `Main` then
      prints. */
  method SolveTurn(nodes: array2<Node>, connections: set<(char, char)>, allLetters: seq<char>,
                   ghost start: seq<char>, ghost startPossible: seq<seq<char>>, ghost rounds: nat)
    returns (progress: bool)
    requires Valid(nodes) && Blank !in allLetters && Tracks(nodes, connections, allLetters, start, startPossible, rounds)
    modifies Objects(nodes)
    ensures Valid(nodes)
    ensures progress ==> rounds < CellCount && Tracks(nodes, connections, allLetters, start, startPossible, rounds + 1)
    ensures !progress ==>
      SolveRound(Letters(nodes), Possible(nodes), connections, allLetters) == Round(Letters(nodes), Possible(nodes), false) &&
      (forall k :: 0 <= k < CellCount && start[k] != Blank ==> Letters(nodes)[k] == start[k]) &&
      (NoDuplicateLetters(start) ==> NoDuplicateLetters(Letters(nodes))) &&
      rounds == |UnsolvedCells(start)| - |UnsolvedCells(Letters(nodes))| && rounds <= CellCount &&
      var s := Run(start, startPossible, connections, allLetters, rounds);
      s.progress && SolveRound(s.letters, s.possible, connections, allLetters) == Round(Letters(nodes), Possible(nodes), false)
  {
    RunStep(start, startPossible, connections, allLetters, rounds);
    ScanLength(start, false, CellCount);
    progress := Solve(nodes, connections, allLetters);
    if !progress {
      RunEnds(start, startPossible, connections, allLetters, rounds, Round(Letters(nodes), Possible(nodes), false));
    }
  }
}
