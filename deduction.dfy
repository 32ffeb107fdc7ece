/** What one call of `Solve` computes, stated on values: the board's letters
    as a row-major sequence of 25 characters (the blank ' ' marks an
    unsolved node), the letters not yet placed, each unsolved node's
    candidates after pruning, and the two rules that pick at most one new
    letter. */
module Deduction {
  import opened Seqs
  import opened Geometry

  /** `Node.Letter` of an unsolved node; `Node.Solved` is `Letter != ' '`. */
  const Blank: char := ' '

  /** `allLetters` as `Main` builds it: 'A' to 'Y', one letter per cell. */
  function AllLetters(): (letters: seq<char>)
    ensures |letters| == CellCount
    ensures forall x :: x in letters <==> 'A' <= x <= 'Y'
    ensures forall i, j :: 0 <= i < j < |letters| ==> letters[i] < letters[j]
  {
    var s := seq(25, i requires 0 <= i < 25 => ('A' as int + i) as char);
    forall x | 'A' <= x <= 'Y'
      ensures x in s
    {
      assert s[x as int - 'A' as int] == x;
    }
    s
  }

  /** No letter stands on two solved nodes. */
  ghost predicate NoDuplicateLetters(g: seq<char>) {
    forall i, j :: 0 <= i < j < |g| && g[i] != Blank ==> g[i] != g[j]
  }

  /** The cells numbered below k that are solved (or unsolved), in
      row-major order: the part of a scan done after k steps. */
  function ScanBelow(g: seq<char>, solved: bool, k: int): (cells: seq<Pos>)
    requires |g| == CellCount && 0 <= k <= CellCount
    ensures forall p :: p in cells <==> InBounds(p) && Index(p) < k && (g[Index(p)] != Blank) == solved
    ensures forall i, j :: 0 <= i < j < |cells| ==> Index(cells[i]) < Index(cells[j])
  {
    if k == 0 then []
    else
      var rest := ScanBelow(g, solved, k - 1);
      IndexOfPos(k - 1);
      assert forall p :: InBounds(p) && Index(p) == k - 1 ==> p == PosOf(k - 1);
      rest + (if (g[k - 1] != Blank) == solved then [PosOf(k - 1)] else [])
  }

  /** `AllSolvedNodes`: the solved cells, rows outer and columns inner. */
  function SolvedCells(g: seq<char>): (cells: seq<Pos>)
    requires |g| == CellCount
    ensures forall p :: p in cells <==> InBounds(p) && g[Index(p)] != Blank
    ensures forall i, j :: 0 <= i < j < |cells| ==> Index(cells[i]) < Index(cells[j])
  {
    ScanBelow(g, true, CellCount)
  }

  /** `AllUnsolvedNodes`: the unsolved cells, rows outer and columns inner. */
  function UnsolvedCells(g: seq<char>): (cells: seq<Pos>)
    requires |g| == CellCount
    ensures forall p :: p in cells <==> InBounds(p) && g[Index(p)] == Blank
    ensures forall i, j :: 0 <= i < j < |cells| ==> Index(cells[i]) < Index(cells[j])
  {
    ScanBelow(g, false, CellCount)
  }

  /** A scan of k cells finds at most k of them. */
  lemma {:induction false} ScanLength(g: seq<char>, solved: bool, k: int)
    requires |g| == CellCount && 0 <= k <= CellCount
    ensures |ScanBelow(g, solved, k)| <= k
  {
    if k > 0 {
      ScanLength(g, solved, k - 1);
    }
  }

  /** `solvedLetters`: the letters of the solved nodes, in scan order. */
  function SolvedLetters(g: seq<char>): seq<char>
    requires |g| == CellCount
  {
    var cells := SolvedCells(g);
    seq(|cells|, i requires 0 <= i < |cells| => g[Index(cells[i])])
  }

  /** `remainingLetters = allLetters.Except(solvedLetters)`. */
  function Remaining(g: seq<char>, all: seq<char>): seq<char>
    requires |g| == CellCount
  {
    Except(all, SolvedLetters(g))
  }

  lemma SolvedLettersMembers(g: seq<char>, x: char)
    requires |g| == CellCount
    ensures x in SolvedLetters(g) <==> x != Blank && x in g
  {
    SolvedLettersSound(g, x);
    SolvedLettersComplete(g, x);
  }

  lemma SolvedLettersSound(g: seq<char>, x: char)
    requires |g| == CellCount
    ensures x in SolvedLetters(g) ==> x != Blank && x in g
  {
    var cells := SolvedCells(g);
    var sl := SolvedLetters(g);
    if x in sl {
      var i :| 0 <= i < |sl| && sl[i] == x;
      assert sl[i] == g[Index(cells[i])];
      assert cells[i] in cells;
      assert InBounds(cells[i]);
    }
  }

  lemma SolvedLettersComplete(g: seq<char>, x: char)
    requires |g| == CellCount
    ensures x != Blank && x in g ==> x in SolvedLetters(g)
  {
    var cells := SolvedCells(g);
    var sl := SolvedLetters(g);
    if x != Blank && x in g {
      var k :| 0 <= k < |g| && g[k] == x;
      IndexOfPos(k);
      assert PosOf(k) in cells;
      var i :| 0 <= i < |cells| && cells[i] == PosOf(k);
      assert sl[i] == x;
    }
  }

  /** A letter remains when it is in the alphabet and on no solved node. */
  lemma RemainingMembers(g: seq<char>, all: seq<char>, x: char)
    requires |g| == CellCount
    ensures x in Remaining(g, all) <==> x in all && (x == Blank || x !in g)
    ensures NoDuplicates(Remaining(g, all))
  {
    SolvedLettersMembers(g, x);
  }

  /** With the alphabet A..Y, the remaining letters are the alphabet minus
      the letters on the board, still in alphabet order. */
  lemma {:induction false} RemainingInAlphabetOrder(g: seq<char>)
    requires |g| == CellCount
    ensures Remaining(g, AllLetters()) == Keep(AllLetters(), set x | x in AllLetters() && x !in g)
  {
    var all := AllLetters();
    var seen := set y | y in SolvedLetters(g);
    NoDuplicatesIff(all);
    ExceptFromDistinct(all, seen);
    forall x | x in all
      ensures x in (set x | x in all && x !in seen) <==> x in (set x | x in all && x !in g)
    {
      SolvedLettersMembers(g, x);
    }
    KeepEquiv(all, set x | x in all && x !in seen, set x | x in all && x !in g);
  }

  /** Some letter x is required next to a, and b next to x. */
  ghost predicate TwoHop(connections: set<(char, char)>, a: char, b: char) {
    exists x :: (a, x) in connections && (x, b) in connections
  }

  /** The solved node at s leaves letter ch possible at cell p: the direct
      rule and the two-hop rule of the pruning loop, for this one node. */
  ghost predicate Permits(g: seq<char>, connections: set<(char, char)>, p: Pos, ch: char, s: Pos)
    requires |g| == CellCount && InBounds(s)
  {
    var sl := g[Index(s)];
    ((ch, sl) in connections ==> p in Neighbours(s)) &&
    (TwoHop(connections, ch, sl) ==> p in NeighboursOfNeighbours(Neighbours(s)))
  }

  /** No solved node rules out ch at p. */
  ghost predicate Allowed(g: seq<char>, connections: set<(char, char)>, p: Pos, ch: char)
    requires |g| == CellCount
  {
    forall s :: s in SolvedCells(g) ==> Permits(g, connections, p, ch, s)
  }

  /** The candidates of an unsolved cell p once pruning is over: the
      remaining letters, in order, that no solved node rules out. */
  ghost function Candidates(g: seq<char>, connections: set<(char, char)>, all: seq<char>, p: Pos): seq<char>
    requires |g| == CellCount
  {
    var rem := Remaining(g, all);
    Keep(rem, set ch | ch in rem && Allowed(g, connections, p, ch))
  }

  /** `PossibleLetters` of every node after reset and pruning: solved nodes
      keep theirs, unsolved ones get their candidates. */
  ghost function Pruned(g: seq<char>, possible: seq<seq<char>>, connections: set<(char, char)>, all: seq<char>): seq<seq<char>>
    requires |g| == CellCount && |possible| == CellCount
  {
    seq(CellCount, k requires 0 <= k < CellCount =>
      if g[k] != Blank then possible[k] else Candidates(g, connections, all, PosOf(k)))
  }

  /** Every cell of the list lies on the board. */
  predicate OnBoard(cells: seq<Pos>) {
    forall i :: 0 <= i < |cells| ==> InBounds(cells[i])
  }

  /** Dropping the last cell of a list in scan order leaves one in scan
      order, all of whose cells come before the dropped one. */
  lemma ScanOrderedInit(cells: seq<Pos>)
    requires |cells| > 0 && ScanOrdered(cells)
    ensures ScanOrdered(cells[..|cells| - 1])
    ensures forall p :: p in cells[..|cells| - 1] ==> Index(p) < Index(cells[|cells| - 1])
  {
    var init := cells[..|cells| - 1];
    forall i, j | 0 <= i < j < |init| ensures Index(init[i]) < Index(init[j]) {
      assert init[i] == cells[i] && init[j] == cells[j];
    }
    forall p | p in init ensures Index(p) < Index(cells[|cells| - 1]) {
      var t :| 0 <= t < |init| && init[t] == p;
      assert cells[t] == p;
    }
  }

  /** `possibles` in rule 1: the cells of `cells` whose candidate list
      holds ch, in order, each as often as in `cells`. */
  function HoldersAmong(possible: seq<seq<char>>, ch: char, cells: seq<Pos>): (r: seq<Pos>)
    requires |possible| == CellCount && OnBoard(cells)
    ensures forall p :: p in r <==> p in cells && ch in possible[Index(p)]
    ensures ScanOrdered(cells) ==> ScanOrdered(r)
  {
    if cells == [] then []
    else
      var n := |cells| - 1;
      var last := cells[n];
      var init := cells[..n];
      var rest := HoldersAmong(possible, ch, init);
      assert forall p :: p in cells <==> p in init || p == last;
      assert ScanOrdered(cells) ==> ScanOrdered(init) && forall p :: p in rest ==> Index(p) < Index(last) by {
        if ScanOrdered(cells) {
          ScanOrderedInit(cells);
        }
      }
      rest + (if ch in possible[Index(last)] then [last] else [])
  }

  /** q is the one cell among `cells` whose list holds ch. */
  ghost predicate SoleHolder(possible: seq<seq<char>>, ch: char, cells: seq<Pos>, q: Pos)
    requires |possible| == CellCount && OnBoard(cells)
  {
    q in cells && ch in possible[Index(q)] &&
    forall d :: d in cells && ch in possible[Index(d)] ==> d == q
  }

  /** Over cells in scan order, such as the unsolved cells, rule 1's test
      `possibles.Count() == 1` holds exactly when a single cell holds the
      letter, and then `possibles` is that cell. */
  lemma SoleHolderIff(possible: seq<seq<char>>, ch: char, cells: seq<Pos>, q: Pos)
    requires |possible| == CellCount && OnBoard(cells) && ScanOrdered(cells)
    ensures HoldersAmong(possible, ch, cells) == [q] <==> SoleHolder(possible, ch, cells, q)
    ensures |HoldersAmong(possible, ch, cells)| == 1 <==> exists d :: SoleHolder(possible, ch, cells, d)
  {
    var h := HoldersAmong(possible, ch, cells);
    if |h| == 1 {
      assert h[0] in h;
      assert SoleHolder(possible, ch, cells, h[0]);
    }
    if exists d :: SoleHolder(possible, ch, cells, d) {
      var d :| SoleHolder(possible, ch, cells, d);
      OneOrdered(h, d);
    }
    if SoleHolder(possible, ch, cells, q) {
      OneOrdered(h, q);
    }
  }

  /** A list in scan order whose only member is q is [q]. */
  lemma OneOrdered(h: seq<Pos>, q: Pos)
    requires ScanOrdered(h) && q in h && forall p :: p in h ==> p == q
    ensures h == [q]
  {
    var last := |h| - 1;
    assert h[0] in h && h[last] in h;
    assert Index(h[0]) == Index(h[last]);
  }

  datatype Assignment = Assignment(cell: Pos, letter: char)

  datatype Option<T> = None | Some(value: T)

  /** Rule 1 over `letters`: the first letter that exactly one of `cells`
      can still take, with that cell. */
  function FirstUnique(possible: seq<seq<char>>, cells: seq<Pos>, letters: seq<char>): Option<Assignment>
    requires |possible| == CellCount && OnBoard(cells)
  {
    if letters == [] then None
    else
      var h := HoldersAmong(possible, letters[0], cells);
      if |h| == 1 then Some(Assignment(h[0], letters[0]))
      else FirstUnique(possible, cells, letters[1..])
  }

  /** Rule 2 over `cells`: the first cell with exactly one candidate, with
      that candidate. */
  function FirstSingle(possible: seq<seq<char>>, cells: seq<Pos>): Option<Assignment>
    requires |possible| == CellCount && OnBoard(cells)
  {
    if cells == [] then None
    else
      var c := possible[Index(cells[0])];
      if |c| == 1 then Some(Assignment(cells[0], c[0]))
      else FirstSingle(possible, cells[1..])
  }

  /** The assignment a call of `Solve` commits, if any: rule 1 over the
      remaining letters in order, and rule 2 over the unsolved cells in
      row-major order only when rule 1 finds nothing. */
  function Decide(possible: seq<seq<char>>, letters: seq<char>, cells: seq<Pos>): Option<Assignment>
    requires |possible| == CellCount && OnBoard(cells)
  {
    var one := FirstUnique(possible, cells, letters);
    if one.Some? then one else FirstSingle(possible, cells)
  }

  /** The board after a call of `Solve`: letters, candidate lists, result. */
  datatype Round = Round(letters: seq<char>, possible: seq<seq<char>>, progress: bool)

  /** One call of `Solve` on letters g and candidate lists `possible`: reset
      and prune, then commit what the rules decide; the node that gets a
      letter has its list cleared. */
  ghost function SolveRound(g: seq<char>, possible: seq<seq<char>>, connections: set<(char, char)>, all: seq<char>): Round
    requires |g| == CellCount && |possible| == CellCount
  {
    var pruned := Pruned(g, possible, connections, all);
    match Decide(pruned, Remaining(g, all), UnsolvedCells(g))
    case None => Round(g, pruned, false)
    case Some(a) =>
      assert InBounds(a.cell) by { DecideSound(pruned, Remaining(g, all), UnsolvedCells(g)); }
      Round(g[Index(a.cell) := a.letter], pruned[Index(a.cell) := []], true)
  }

  // ---------------------------------------------------------------------
  // Candidate lists

  /** The direct rule restricts ch to the cells next to s, the two-hop rule
      to the cells within two king moves of s. */
  lemma PermitsByDistance(g: seq<char>, connections: set<(char, char)>, p: Pos, ch: char, s: Pos)
    requires |g| == CellCount && InBounds(p) && InBounds(s)
    ensures Permits(g, connections, p, ch, s) <==>
      ((ch, g[Index(s)]) in connections ==> Distance(s, p) == 1) &&
      (TwoHop(connections, ch, g[Index(s)]) ==> Distance(s, p) <= 2)
  {
    NeighboursMembers(s, p);
    TwoHopRegion(s, p);
  }

  /** ch is still a candidate of unsolved cell p exactly when it remains and
      every solved node s with letter sl keeps it: p touches s if (ch, sl)
      is a connection, and p is within two moves of s if ch and sl are
      joined through some letter. */
  lemma CandidateIff(g: seq<char>, connections: set<(char, char)>, all: seq<char>, p: Pos, ch: char)
    requires |g| == CellCount && InBounds(p)
    ensures ch in Candidates(g, connections, all, p) <==>
      ch in all && (ch == Blank || ch !in g) &&
      forall s :: s in SolvedCells(g) ==>
        ((ch, g[Index(s)]) in connections ==> Distance(s, p) == 1) &&
        (TwoHop(connections, ch, g[Index(s)]) ==> Distance(s, p) <= 2)
  {
    RemainingMembers(g, all, ch);
    forall s | s in SolvedCells(g)
      ensures Permits(g, connections, p, ch, s) <==>
        ((ch, g[Index(s)]) in connections ==> Distance(s, p) == 1) &&
        (TwoHop(connections, ch, g[Index(s)]) ==> Distance(s, p) <= 2)
    {
      PermitsByDistance(g, connections, p, ch, s);
    }
  }

  /** A candidate list is a duplicate-free subsequence of the remaining
      letters: pruning only ever removes entries. */
  lemma CandidatesShape(g: seq<char>, connections: set<(char, char)>, all: seq<char>, p: Pos)
    requires |g| == CellCount
    ensures NoDuplicates(Candidates(g, connections, all, p))
    ensures SubsequenceOf(Candidates(g, connections, all, p), Remaining(g, all))
  {
    var rem := Remaining(g, all);
    RemainingMembers(g, all, Blank);
    KeepIsSubsequence(rem, set ch | ch in rem && Allowed(g, connections, p, ch));
  }

  // ---------------------------------------------------------------------
  // The two rules

  /** Rule 1 picks letters[i] and its only holder exactly when letters[i]
      has one holder and no earlier letter has exactly one. */
  lemma FirstUniqueIff(possible: seq<seq<char>>, cells: seq<Pos>, letters: seq<char>, a: Assignment)
    requires |possible| == CellCount && OnBoard(cells)
    ensures FirstUnique(possible, cells, letters) == Some(a) <==>
      exists i :: 0 <= i < |letters| && letters[i] == a.letter &&
        HoldersAmong(possible, letters[i], cells) == [a.cell] &&
        forall j :: 0 <= j < i ==> |HoldersAmong(possible, letters[j], cells)| != 1
  {
    if FirstUnique(possible, cells, letters) == Some(a) {
      FirstUniqueFound(possible, cells, letters, a);
    }
    if exists i :: 0 <= i < |letters| && letters[i] == a.letter &&
         HoldersAmong(possible, letters[i], cells) == [a.cell] &&
         forall j :: 0 <= j < i ==> |HoldersAmong(possible, letters[j], cells)| != 1
    {
      var i :| 0 <= i < |letters| && letters[i] == a.letter &&
        HoldersAmong(possible, letters[i], cells) == [a.cell] &&
        forall j :: 0 <= j < i ==> |HoldersAmong(possible, letters[j], cells)| != 1;
      FirstUniqueSkip(possible, cells, letters, i);
      assert letters[i..][0] == letters[i];
    }
  }

  /** Rule 1 in the words of the source: over cells in scan order, it
      picks letters[i] and cell q exactly when q is the only cell that can
      take letters[i] and every earlier letter has no single holder. */
  lemma FirstUniqueSole(possible: seq<seq<char>>, cells: seq<Pos>, letters: seq<char>, a: Assignment)
    requires |possible| == CellCount && OnBoard(cells) && ScanOrdered(cells)
    ensures FirstUnique(possible, cells, letters) == Some(a) <==>
      exists i :: 0 <= i < |letters| && letters[i] == a.letter &&
        SoleHolder(possible, letters[i], cells, a.cell) &&
        forall j :: 0 <= j < i ==> forall d :: !SoleHolder(possible, letters[j], cells, d)
  {
    FirstUniqueIff(possible, cells, letters, a);
    forall i | 0 <= i < |letters|
      ensures HoldersAmong(possible, letters[i], cells) == [a.cell] <==> SoleHolder(possible, letters[i], cells, a.cell)
      ensures |HoldersAmong(possible, letters[i], cells)| == 1 <==> exists d :: SoleHolder(possible, letters[i], cells, d)
    {
      SoleHolderIff(possible, letters[i], cells, a.cell);
    }
  }

  /** Letters without exactly one holder are passed over. */
  lemma {:induction false} FirstUniqueSkip(possible: seq<seq<char>>, cells: seq<Pos>, letters: seq<char>, i: int)
    requires |possible| == CellCount && OnBoard(cells) && 0 <= i <= |letters|
    requires forall j :: 0 <= j < i ==> |HoldersAmong(possible, letters[j], cells)| != 1
    ensures FirstUnique(possible, cells, letters) == FirstUnique(possible, cells, letters[i..])
  {
    if i > 0 {
      FirstUniqueSkip(possible, cells, letters, i - 1);
      var t := letters[i - 1..];
      assert t[0] == letters[i - 1] && t[1..] == letters[i..];
      assert |HoldersAmong(possible, t[0], cells)| != 1;
    }
  }

  /** What rule 1 picks is a letter with one holder, the first such. */
  lemma {:induction false} FirstUniqueFound(possible: seq<seq<char>>, cells: seq<Pos>, letters: seq<char>, a: Assignment)
    requires |possible| == CellCount && OnBoard(cells)
    requires FirstUnique(possible, cells, letters) == Some(a)
    ensures exists i :: 0 <= i < |letters| && letters[i] == a.letter &&
              HoldersAmong(possible, letters[i], cells) == [a.cell] &&
              forall j :: 0 <= j < i ==> |HoldersAmong(possible, letters[j], cells)| != 1
  {
    var h := HoldersAmong(possible, letters[0], cells);
    if |h| == 1 {
      assert h == [a.cell];
    } else {
      FirstUniqueFound(possible, cells, letters[1..], a);
      var i :| 0 <= i < |letters[1..]| && letters[1..][i] == a.letter &&
        HoldersAmong(possible, letters[1..][i], cells) == [a.cell] &&
        forall j :: 0 <= j < i ==> |HoldersAmong(possible, letters[1..][j], cells)| != 1;
      forall j | 0 <= j < i + 1
        ensures |HoldersAmong(possible, letters[j], cells)| != 1
      {
        if j > 0 {
          assert letters[j] == letters[1..][j - 1];
        }
      }
      assert letters[i + 1] == letters[1..][i];
    }
  }

  /** Rule 1 finds nothing exactly when no letter has exactly one holder. */
  lemma {:induction false} FirstUniqueNone(possible: seq<seq<char>>, cells: seq<Pos>, letters: seq<char>)
    requires |possible| == CellCount && OnBoard(cells)
    ensures FirstUnique(possible, cells, letters) == None <==>
      forall j :: 0 <= j < |letters| ==> |HoldersAmong(possible, letters[j], cells)| != 1
  {
    if letters != [] {
      FirstUniqueNone(possible, cells, letters[1..]);
      assert forall j :: 0 < j < |letters| ==> letters[j] == letters[1..][j - 1];
    }
  }

  /** Rule 2 picks cells[i] and its one candidate exactly when no earlier
      cell has exactly one candidate. */
  lemma {:induction false} FirstSingleIff(possible: seq<seq<char>>, cells: seq<Pos>, a: Assignment)
    requires |possible| == CellCount && OnBoard(cells)
    ensures FirstSingle(possible, cells) == Some(a) <==>
      exists i :: 0 <= i < |cells| && cells[i] == a.cell &&
        possible[Index(cells[i])] == [a.letter] &&
        forall j :: 0 <= j < i ==> |possible[Index(cells[j])]| != 1
  {
    if cells != [] {
      var c := possible[Index(cells[0])];
      assert OnBoard(cells[1..]) by {
        forall p | p in cells[1..] ensures InBounds(p) {
          assert p in cells;
        }
      }
      FirstSingleIff(possible, cells[1..], a);
      if |c| == 1 {
        if FirstSingle(possible, cells) == Some(a) {
          assert c == [a.letter];
        }
      } else {
        if exists i :: 0 <= i < |cells| && cells[i] == a.cell &&
             possible[Index(cells[i])] == [a.letter] &&
             forall j :: 0 <= j < i ==> |possible[Index(cells[j])]| != 1
        {
          var i :| 0 <= i < |cells| && cells[i] == a.cell &&
            possible[Index(cells[i])] == [a.letter] &&
            forall j :: 0 <= j < i ==> |possible[Index(cells[j])]| != 1;
          assert i > 0;
          assert cells[1..][i - 1] == cells[i];
          forall j | 0 <= j < i - 1
            ensures |possible[Index(cells[1..][j])]| != 1
          {
            assert cells[1..][j] == cells[j + 1];
          }
        }
        if FirstSingle(possible, cells[1..]) == Some(a) {
          var i :| 0 <= i < |cells[1..]| && cells[1..][i] == a.cell &&
            possible[Index(cells[1..][i])] == [a.letter] &&
            forall j :: 0 <= j < i ==> |possible[Index(cells[1..][j])]| != 1;
          forall j | 0 <= j < i + 1
            ensures |possible[Index(cells[j])]| != 1
          {
            if j > 0 {
              assert cells[j] == cells[1..][j - 1];
            }
          }
          assert cells[i + 1] == cells[1..][i];
        }
      }
    }
  }

  /** Rule 2 finds nothing exactly when no cell has exactly one candidate. */
  lemma {:induction false} FirstSingleNone(possible: seq<seq<char>>, cells: seq<Pos>)
    requires |possible| == CellCount && OnBoard(cells)
    ensures FirstSingle(possible, cells) == None <==>
      forall j :: 0 <= j < |cells| ==> |possible[Index(cells[j])]| != 1
  {
    if cells != [] {
      assert OnBoard(cells[1..]) by {
        forall p | p in cells[1..] ensures InBounds(p) {
          assert p in cells;
        }
      }
      FirstSingleNone(possible, cells[1..]);
      assert forall j :: 0 < j < |cells| ==> cells[j] == cells[1..][j - 1];
    }
  }

  /** What the rules commit is one of the given cells and a letter on its
      candidate list. */
  lemma DecideSound(possible: seq<seq<char>>, letters: seq<char>, cells: seq<Pos>)
    requires |possible| == CellCount && OnBoard(cells)
    ensures Decide(possible, letters, cells).Some? ==>
      var a := Decide(possible, letters, cells).value;
      a.cell in cells && a.letter in possible[Index(a.cell)]
  {
    var one := FirstUnique(possible, cells, letters);
    if one.Some? {
      var a := one.value;
      FirstUniqueIff(possible, cells, letters, a);
      var i :| 0 <= i < |letters| && letters[i] == a.letter && HoldersAmong(possible, letters[i], cells) == [a.cell] &&
        forall j :: 0 <= j < i ==> |HoldersAmong(possible, letters[j], cells)| != 1;
      assert a.cell in HoldersAmong(possible, letters[i], cells);
    } else {
      var two := FirstSingle(possible, cells);
      if two.Some? {
        var a := two.value;
        FirstSingleIff(possible, cells, a);
        assert a.letter in [a.letter];
      }
    }
  }

  // ---------------------------------------------------------------------
  // One round

  /** Pruning leaves the lists of solved nodes alone and gives every
      unsolved node its candidates. */
  lemma PrunedCells(g: seq<char>, possible: seq<seq<char>>, connections: set<(char, char)>, all: seq<char>)
    requires |g| == CellCount && |possible| == CellCount
    ensures |Pruned(g, possible, connections, all)| == CellCount
    ensures forall k :: 0 <= k < CellCount && g[k] != Blank ==> Pruned(g, possible, connections, all)[k] == possible[k]
    ensures forall k :: 0 <= k < CellCount && g[k] == Blank ==>
      Pruned(g, possible, connections, all)[k] == Candidates(g, connections, all, PosOf(k))
  {
  }

  lemma SolveRoundCases(g: seq<char>, possible: seq<seq<char>>, connections: set<(char, char)>, all: seq<char>)
    requires |g| == CellCount && |possible| == CellCount
    ensures var pruned := Pruned(g, possible, connections, all);
      var d := Decide(pruned, Remaining(g, all), UnsolvedCells(g));
      |pruned| == CellCount &&
      (d.None? ==> SolveRound(g, possible, connections, all) == Round(g, pruned, false)) &&
      (d.Some? ==>
        d.value.cell in UnsolvedCells(g) && d.value.letter in pruned[Index(d.value.cell)] &&
        SolveRound(g, possible, connections, all) ==
          Round(g[Index(d.value.cell) := d.value.letter], pruned[Index(d.value.cell) := []], true))
  {
    PrunedCells(g, possible, connections, all);
    DecideSound(Pruned(g, possible, connections, all), Remaining(g, all), UnsolvedCells(g));
  }

  /** One round changes at most one cell, an unsolved one, and puts on it a
      letter that was not yet on the board; solved cells keep their letters
      and lists; without progress the letters are unchanged. */
  lemma SolveRoundChange(g: seq<char>, possible: seq<seq<char>>, connections: set<(char, char)>, all: seq<char>)
    requires |g| == CellCount && |possible| == CellCount
    ensures var r := SolveRound(g, possible, connections, all);
      |r.letters| == CellCount && |r.possible| == CellCount &&
      (forall k :: 0 <= k < CellCount && g[k] != Blank ==> r.letters[k] == g[k] && r.possible[k] == possible[k]) &&
      (r.progress ==> exists k :: 0 <= k < CellCount && g[k] == Blank &&
                        r.letters == g[k := r.letters[k]] && r.letters[k] in Remaining(g, all) &&
                        r.possible[k] == []) &&
      (!r.progress ==> r.letters == g)
  {
    PrunedCells(g, possible, connections, all);
    SolveRoundCases(g, possible, connections, all);
    var pruned := Pruned(g, possible, connections, all);
    var r := SolveRound(g, possible, connections, all);
    var d := Decide(pruned, Remaining(g, all), UnsolvedCells(g));
    if d.Some? {
      var a := d.value;
      PosOfIndex(a.cell);
      var i := Index(a.cell);
      assert g[i] == Blank;
      assert a.letter in Candidates(g, connections, all, PosOf(i));
      assert r.letters == g[i := a.letter];
      assert r.possible == pruned[i := []];
      forall k | 0 <= k < CellCount && g[k] != Blank
        ensures r.letters[k] == g[k] && r.possible[k] == possible[k]
      {
        assert k != i;
      }
      assert r.letters == g[i := r.letters[i]];
    }
  }

  /** Pruning reads the old lists of solved nodes only. */
  lemma PrunedIgnoresUnsolved(g: seq<char>, p1: seq<seq<char>>, p2: seq<seq<char>>, connections: set<(char, char)>, all: seq<char>)
    requires |g| == CellCount && |p1| == CellCount && |p2| == CellCount
    requires forall k :: 0 <= k < CellCount && g[k] != Blank ==> p1[k] == p2[k]
    ensures Pruned(g, p1, connections, all) == Pruned(g, p2, connections, all)
  {
  }

  /** A round that makes no progress leaves a board on which the next
      round changes nothing: calling `Solve` again returns false on the
      same letters and lists. */
  lemma StalledIsFixpoint(g: seq<char>, possible: seq<seq<char>>, connections: set<(char, char)>, all: seq<char>)
    requires |g| == CellCount && |possible| == CellCount
    requires !SolveRound(g, possible, connections, all).progress
    ensures var r := SolveRound(g, possible, connections, all);
      |r.letters| == CellCount && |r.possible| == CellCount &&
      SolveRound(r.letters, r.possible, connections, all) == r
  {
    SolveRoundCases(g, possible, connections, all);
    var pruned := Pruned(g, possible, connections, all);
    PrunedCells(g, possible, connections, all);
    PrunedCells(g, pruned, connections, all);
    assert Pruned(g, pruned, connections, all) == pruned;
    SolveRoundCases(g, pruned, connections, all);
  }

  /** If the board has no letter twice, one round keeps it so. */
  lemma SolveRoundNoDuplicates(g: seq<char>, possible: seq<seq<char>>, connections: set<(char, char)>, all: seq<char>)
    requires |g| == CellCount && |possible| == CellCount
    requires NoDuplicateLetters(g)
    ensures NoDuplicateLetters(SolveRound(g, possible, connections, all).letters)
  {
    SolveRoundChange(g, possible, connections, all);
    var r := SolveRound(g, possible, connections, all);
    if r.progress {
      var k :| 0 <= k < CellCount && g[k] == Blank && r.letters == g[k := r.letters[k]] &&
        r.letters[k] in Remaining(g, all) && r.possible[k] == [];
      var x := r.letters[k];
      RemainingMembers(g, all, x);
      assert x == Blank || x !in g;
      forall i, j | 0 <= i < j < CellCount && r.letters[i] != Blank
        ensures r.letters[i] != r.letters[j]
      {
        if i == k {
          assert g[j] == r.letters[j];
        } else if j == k {
          assert g[i] == r.letters[i];
        } else {
          assert g[i] == r.letters[i] && g[j] == r.letters[j];
        }
      }
    }
  }

  /** What `Main`'s loop keeps from round to round, measured against the
      board it started on: letters placed at the start stay, a board
      without repeated letters stays so, and each round that makes
      progress leaves one unsolved cell fewer. */
  lemma RoundKeeps(start: seq<char>, g: seq<char>, possible: seq<seq<char>>, connections: set<(char, char)>, all: seq<char>)
    requires |start| == CellCount && |g| == CellCount && |possible| == CellCount && Blank !in all
    requires forall k :: 0 <= k < CellCount && start[k] != Blank ==> g[k] == start[k]
    requires NoDuplicateLetters(start) ==> NoDuplicateLetters(g)
    ensures var r := SolveRound(g, possible, connections, all);
      |r.letters| == CellCount &&
      (forall k :: 0 <= k < CellCount && start[k] != Blank ==> r.letters[k] == start[k]) &&
      (NoDuplicateLetters(start) ==> NoDuplicateLetters(r.letters)) &&
      |UnsolvedCells(r.letters)| == |UnsolvedCells(g)| - (if r.progress then 1 else 0)
  {
    SolveRoundChange(g, possible, connections, all);
    SolveRoundProgress(g, possible, connections, all);
    if NoDuplicateLetters(g) {
      SolveRoundNoDuplicates(g, possible, connections, all);
    }
  }

  /** `Main`'s loop `while (Solve(...))` after n calls from letters g and
      lists `possible`: each call starts from the board the previous one
      left, and once a call returns false the board stays as it left it.
      `progress` is the flag of the last call (true before the first).
      Letters placed at the start stay, and a board without repeated
      letters stays so. If the blank is not a letter and the last call
      returned true, every call solved one cell, so n is at most the
      number of cells unsolved at the start. */
  ghost function Run(g: seq<char>, possible: seq<seq<char>>, connections: set<(char, char)>, all: seq<char>, n: nat): (r: Round)
    requires |g| == CellCount && |possible| == CellCount
    ensures |r.letters| == CellCount && |r.possible| == CellCount
    ensures forall k :: 0 <= k < CellCount && g[k] != Blank ==> r.letters[k] == g[k]
    ensures NoDuplicateLetters(g) ==> NoDuplicateLetters(r.letters)
    ensures Blank !in all && r.progress ==>
      n <= |UnsolvedCells(g)| && |UnsolvedCells(r.letters)| == |UnsolvedCells(g)| - n
    decreases n
  {
    if n == 0 then Round(g, possible, true)
    else
      var prev := Run(g, possible, connections, all, n - 1);
      if !prev.progress then prev
      else
        var r := SolveRound(prev.letters, prev.possible, connections, all);
        SolveRoundChange(prev.letters, prev.possible, connections, all);
        assert NoDuplicateLetters(prev.letters) ==> NoDuplicateLetters(r.letters) by {
          if NoDuplicateLetters(prev.letters) {
            SolveRoundNoDuplicates(prev.letters, prev.possible, connections, all);
          }
        }
        assert Blank !in all ==>
          |UnsolvedCells(r.letters)| == |UnsolvedCells(prev.letters)| - (if r.progress then 1 else 0) by {
          if Blank !in all {
            SolveRoundProgress(prev.letters, prev.possible, connections, all);
          }
        }
        r
  }

  /** While the calls keep returning true, call n + 1 is a round on the
      board that call n left. */
  lemma RunStep(g: seq<char>, possible: seq<seq<char>>, connections: set<(char, char)>, all: seq<char>, n: nat)
    requires |g| == CellCount && |possible| == CellCount
    requires Run(g, possible, connections, all, n).progress
    ensures var prev := Run(g, possible, connections, all, n);
      Run(g, possible, connections, all, n + 1) == SolveRound(prev.letters, prev.possible, connections, all)
  {
  }

  /** When `Main`'s loop stops: after n calls that returned true, call
      n + 1 returned false and left `final`. That board is a fixpoint of
      `Solve`, keeps the letters placed at the start and repeats none that
      the start did not repeat, and the n calls solved n cells. */
  lemma RunEnds(g: seq<char>, possible: seq<seq<char>>, connections: set<(char, char)>, all: seq<char>, n: nat, final: Round)
    requires |g| == CellCount && |possible| == CellCount && Blank !in all
    requires Run(g, possible, connections, all, n).progress
    requires var s := Run(g, possible, connections, all, n);
      SolveRound(s.letters, s.possible, connections, all) == final && !final.progress
    ensures |final.letters| == CellCount && |final.possible| == CellCount
    ensures SolveRound(final.letters, final.possible, connections, all) == Round(final.letters, final.possible, false)
    ensures forall k :: 0 <= k < CellCount && g[k] != Blank ==> final.letters[k] == g[k]
    ensures NoDuplicateLetters(g) ==> NoDuplicateLetters(final.letters)
    ensures n == |UnsolvedCells(g)| - |UnsolvedCells(final.letters)| && n <= CellCount
  {
    var s := Run(g, possible, connections, all, n);
    SolveRoundChange(s.letters, s.possible, connections, all);
    StalledIsFixpoint(s.letters, s.possible, connections, all);
    ScanLength(g, false, CellCount);
  }

  /** With the blank not among the letters, a round that makes progress
      solves exactly one more cell, and one that does not solves none. */
  lemma SolveRoundProgress(g: seq<char>, possible: seq<seq<char>>, connections: set<(char, char)>, all: seq<char>)
    requires |g| == CellCount && |possible| == CellCount
    requires Blank !in all
    ensures var r := SolveRound(g, possible, connections, all);
      |r.letters| == CellCount &&
      |UnsolvedCells(r.letters)| == |UnsolvedCells(g)| - (if r.progress then 1 else 0)
  {
    SolveRoundChange(g, possible, connections, all);
    var r := SolveRound(g, possible, connections, all);
    if r.progress {
      var k :| 0 <= k < CellCount && g[k] == Blank && r.letters == g[k := r.letters[k]] &&
        r.letters[k] in Remaining(g, all) && r.possible[k] == [];
      RemainingMembers(g, all, r.letters[k]);
      ScanAfterSolving(g, k, r.letters[k], CellCount);
    }
  }

  /** Solving cell k takes it out of every scan that reaches it. */
  lemma {:induction false} ScanAfterSolving(g: seq<char>, k: int, x: char, upto: int)
    requires |g| == CellCount && 0 <= k < CellCount && g[k] == Blank && x != Blank
    requires 0 <= upto <= CellCount
    ensures |ScanBelow(g[k := x], false, upto)| == |ScanBelow(g, false, upto)| - (if k < upto then 1 else 0)
  {
    if upto > 0 {
      ScanAfterSolving(g, k, x, upto - 1);
    }
  }

  // ---------------------------------------------------------------------
  // Stalling

  /** A letter every listed cell can take is held by all of them. */
  lemma {:induction false} EveryCellHolds(possible: seq<seq<char>>, ch: char, cells: seq<Pos>)
    requires |possible| == CellCount && OnBoard(cells)
    requires forall i :: 0 <= i < |cells| ==> ch in possible[Index(cells[i])]
    ensures HoldersAmong(possible, ch, cells) == cells
  {
    if cells != [] {
      var n := |cells| - 1;
      var init := cells[..n];
      assert cells == init + [cells[n]];
      forall i | 0 <= i < n ensures InBounds(init[i]) && ch in possible[Index(init[i])] {
        assert init[i] == cells[i];
      }
      EveryCellHolds(possible, ch, init);
      assert ch in possible[Index(cells[n])];
      assert HoldersAmong(possible, ch, cells) == HoldersAmong(possible, ch, init) + [cells[n]];
    }
  }

  /** With no connections nothing is pruned: every unsolved node keeps all
      the remaining letters. */
  lemma NoConnectionsKeepAll(g: seq<char>, possible: seq<seq<char>>, all: seq<char>)
    requires |g| == CellCount && |possible| == CellCount
    ensures |Pruned(g, possible, {}, all)| == CellCount
    ensures forall k :: 0 <= k < CellCount && g[k] == Blank ==> Pruned(g, possible, {}, all)[k] == Remaining(g, all)
  {
    var rem := Remaining(g, all);
    PrunedCells(g, possible, {}, all);
    forall k | 0 <= k < CellCount && g[k] == Blank
      ensures Candidates(g, {}, all, PosOf(k)) == rem
    {
      KeepAll(rem, set ch | ch in rem && Allowed(g, {}, PosOf(k), ch));
    }
  }

  /** So as long as two cells are unsolved and two letters remain, a call
      of `Solve` without connections makes no progress. */
  lemma NoConnectionsStall(g: seq<char>, possible: seq<seq<char>>, all: seq<char>)
    requires |g| == CellCount && |possible| == CellCount
    requires |UnsolvedCells(g)| >= 2 && |Remaining(g, all)| >= 2
    ensures !SolveRound(g, possible, {}, all).progress
  {
    var rem := Remaining(g, all);
    var cells := UnsolvedCells(g);
    var pruned := Pruned(g, possible, {}, all);
    NoConnectionsKeepAll(g, possible, all);
    SolveRoundCases(g, possible, {}, all);
    forall i | 0 <= i < |cells|
      ensures pruned[Index(cells[i])] == rem
    {
      assert cells[i] in cells;
    }
    NoRuleFires(pruned, rem, cells);
  }

  /** When at least two cells all hold the same list of at least two
      letters, neither rule fires. */
  lemma NoRuleFires(possible: seq<seq<char>>, letters: seq<char>, cells: seq<Pos>)
    requires |possible| == CellCount && OnBoard(cells) && |cells| >= 2 && |letters| >= 2
    requires forall i :: 0 <= i < |cells| ==> possible[Index(cells[i])] == letters
    ensures Decide(possible, letters, cells) == None
  {
    forall j | 0 <= j < |letters|
      ensures |HoldersAmong(possible, letters[j], cells)| != 1
    {
      EveryCellHolds(possible, letters[j], cells);
    }
    FirstUniqueNone(possible, cells, letters);
    FirstSingleNone(possible, cells);
  }
}
