/** Progress of the pruning loop of `Solve`, stated on values: which letters
    an unsolved cell still has after the loop has handled the first i
    remaining letters and, for letter i, the first j solved nodes. */
module Pruning {
  import opened Seqs
  import opened Geometry
  import opened Deduction

  /** ch survives the first i letters and, if it is letter i itself, the
      first j solved nodes. */
  ghost predicate KeptSoFar(g: seq<char>, connections: set<(char, char)>, rem: seq<char>, solved: seq<Pos>,
                            i: int, j: int, p: Pos, ch: char)
    requires |g| == CellCount && 0 <= i <= |rem| && 0 <= j <= |solved| && OnBoard(solved)
  {
    ch in rem &&
    (ch in rem[..i] ==> Allowed(g, connections, p, ch)) &&
    (i < |rem| && ch == rem[i] ==> forall t :: 0 <= t < j ==> Permits(g, connections, p, ch, solved[t]))
  }

  ghost function Stage(g: seq<char>, connections: set<(char, char)>, rem: seq<char>, solved: seq<Pos>,
                       i: int, j: int, p: Pos): set<char>
    requires |g| == CellCount && 0 <= i <= |rem| && 0 <= j <= |solved| && OnBoard(solved)
  {
    set ch | ch in rem && KeptSoFar(g, connections, rem, solved, i, j, p, ch)
  }

  /** Before the loop every remaining letter is kept, so the list reset to
      the remaining letters is the kept list. */
  lemma StageStart(g: seq<char>, connections: set<(char, char)>, rem: seq<char>, solved: seq<Pos>, p: Pos)
    requires |g| == CellCount && OnBoard(solved)
    ensures Keep(rem, Stage(g, connections, rem, solved, 0, 0, p)) == rem
  {
    KeepAll(rem, Stage(g, connections, rem, solved, 0, 0, p));
  }

  /** Handling solved node j for letter i takes that letter away exactly
      when the node does not permit it at p. */
  lemma StageStep(g: seq<char>, connections: set<(char, char)>, rem: seq<char>, solved: seq<Pos>,
                  i: int, j: int, p: Pos)
    requires |g| == CellCount && 0 <= i < |rem| && 0 <= j < |solved| && OnBoard(solved)
    requires NoDuplicates(rem)
    ensures Stage(g, connections, rem, solved, i, j + 1, p) ==
      if Permits(g, connections, p, rem[i], solved[j]) then Stage(g, connections, rem, solved, i, j, p)
      else Stage(g, connections, rem, solved, i, j, p) - {rem[i]}
  {
    var x := rem[i];
    forall ch | ch in rem
      ensures KeptSoFar(g, connections, rem, solved, i, j + 1, p, ch) <==>
        KeptSoFar(g, connections, rem, solved, i, j, p, ch) &&
        (ch == x ==> Permits(g, connections, p, ch, solved[j]))
    {
      if ch == x {
        NotBefore(rem, i);
      }
    }
  }

  /** Once letter i has met every solved node, it is kept exactly when it
      is allowed, which is what the next letter's stage says of it. */
  lemma StageNext(g: seq<char>, connections: set<(char, char)>, rem: seq<char>, i: int, p: Pos)
    requires |g| == CellCount && 0 <= i < |rem|
    requires NoDuplicates(rem)
    ensures OnBoard(SolvedCells(g))
    ensures Stage(g, connections, rem, SolvedCells(g), i, |SolvedCells(g)|, p) ==
            Stage(g, connections, rem, SolvedCells(g), i + 1, 0, p)
  {
    var solved := SolvedCells(g);
    assert OnBoard(solved) by {
      forall t | 0 <= t < |solved| ensures InBounds(solved[t]) {
        assert solved[t] in solved;
      }
    }
    var x := rem[i];
    assert rem[..i + 1] == rem[..i] + [x];
    NotBefore(rem, i);
    PermitsAllIff(g, connections, p, x);
    forall ch | ch in rem
      ensures KeptSoFar(g, connections, rem, solved, i, |solved|, p, ch) <==>
              KeptSoFar(g, connections, rem, solved, i + 1, 0, p, ch)
    {
    }
  }

  /** Every solved node, taken in scan order, permits x exactly when x is allowed. */
  lemma PermitsAllIff(g: seq<char>, connections: set<(char, char)>, p: Pos, x: char)
    requires |g| == CellCount
    ensures OnBoard(SolvedCells(g))
    ensures (forall t :: 0 <= t < |SolvedCells(g)| ==> Permits(g, connections, p, x, SolvedCells(g)[t])) <==>
            Allowed(g, connections, p, x)
  {
    var solved := SolvedCells(g);
    assert OnBoard(solved) by {
      forall t | 0 <= t < |solved| ensures InBounds(solved[t]) {
        assert solved[t] in solved;
      }
    }
    if forall t :: 0 <= t < |solved| ==> Permits(g, connections, p, x, solved[t]) {
      forall s | s in solved ensures Permits(g, connections, p, x, s) {
        var t :| 0 <= t < |solved| && solved[t] == s;
      }
    }
  }

  /** After the last letter the kept letters are the allowed ones, so the
      kept list is the cell's candidate list. */
  lemma StageEnd(g: seq<char>, connections: set<(char, char)>, all: seq<char>, p: Pos)
    requires |g| == CellCount
    ensures OnBoard(SolvedCells(g))
    ensures var rem := Remaining(g, all);
      Keep(rem, Stage(g, connections, rem, SolvedCells(g), |rem|, 0, p)) == Candidates(g, connections, all, p)
  {
    var solved := SolvedCells(g);
    assert OnBoard(solved) by {
      forall t | 0 <= t < |solved| ensures InBounds(solved[t]) {
        assert solved[t] in solved;
      }
    }
    var rem := Remaining(g, all);
    assert rem[..|rem|] == rem;
    KeepEquiv(rem, Stage(g, connections, rem, solved, |rem|, 0, p),
              set ch | ch in rem && Allowed(g, connections, p, ch));
  }

  /** `StageStart`, `StageNext` and `StageEnd` at every unsolved cell. */
  lemma StageStartAll(g: seq<char>, connections: set<(char, char)>, rem: seq<char>, solved: seq<Pos>)
    requires |g| == CellCount && OnBoard(solved)
    ensures forall k :: 0 <= k < CellCount && g[k] == Blank ==>
      Keep(rem, Stage(g, connections, rem, solved, 0, 0, PosOf(k))) == rem
  {
    forall k | 0 <= k < CellCount && g[k] == Blank
      ensures Keep(rem, Stage(g, connections, rem, solved, 0, 0, PosOf(k))) == rem
    {
      StageStart(g, connections, rem, solved, PosOf(k));
    }
  }

  lemma StageNextAll(g: seq<char>, connections: set<(char, char)>, rem: seq<char>, i: int)
    requires |g| == CellCount && 0 <= i < |rem|
    requires NoDuplicates(rem)
    ensures OnBoard(SolvedCells(g))
    ensures forall k :: 0 <= k < CellCount && g[k] == Blank ==>
      Stage(g, connections, rem, SolvedCells(g), i, |SolvedCells(g)|, PosOf(k)) ==
      Stage(g, connections, rem, SolvedCells(g), i + 1, 0, PosOf(k))
  {
    StageNext(g, connections, rem, i, PosOf(0));
    forall k | 0 <= k < CellCount && g[k] == Blank
      ensures Stage(g, connections, rem, SolvedCells(g), i, |SolvedCells(g)|, PosOf(k)) ==
              Stage(g, connections, rem, SolvedCells(g), i + 1, 0, PosOf(k))
    {
      StageNext(g, connections, rem, i, PosOf(k));
    }
  }

  lemma StageEndAll(g: seq<char>, connections: set<(char, char)>, all: seq<char>)
    requires |g| == CellCount
    ensures OnBoard(SolvedCells(g))
    ensures var rem := Remaining(g, all);
      forall k :: 0 <= k < CellCount && g[k] == Blank ==>
        Keep(rem, Stage(g, connections, rem, SolvedCells(g), |rem|, 0, PosOf(k))) == Candidates(g, connections, all, PosOf(k))
  {
    StageEnd(g, connections, all, PosOf(0));
    forall k | 0 <= k < CellCount && g[k] == Blank
      ensures Keep(Remaining(g, all), Stage(g, connections, Remaining(g, all), SolvedCells(g), |Remaining(g, all)|, 0, PosOf(k))) ==
              Candidates(g, connections, all, PosOf(k))
    {
      StageEnd(g, connections, all, PosOf(k));
    }
  }
}
